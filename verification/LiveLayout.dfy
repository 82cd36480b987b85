/** Which cameras a live view shows, and in what layout. */
module LiveLayout {
  import opened Common

  datatype Mode = Single | Grid4 | Grid9 | Focus8 | Grid16

  datatype FrameSource = Raw | Processed

  datatype Plan = Plan(cameras: seq<string>, source: FrameSource, mode: Mode)

  function NormalizeMode(mode: string): (r: Mode)
    ensures r == Grid4 <==> TrimSpace(mode) == "grid-4"
    ensures r == Grid9 <==> TrimSpace(mode) == "grid-9"
    ensures r == Grid16 <==> TrimSpace(mode) == "grid-16"
    ensures r == Focus8 <==> TrimSpace(mode) == "focus-8"
    ensures r == Single <==> TrimSpace(mode) !in {"grid-4", "grid-9", "grid-16", "focus-8"}
  {
    var m := TrimSpace(mode);
    if m == "grid-4" then Grid4
    else if m == "grid-9" then Grid9
    else if m == "focus-8" then Focus8
    else if m == "grid-16" then Grid16
    else Single
  }

  function NormalizeSource(source: string): (r: FrameSource)
    ensures r == Processed <==> TrimSpace(source) == "processed"
  {
    if TrimSpace(source) == "processed" then Processed else Raw
  }

  function Capacity(mode: Mode): nat {
    match mode
    case Single => 1
    case Grid4 => 4
    case Grid9 => 9
    case Focus8 => 8
    case Grid16 => 16
  }

  // ---------------------------------------------------------------- the camera list

  /** `x` is asked for by one of the first `k` candidates. */
  predicate Asked(candidates: seq<string>, k: nat, x: string) {
    exists i :: 0 <= i < k && i < |candidates| && TrimSpace(candidates[i]) == x
  }

  /** The candidates that are not blank, each once, in the order in which they are first asked for. */
  ghost predicate ListsOnce(candidates: seq<string>, names: seq<string>) {
    && Distinct(names)
    && (forall x :: x in names <==> x != "" && Asked(candidates, |candidates|, x))
    && (forall i, j, k :: 0 <= i < j < |names| && 0 <= k < |candidates| && TrimSpace(candidates[k]) == names[j] ==> Asked(candidates, k, names[i]))
  }

  lemma AskedMore(candidates: seq<string>, c: string, k: nat, x: string)
    requires k <= |candidates|
    ensures Asked(candidates + [c], k, x) <==> Asked(candidates, k, x)
    ensures Asked(candidates + [c], |candidates| + 1, x) <==> Asked(candidates, |candidates|, x) || x == TrimSpace(c)
  {
    var more := candidates + [c];
    if Asked(candidates, k, x) {
      var i :| 0 <= i < k && i < |candidates| && TrimSpace(candidates[i]) == x;
      assert more[i] == candidates[i];
    }
    if Asked(candidates, |candidates|, x) {
      var i :| 0 <= i < |candidates| && TrimSpace(candidates[i]) == x;
      assert more[i] == candidates[i];
    }
    assert more[|candidates|] == c;
  }

  lemma ListsOnceMore(candidates: seq<string>, names: seq<string>, c: string)
    requires ListsOnce(candidates, names)
    ensures ListsOnce(candidates + [c], if TrimSpace(c) == "" || TrimSpace(c) in names then names else names + [TrimSpace(c)])
  {
    var t, more := TrimSpace(c), candidates + [c];
    var names' := if t == "" || t in names then names else names + [t];
    forall x
      ensures x in names' <==> x != "" && Asked(more, |more|, x)
    {
      AskedMore(candidates, c, 0, x);
    }
    forall i, j, k | 0 <= i < j < |names'| && 0 <= k < |more| && TrimSpace(more[k]) == names'[j]
      ensures Asked(more, k, names'[i])
    {
      AskedMore(candidates, c, k, names'[i]);
      if k == |candidates| {
        assert names'[i] in names;
      } else {
        assert Asked(candidates, |candidates|, names'[j]);
        assert j < |names|;
      }
    }
  }

  /** A name that follows a common prefix in one list does not occur in that prefix of the other. */
  lemma FollowsPrefix(a: seq<string>, b: seq<string>, n: nat) returns (j: nat)
    requires Distinct(a) && n < |a| && n <= |b| && a[..n] == b[..n] && a[n] in b
    ensures n <= j < |b| && b[j] == a[n]
  {
    j :| 0 <= j < |b| && b[j] == a[n];
    assert forall i :: 0 <= i < n ==> a[..n][i] == a[i] && b[..n][i] == b[i];
  }

  lemma ListsOnceNext(candidates: seq<string>, a: seq<string>, b: seq<string>, n: nat)
    requires ListsOnce(candidates, a) && ListsOnce(candidates, b) && n < |a| && n <= |b| && a[..n] == b[..n]
    ensures n < |b| && a[n] == b[n]
  {
    assert a[n] in a && a[n] in b;
    var j := FollowsPrefix(a, b, n);
    assert b[n] in b && b[n] in a;
    var i := FollowsPrefix(b, a, n);
    if j > n {
      Earliest(candidates, a[n], b[n], |candidates|, a, n, i, b, n, j);
    }
  }

  /** The list is determined by what is asked of it. */
  lemma {:induction false} ListsOnceUnique(candidates: seq<string>, a: seq<string>, b: seq<string>, n: nat)
    requires ListsOnce(candidates, a) && ListsOnce(candidates, b) && n <= |a|
    ensures n <= |b| && a[..n] == b[..n]
  {
    if n > 0 {
      ListsOnceUnique(candidates, a, b, n - 1);
      ListsOnceNext(candidates, a, b, n - 1);
      hide ListsOnce;
      assert a[..n] == a[..n - 1] + [a[n - 1]];
    }
  }

  /** Two lists cannot disagree on which of two names is asked for first. */
  lemma {:induction false} Earliest(candidates: seq<string>, x: string, y: string, k: nat, a: seq<string>, i: nat, i': nat, b: seq<string>, j: nat, j': nat)
    requires ListsOnce(candidates, a) && ListsOnce(candidates, b) && k <= |candidates|
    requires i < i' < |a| && a[i] == x && a[i'] == y
    requires j < j' < |b| && b[j] == y && b[j'] == x
    ensures !Asked(candidates, k, x)
    decreases k
  {
    if Asked(candidates, k, x) {
      var m :| 0 <= m < k && TrimSpace(candidates[m]) == x;
      assert Asked(candidates, m, y);
      var l :| 0 <= l < m && TrimSpace(candidates[l]) == y;
      assert Asked(candidates, l, x);
      Earliest(candidates, x, y, l, a, i, i', b, j, j');
    }
  }

  // ---------------------------------------------------------------- the plan

  /** What every accepted plan satisfies. */
  predicate Normalised(plan: Plan) {
    1 <= |plan.cameras| <= Capacity(plan.mode) && Distinct(plan.cameras) && "" !in plan.cameras
  }

  /** The plan for a request; None when it names no camera. */
  method NormalizeLiveLayoutPlan(mode: string, camera: string, cameras: seq<string>, source: string) returns (plan: Option<Plan>)
    ensures plan.None? <==> forall c :: c in [camera] + cameras ==> TrimSpace(c) == ""
    ensures plan.Some? ==>
      && Normalised(plan.value) && plan.value.mode == NormalizeMode(mode) && plan.value.source == NormalizeSource(source)
      && exists names: seq<string> :: ListsOnce([camera] + cameras, names)
           && plan.value.cameras == if |names| > Capacity(plan.value.mode) then names[..Capacity(plan.value.mode)] else names
  {
    hide ListsOnce, Asked, TrimSpace;
    var names := ListCameras(camera, cameras);
    ListsOnceEmpty([camera] + cameras, names);
    if names == [] {
      return None;
    }
    var capacity := Capacity(NormalizeMode(mode));
    plan := Some(Plan(if |names| > capacity then names[..capacity] else names, NormalizeSource(source), NormalizeMode(mode)));
  }

  method ListCameras(camera: string, cameras: seq<string>) returns (names: seq<string>)
    ensures ListsOnce([camera] + cameras, names)
  {
    names := [];
    assert ListsOnce([], names);
    hide ListsOnce;
    names := AppendCamera(names, camera, []);
    assert [] + [camera] == [camera] + cameras[..0];
    for i := 0 to |cameras|
      invariant ListsOnce([camera] + cameras[..i], names)
    {
      OneMoreAsked(camera, cameras, i);
      names := AppendCamera(names, cameras[i], [camera] + cameras[..i]);
    }
    assert cameras[..|cameras|] == cameras;
  }

  lemma OneMoreAsked(camera: string, cameras: seq<string>, i: nat)
    requires i < |cameras|
    ensures [camera] + cameras[..i] + [cameras[i]] == [camera] + cameras[..i + 1]
  {
  }

  lemma ListsOnceEmpty(candidates: seq<string>, names: seq<string>)
    requires ListsOnce(candidates, names)
    ensures names == [] <==> forall c :: c in candidates ==> TrimSpace(c) == ""
    ensures "" !in names && Distinct(names)
  {
    forall c | c in candidates && TrimSpace(c) != ""
      ensures TrimSpace(c) in names
    {
      assert Asked(candidates, |candidates|, TrimSpace(c));
    }
    assert names != [] ==> names[0] in names;
  }

  method AppendCamera(names: seq<string>, candidate: string, ghost asked: seq<string>) returns (r: seq<string>)
    requires ListsOnce(asked, names)
    ensures ListsOnce(asked + [candidate], r)
  {
    ListsOnceMore(asked, names, candidate);
    var name := TrimSpace(candidate);
    if name == "" || name in names {
      return names;
    }
    return names + [name];
  }
}
