/** JSON values as the developer tool sees them after parsing. */
module Json {
  import opened Common

  datatype Json =
    | Null
    | Bool(flag: bool)
    | Int(number: int)
    | Float(measure: real)
    | Str(text: string)
    | Arr(items: seq<Json>)
    | Obj(fields: map<string, Json>)
  {
    predicate Numeric() {
      Int? || Float?
    }
  }

  function Lookup(fields: map<string, Json>, key: string): Option<Json> {
    if key in fields then Some(fields[key]) else None
  }

  ghost function MaxOf(s: set<nat>): (m: nat)
    ensures forall x :: x in s ==> x <= m
    ensures s != {} ==> m in s
    ensures s == {} ==> m == 0
  {
    if s == {} then 0
    else
      var x :| x in s;
      var r := MaxOf(s - {x});
      assert forall y :: y in s && y != x ==> y in s - {x};
      if r > x then r else x
  }

  /** The nesting depth of a value. */
  ghost function Depth(j: Json): nat
    decreases j, 1
  {
    if j.Arr? then 1 + MaxOf(PartDepths(j))
    else if j.Obj? then 1 + MaxOf(PartDepths(j))
    else 0
  }

  ghost function PartDepths(j: Json): set<nat>
    decreases j, 0
  {
    if j.Arr? then set i | 0 <= i < |j.items| :: Depth(j.items[i])
    else if j.Obj? then set k | k in j.fields :: Depth(j.fields[k])
    else {}
  }

  ghost function DepthsOfAll(js: seq<Json>): set<nat> {
    set i | 0 <= i < |js| :: Depth(js[i])
  }

  ghost function DepthOfAll(js: seq<Json>): nat {
    MaxOf(DepthsOfAll(js))
  }

  lemma {:induction false} ItemIsLessDeep(j: Json, i: nat)
    requires j.Arr? && i < |j.items|
    ensures Depth(j.items[i]) < Depth(j)
  {
    assert Depth(j.items[i]) in PartDepths(j);
  }

  lemma {:induction false} FieldIsLessDeep(j: Json, key: string)
    requires j.Obj? && key in j.fields
    ensures Depth(j.fields[key]) < Depth(j)
  {
    assert Depth(j.fields[key]) in PartDepths(j);
  }

  lemma {:induction false} MemberIsNoDeeper(js: seq<Json>, i: nat)
    requires i < |js|
    ensures Depth(js[i]) <= DepthOfAll(js)
  {
    assert Depth(js[i]) in DepthsOfAll(js);
  }

  lemma {:induction false} DeepestMember(js: seq<Json>) returns (i: nat)
    requires js != []
    ensures i < |js| && Depth(js[i]) == DepthOfAll(js)
  {
    assert Depth(js[0]) in DepthsOfAll(js);
    i :| i < |js| && Depth(js[i]) == DepthOfAll(js);
  }
}
