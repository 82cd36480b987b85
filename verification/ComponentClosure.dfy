/** Which components a selection needs, and an order in which to start them. */
module ComponentClosure {
  import opened Common

  /** Every known component with the names it requires. */
  type Graph = map<string, seq<string>>

  // ---------------------------------------------------------------- reachability

  predicate Requires(g: Graph, u: string, v: string) {
    u in g && v in g[u]
  }

  ghost predicate Path(g: Graph, p: seq<string>) {
    && p != []
    && forall i :: 0 <= i < |p| - 1 ==> Requires(g, p[i], p[i + 1])
  }

  ghost predicate Reaches(g: Graph, u: string, v: string) {
    exists p :: Path(g, p) && p[0] == u && p[|p| - 1] == v
  }

  /** What the roots need, directly or through other components; the roots included. */
  ghost predicate Needed(g: Graph, roots: seq<string>, v: string) {
    exists r :: r in roots && Reaches(g, r, v)
  }

  lemma ReachesItself(g: Graph, u: string)
    ensures Reaches(g, u, u)
  {
    assert Path(g, [u]);
  }

  lemma ReachesStep(g: Graph, u: string, v: string, w: string)
    requires Reaches(g, u, v) && Requires(g, v, w)
    ensures Reaches(g, u, w)
  {
    var p :| Path(g, p) && p[0] == u && p[|p| - 1] == v;
    var q := p + [w];
    assert Path(g, q) by {
      forall i | 0 <= i < |q| - 1
        ensures Requires(g, q[i], q[i + 1])
      {
        assert i < |p| - 1 ==> Requires(g, p[i], p[i + 1]);
      }
    }
    assert q[0] == u && q[|q| - 1] == w;
  }

  lemma NeededStep(g: Graph, roots: seq<string>, v: string, w: string)
    requires Needed(g, roots, v) && Requires(g, v, w)
    ensures Needed(g, roots, w)
  {
    var r :| r in roots && Reaches(g, r, v);
    ReachesStep(g, r, v, w);
  }

  ghost predicate Closed(g: Graph, names: set<string>) {
    forall u, v :: u in names && Requires(g, u, v) ==> v in names
  }

  lemma {:induction false} ClosedHoldsPath(g: Graph, names: set<string>, p: seq<string>, i: nat)
    requires Closed(g, names) && Path(g, p) && p[0] in names && i < |p|
    ensures p[i] in names
  {
    if i > 0 {
      ClosedHoldsPath(g, names, p, i - 1);
      assert Requires(g, p[i - 1], p[i - 1 + 1]);
    }
  }

  lemma ClosedHoldsNeeded(g: Graph, names: set<string>, roots: seq<string>, v: string)
    requires Closed(g, names) && (forall r :: r in roots ==> r in names) && Needed(g, roots, v)
    ensures v in names
  {
    var r :| r in roots && Reaches(g, r, v);
    var p :| Path(g, p) && p[0] == r && p[|p| - 1] == v;
    ClosedHoldsPath(g, names, p, |p| - 1);
  }

  // ---------------------------------------------------------------- the depth-first visit

  function Members(names: seq<string>): (r: set<string>)
    ensures forall x :: x in r <==> x in names
  {
    set x | x in names
  }

  /** What a component requires stands before it, except where the two require each other through others. */
  ghost predicate Ordered(g: Graph, names: seq<string>) {
    forall i, v :: 0 <= i < |names| && Requires(g, names[i], v) ==> v in names[..i] || Reaches(g, v, names[i])
  }

  /**
    * Visited names are listed or still open. Listed names are known, needed and distinct,
    * and what they require has been visited.
    */
  ghost predicate Inv(g: Graph, roots: seq<string>, seen: set<string>, resolved: seq<string>, open: set<string>) {
    && seen == Members(resolved) + open
    && Members(resolved) !! open
    && Distinct(resolved)
    && (forall u :: u in resolved ==> u in g && Needed(g, roots, u))
    && (forall u, v :: u in resolved && Requires(g, u, v) ==> v in seen)
    && Ordered(g, resolved)
  }

  lemma InvOpen(g: Graph, roots: seq<string>, seen: set<string>, resolved: seq<string>, open: set<string>, name: string)
    requires Inv(g, roots, seen, resolved, open) && name !in seen
    ensures Inv(g, roots, seen + {name}, resolved, open + {name})
  {
  }

  /** A name whose requirements have all been visited can be listed. */
  lemma InvList(g: Graph, roots: seq<string>, seen: set<string>, resolved: seq<string>, open: set<string>, name: string)
    requires Inv(g, roots, seen, resolved, open + {name}) && name !in open
    requires name in g && Needed(g, roots, name)
    requires forall v :: v in g[name] ==> v in seen
    requires forall u :: u in open + {name} ==> Reaches(g, u, name)
    ensures Inv(g, roots, seen, resolved + [name], open)
  {
    var listed := resolved + [name];
    assert name !in resolved;
    assert Members(listed) == Members(resolved) + {name};
    forall i, v | 0 <= i < |listed| && Requires(g, listed[i], v)
      ensures v in listed[..i] || Reaches(g, v, listed[i])
    {
      assert listed[..i] == resolved[..i];
      if i == |resolved| {
        assert resolved[..i] == resolved;
      }
    }
  }

  datatype Outcome = Resolved(names: seq<string>) | Unknown(name: string)

  class Resolver {
    const g: Graph
    ghost const roots: seq<string>
    var seen: set<string>
    var resolved: seq<string>

    constructor (g: Graph, ghost roots: seq<string>)
      ensures this.g == g && this.roots == roots && seen == {} && resolved == []
    {
      this.g, this.roots, seen, resolved := g, roots, {}, [];
    }

    /**
      * Lists everything `name` needs that was not visited yet, and then `name`.
      * Gives back the first name that is not known, if there is one.
      */
    method Visit(name: string, ghost open: set<string>) returns (unknown: Option<string>)
      requires Inv(g, roots, seen, resolved, open) && Needed(g, roots, name)
      requires forall u :: u in open ==> Reaches(g, u, name)
      modifies this
      ensures unknown.Some? ==> unknown.value !in g && Needed(g, roots, unknown.value)
      ensures unknown.None? ==> Inv(g, roots, seen, resolved, open) && name in seen && old(seen) <= seen && old(resolved) <= resolved
      decreases g.Keys - seen, 1
    {
      if name in seen {
        return None;
      }
      InvOpen(g, roots, seen, resolved, open, name);
      seen := seen + {name};
      if name !in g {
        return Some(name);
      }
      ReachesItself(g, name);
      unknown := VisitAll(g[name], name, open);
      if unknown.Some? {
        return;
      }
      InvList(g, roots, seen, resolved, open, name);
      resolved := resolved + [name];
    }

    method VisitAll(names: seq<string>, ghost name: string, ghost open: set<string>) returns (unknown: Option<string>)
      requires name in g && names == g[name] && name in seen && Needed(g, roots, name)
      requires Inv(g, roots, seen, resolved, open + {name})
      requires forall u :: u in open + {name} ==> Reaches(g, u, name)
      modifies this
      ensures unknown.Some? ==> unknown.value !in g && Needed(g, roots, unknown.value)
      ensures unknown.None? ==> Inv(g, roots, seen, resolved, open + {name}) && old(seen) <= seen && old(resolved) <= resolved
      ensures unknown.None? ==> forall v :: v in names ==> v in seen
      decreases g.Keys - seen, 2
    {
      for i := 0 to |names|
        invariant Inv(g, roots, seen, resolved, open + {name}) && old(seen) <= seen && old(resolved) <= resolved
        invariant forall j :: 0 <= j < i ==> names[j] in seen
      {
        assert Requires(g, name, names[i]);
        NeededStep(g, roots, name, names[i]);
        forall u | u in open + {name}
          ensures Reaches(g, u, names[i])
        {
          ReachesStep(g, u, name, names[i]);
        }
        unknown := Visit(names[i], open + {name});
        if unknown.Some? {
          return;
        }
      }
      return None;
    }
  }

  /** The names to start, or a needed name that no manifest describes. */
  method ResolveComponentClosure(g: Graph, roots: seq<string>) returns (r: Outcome)
    ensures r.Resolved? <==> forall v :: Needed(g, roots, v) ==> v in g
    ensures r.Resolved? ==> Distinct(r.names) && Ordered(g, r.names) && forall v :: v in r.names <==> Needed(g, roots, v)
    ensures r.Unknown? ==> Needed(g, roots, r.name) && r.name !in g
  {
    var resolver := new Resolver(g, roots);
    for i := 0 to |roots|
      invariant resolver.g == g && resolver.roots == roots
      invariant Inv(g, roots, resolver.seen, resolver.resolved, {})
      invariant forall j :: 0 <= j < i ==> roots[j] in resolver.seen
    {
      ReachesItself(g, roots[i]);
      var unknown := resolver.Visit(roots[i], {});
      if unknown.Some? {
        return Unknown(unknown.value);
      }
    }
    ClosureIsExact(g, roots, resolver.seen, resolver.resolved);
    hide Inv, Needed;
    return Resolved(resolver.resolved);
  }

  /** When nothing is open any more, exactly the needed names are listed. */
  lemma ClosureIsExact(g: Graph, roots: seq<string>, seen: set<string>, resolved: seq<string>)
    requires Inv(g, roots, seen, resolved, {}) && forall r :: r in roots ==> r in seen
    ensures forall v :: v in resolved <==> Needed(g, roots, v)
    ensures forall v :: Needed(g, roots, v) ==> v in g
  {
    forall v | Needed(g, roots, v)
      ensures v in resolved
    {
      ClosedHoldsNeeded(g, seen, roots, v);
    }
  }
}
