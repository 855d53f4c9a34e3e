/** visit_die: the child and sibling recursion, against preorder. */
module DieTraversal {
  import opened DieStore
  import opened Options

  /** One call of the action; parent is the entry whose child list the entry is in. */
  datatype Visit = Visit(off: Offset, level: nat, parent: Option<Offset>)

  function Preorder(t: Tree, level: nat, parent: Option<Offset>): seq<Visit> {
    [Visit(t.off, level, parent)] + PreorderAll(t.kids, level + 1, Some(t.off))
  }

  function PreorderAll(ts: seq<Tree>, level: nat, parent: Option<Offset>): seq<Visit> {
    if ts == [] then [] else Preorder(ts[0], level, parent) + PreorderAll(ts[1..], level, parent)
  }

  /** The offsets and levels the action is called with. */
  function Calls(vs: seq<Visit>): seq<(Offset, nat)> {
    seq(|vs|, i requires 0 <= i < |vs| => (vs[i].off, vs[i].level))
  }

  lemma CallsConcat(us: seq<Visit>, vs: seq<Visit>)
    ensures Calls(us + vs) == Calls(us) + Calls(vs)
  {
  }

  lemma CallsOfTree(store: Store, die: Offset, level: nat)
    requires Wellformed(store) && die in store
    ensures Calls(Preorder(TreeAt(store, die), level, None))
         == [(die, level)] + Calls(PreorderAll(Forest(store, store[die].child), level + 1, Some(die)))
    ensures Calls(PreorderAll(Forest(store, None), level + 1, Some(die))) == []
  {
    CallsConcat([Visit(die, level, None)], PreorderAll(Forest(store, store[die].child), level + 1, Some(die)));
    assert Calls([Visit(die, level, None)]) == [(die, level)];
  }

  /** visit_die with an action that records its calls: preorder, with the level as depth. */
  method VisitDie(store: Store, die: Offset, level: nat) returns (calls: seq<(Offset, nat)>)
    requires Wellformed(store) && die in store
    ensures calls == Calls(Preorder(TreeAt(store, die), level, None))
    decreases From(store, die)
  {
    hide Preorder, PreorderAll, Forest, Calls;
    calls := [(die, level)];
    ghost var me := Some(die);
    ghost var first := store[die].child;
    Later(store, die);
    CallsOfTree(store, die, level);
    if store[die].child.None? {
      return;
    }
    var kid := store[die].child.value;
    var sub := VisitDie(store, kid, level + 1);
    calls := calls + sub;
    UnfoldForest(store, kid, level + 1, me);
    while store[kid].sibling.Some?
      invariant kid in store && From(store, kid) < From(store, die)
      invariant calls + Calls(PreorderAll(Forest(store, store[kid].sibling), level + 1, me))
             == [(die, level)] + Calls(PreorderAll(Forest(store, first), level + 1, me))
      decreases From(store, kid)
    {
      Later(store, kid);
      kid := store[kid].sibling.value;
      UnfoldForest(store, kid, level + 1, me);
      sub := VisitDie(store, kid, level + 1);
      calls := calls + sub;
    }
  }

  lemma UnfoldForest(store: Store, kid: Offset, level: nat, parent: Option<Offset>)
    requires Wellformed(store) && kid in store
    ensures Calls(PreorderAll(Forest(store, Some(kid)), level, parent))
         == Calls(Preorder(TreeAt(store, kid), level, None))
            + Calls(PreorderAll(Forest(store, store[kid].sibling), level, parent))
  {
    var f := Forest(store, Some(kid));
    assert f[0] == TreeAt(store, kid) && f[1..] == Forest(store, store[kid].sibling);
    IgnoreParent(f[0], level, parent, None);
    CallsConcat(Preorder(f[0], level, parent), PreorderAll(f[1..], level, parent));
  }

  lemma IgnoreParent(t: Tree, level: nat, p: Option<Offset>, q: Option<Offset>)
    ensures Calls(Preorder(t, level, p)) == Calls(Preorder(t, level, q))
  {
    var rest := PreorderAll(t.kids, level + 1, Some(t.off));
    CallsConcat([Visit(t.off, level, p)], rest);
    CallsConcat([Visit(t.off, level, q)], rest);
    assert Calls([Visit(t.off, level, p)]) == Calls([Visit(t.off, level, q)]);
  }

  // ---------------------------------------------------------------- every reachable entry, once

  datatype Move = Down | Right

  function Link(store: Store, o: Offset, m: Move): Option<Offset>
    requires o in store
  {
    if m.Down? then store[o].child else store[o].sibling
  }

  /** Where a path of child and sibling links leads. */
  function Follow(store: Store, o: Offset, path: seq<Move>): Option<Offset>
    requires o in store
    decreases |path|
  {
    if path == [] then Some(o)
    else
      var next := Link(store, o, path[0]);
      if next.None? || next.value !in store then None else Follow(store, next.value, path[1..])
  }

  function Downs(path: seq<Move>): nat {
    if path == [] then 0 else Downs(path[1..]) + if path[0].Down? then 1 else 0
  }

  /** The path leads from o to x, and leaves o to the right only when siblings is set. */
  predicate IsPath(store: Store, o: Offset, siblings: bool, path: seq<Move>, x: Offset)
    requires o in store
  {
    Follow(store, o, path) == Some(x) && (siblings || path == [] || path[0].Down?)
  }

  /** x is reachable from o or, when siblings is set, from a later sibling of o, d levels down. */
  ghost predicate Reaches(store: Store, o: Offset, siblings: bool, x: Offset, d: nat)
    requires o in store
  {
    exists path :: IsPath(store, o, siblings, path, x) && Downs(path) == d
  }

  lemma Prepend(store: Store, o: Offset, siblings: bool, m: Move, path: seq<Move>, x: Offset)
    requires Wellformed(store) && o in store && (m.Down? || siblings) && Link(store, o, m).Some?
    requires IsPath(store, Link(store, o, m).value, true, path, x)
    ensures IsPath(store, o, siblings, [m] + path, x)
    ensures Downs([m] + path) == Downs(path) + if m.Down? then 1 else 0
  {
    assert ([m] + path)[1..] == path;
  }

  /** One step of reachability. */
  lemma ReachesSplit(store: Store, o: Offset, siblings: bool, x: Offset, d: nat)
    requires Wellformed(store) && o in store
    ensures Reaches(store, o, siblings, x, d) <==>
      || (x == o && d == 0)
      || (store[o].child.Some? && d > 0 && Reaches(store, store[o].child.value, true, x, d - 1))
      || (siblings && store[o].sibling.Some? && Reaches(store, store[o].sibling.value, true, x, d))
  {
    if Reaches(store, o, siblings, x, d) {
      var path :| IsPath(store, o, siblings, path, x) && Downs(path) == d;
      if path != [] {
        var next := Link(store, o, path[0]);
        assert IsPath(store, next.value, true, path[1..], x);
      }
    }
    if x == o && d == 0 {
      assert IsPath(store, o, siblings, [], x) && Downs([]) == 0;
    }
    if store[o].child.Some? && d > 0 && Reaches(store, store[o].child.value, true, x, d - 1) {
      var path :| IsPath(store, store[o].child.value, true, path, x) && Downs(path) == d - 1;
      Prepend(store, o, siblings, Down, path, x);
    }
    if siblings && store[o].sibling.Some? && Reaches(store, store[o].sibling.value, true, x, d) {
      var path :| IsPath(store, store[o].sibling.value, true, path, x) && Downs(path) == d;
      Prepend(store, o, siblings, Right, path, x);
    }
  }

  ghost predicate Called(calls: seq<(Offset, nat)>, x: Offset, level: nat) {
    (x, level) in calls
  }

  lemma {:induction false} ForestReaches(store: Store, o: Offset, level: nat, x: Offset, l: nat)
    requires Wellformed(store) && o in store
    ensures Called(Calls(PreorderAll(Forest(store, Some(o)), level, None)), x, l)
       <==> l >= level && Reaches(store, o, true, x, l - level)
    decreases From(store, o), 1
  {
    UnfoldForest(store, o, level, None);
    TreeReaches(store, o, level, x, l);
    Later(store, o);
    if store[o].sibling.Some? {
      ForestReaches(store, store[o].sibling.value, level, x, l);
    }
    if l >= level {
      ReachesSplit(store, o, true, x, l - level);
      ReachesSplit(store, o, false, x, l - level);
    }
  }

  lemma {:induction false} TreeReaches(store: Store, o: Offset, level: nat, x: Offset, l: nat)
    requires Wellformed(store) && o in store
    ensures Called(Calls(Preorder(TreeAt(store, o), level, None)), x, l)
       <==> l >= level && Reaches(store, o, false, x, l - level)
    decreases From(store, o), 0
  {
    var kids := Forest(store, store[o].child);
    CallsConcat([Visit(o, level, None)], PreorderAll(kids, level + 1, Some(o)));
    assert Calls([Visit(o, level, None)]) == [(o, level)];
    assert Calls(Preorder(TreeAt(store, o), level, None))
        == [(o, level)] + Calls(PreorderAll(kids, level + 1, Some(o)));
    Later(store, o);
    if store[o].child.Some? {
      ForestReaches(store, store[o].child.value, level + 1, x, l);
      IgnoreParents(kids, level + 1, Some(o), None);
    }
    if l >= level {
      ReachesSplit(store, o, false, x, l - level);
    }
  }

  lemma {:induction false} IgnoreParents(ts: seq<Tree>, level: nat, p: Option<Offset>, q: Option<Offset>)
    ensures Calls(PreorderAll(ts, level, p)) == Calls(PreorderAll(ts, level, q))
  {
    if ts != [] {
      IgnoreParent(ts[0], level, p, q);
      IgnoreParents(ts[1..], level, p, q);
      CallsConcat(Preorder(ts[0], level, p), PreorderAll(ts[1..], level, p));
      CallsConcat(Preorder(ts[0], level, q), PreorderAll(ts[1..], level, q));
    }
  }
}
