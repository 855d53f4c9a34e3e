/** The order of the walk: an entry before everything below it, and everything below it before its
    siblings. */
module DieOrder {
  import opened DieStore
  import opened DieTraversal
  import opened DieOnce
  import opened Options

  /** Every call for x comes before every call for y. */
  ghost predicate Precedes(calls: seq<(Offset, nat)>, x: Offset, y: Offset) {
    forall i, j :: 0 <= i < |calls| && 0 <= j < |calls| && calls[i].0 == x && calls[j].0 == y ==> i < j
  }

  /** In a concatenation without repetitions, the first part precedes the second, and the order
      inside each part stays. */
  lemma PrecedesConcat(a: seq<(Offset, nat)>, b: seq<(Offset, nat)>, x: Offset, y: Offset)
    requires Distinct(a + b)
    ensures Visits(a, x) && Visits(b, y) ==> Precedes(a + b, x, y)
    ensures Visits(a, x) && Visits(a, y) && Precedes(a, x, y) ==> Precedes(a + b, x, y)
    ensures Visits(b, x) && Visits(b, y) && Precedes(b, x, y) ==> Precedes(a + b, x, y)
  {
    DistinctConcat(a, b);
    var c := a + b;
    forall i | 0 <= i < |c|
      ensures i < |a| ==> c[i] == a[i] && Visits(a, c[i].0)
      ensures i >= |a| ==> c[i] == b[i - |a|] && Visits(b, c[i].0)
    {
    }
  }

  lemma {:induction false} FollowConcat(store: Store, o: Offset, p: seq<Move>, q: seq<Move>)
    requires Wellformed(store) && o in store && Follow(store, o, p).Some?
    ensures Follow(store, o, p).value in store
    ensures Follow(store, o, p + q) == Follow(store, Follow(store, o, p).value, q)
    decreases |p|
  {
    if p == [] {
      assert p + q == q;
    } else {
      assert (p + q)[0] == p[0] && (p + q)[1..] == p[1..] + q;
      FollowConcat(store, Link(store, o, p[0]).value, p[1..], q);
    }
  }

  /** What is reached from a reached entry is reached. */
  lemma ReachedOn(store: Store, o: Offset, siblings: bool, x: Offset, on: bool, y: Offset)
    requires Wellformed(store) && o in store && Reached(store, o, siblings, x) && x in store
    requires Reached(store, x, on, y) && (on ==> siblings || x != o)
    ensures Reached(store, o, siblings, y)
  {
    var p :| IsPath(store, o, siblings, p, x);
    var q :| IsPath(store, x, on, q, y);
    FollowConcat(store, o, p, q);
    assert p == [] ==> p + q == q && x == o;
    assert p != [] ==> (p + q)[0] == p[0];
    assert IsPath(store, o, siblings, p + q, y);
  }

  lemma SiblingReached(store: Store, x: Offset, y: Offset)
    requires Wellformed(store) && x in store && store[x].sibling.Some?
    requires Reached(store, store[x].sibling.value, true, y)
    ensures Reached(store, x, true, y)
  {
    var q :| IsPath(store, store[x].sibling.value, true, q, y);
    Prepend(store, x, true, Right, q, y);
  }

  lemma ReachedInStore(store: Store, o: Offset, siblings: bool, x: Offset)
    requires Wellformed(store) && o in store && Reached(store, o, siblings, x)
    ensures x in store
  {
    var p :| IsPath(store, o, siblings, p, x);
    FollowConcat(store, o, p, []);
  }

  /** An entry reached from o is o itself, below its child, or from its sibling on. */
  lemma ReachedSplit(store: Store, o: Offset, siblings: bool, x: Offset)
    requires Wellformed(store) && o in store && Reached(store, o, siblings, x)
    ensures x == o
      || (store[o].child.Some? && Reached(store, store[o].child.value, true, x))
      || (siblings && store[o].sibling.Some? && Reached(store, store[o].sibling.value, true, x))
  {
    var p :| IsPath(store, o, siblings, p, x);
    if p != [] {
      assert IsPath(store, Link(store, o, p[0]).value, true, p[1..], x);
    }
  }

  /** x is called before everything below it. */
  ghost predicate BelowLater(store: Store, calls: seq<(Offset, nat)>, x: Offset)
    requires x in store
  {
    forall y :: y != x && Reached(store, x, false, y) ==> Precedes(calls, x, y)
  }

  /** Everything in the tree of x is called before everything reached from the sibling of x. */
  ghost predicate SiblingsLater(store: Store, calls: seq<(Offset, nat)>, x: Offset)
    requires Wellformed(store) && x in store
  {
    store[x].sibling.Some? ==>
      forall y, z :: Reached(store, x, false, y) && Reached(store, store[x].sibling.value, true, z) ==>
        Precedes(calls, y, z)
  }

  /** All that is reached from x, with or without its siblings, is called. */
  ghost predicate CallsAll(store: Store, calls: seq<(Offset, nat)>, x: Offset, siblings: bool)
    requires x in store
  {
    forall y :: Reached(store, x, siblings, y) ==> Visits(calls, y)
  }

  lemma SelfReached(store: Store, x: Offset, siblings: bool)
    requires x in store
    ensures Reached(store, x, siblings, x)
  {
    assert IsPath(store, x, siblings, [], x);
  }

  lemma LiftBelow(store: Store, a: seq<(Offset, nat)>, b: seq<(Offset, nat)>, x: Offset)
    requires Wellformed(store) && x in store && Distinct(a + b)
    ensures BelowLater(store, a, x) && CallsAll(store, a, x, false) ==> BelowLater(store, a + b, x)
    ensures BelowLater(store, b, x) && CallsAll(store, b, x, false) ==> BelowLater(store, a + b, x)
  {
    hide Precedes, Reached, Visits, Distinct;
    SelfReached(store, x, false);
    forall y
      ensures Visits(a, x) && Visits(a, y) && Precedes(a, x, y) ==> Precedes(a + b, x, y)
      ensures Visits(b, x) && Visits(b, y) && Precedes(b, x, y) ==> Precedes(a + b, x, y)
    {
      PrecedesConcat(a, b, x, y);
    }
  }

  lemma LiftSiblings(store: Store, a: seq<(Offset, nat)>, b: seq<(Offset, nat)>, x: Offset)
    requires Wellformed(store) && x in store && Distinct(a + b)
    ensures SiblingsLater(store, a, x) && CallsAll(store, a, x, true) ==> SiblingsLater(store, a + b, x)
    ensures SiblingsLater(store, b, x) && CallsAll(store, b, x, true) ==> SiblingsLater(store, a + b, x)
  {
    if store[x].sibling.Some? {
      forall y, z | Reached(store, x, false, y) && Reached(store, store[x].sibling.value, true, z)
        ensures Reached(store, x, true, y) && Reached(store, x, true, z)
        ensures Visits(a, y) && Visits(a, z) && Precedes(a, y, z) ==> Precedes(a + b, y, z)
        ensures Visits(b, y) && Visits(b, z) && Precedes(b, y, z) ==> Precedes(a + b, y, z)
      {
        SiblingReached(store, x, z);
        Weaken(store, x, y);
        PrecedesConcat(a, b, y, z);
      }
    }
  }

  lemma Weaken(store: Store, x: Offset, y: Offset)
    requires x in store && Reached(store, x, false, y)
    ensures Reached(store, x, true, y)
  {
    var p :| IsPath(store, x, false, p, y);
    assert IsPath(store, x, true, p, y);
  }

  /** A part of the walk that calls all that is reached from o calls all that is reached from x. */
  lemma CallsAllOn(store: Store, calls: seq<(Offset, nat)>, o: Offset, siblings: bool, x: Offset, on: bool)
    requires Wellformed(store) && o in store && x in store && CallsAll(store, calls, o, siblings)
    requires Reached(store, o, siblings, x) && (on ==> siblings || x != o)
    ensures CallsAll(store, calls, x, on)
  {
    forall y | Reached(store, x, on, y) ensures Visits(calls, y) {
      ReachedOn(store, o, siblings, x, on, y);
    }
  }

  /** The walk of the tree of o, and the walk of an entry and its siblings. */
  ghost function TreeCalls(store: Store, o: Offset, level: nat): seq<(Offset, nat)>
    requires Wellformed(store) && o in store
  {
    Calls(Preorder(TreeAt(store, o), level, None))
  }

  ghost function ChainCalls(store: Store, o: Option<Offset>, level: nat): seq<(Offset, nat)>
    requires Wellformed(store) && Points(store, o)
  {
    Calls(PreorderAll(Forest(store, o), level, None))
  }

  lemma TreeUnfolds(store: Store, o: Offset, level: nat)
    requires Wellformed(store) && o in store
    ensures TreeCalls(store, o, level) == [(o, level)] + ChainCalls(store, store[o].child, level + 1)
    ensures CallsAll(store, TreeCalls(store, o, level), o, false)
  {
    var kids := Forest(store, store[o].child);
    CallsConcat([Visit(o, level, None)], PreorderAll(kids, level + 1, Some(o)));
    assert Calls([Visit(o, level, None)]) == [(o, level)];
    IgnoreParents(kids, level + 1, Some(o), None);
    forall y | Reached(store, o, false, y) ensures Visits(TreeCalls(store, o, level), y) {
      TreeVisits(store, o, level, y);
    }
  }

  lemma ChainUnfolds(store: Store, o: Offset, level: nat)
    requires Wellformed(store) && o in store
    ensures ChainCalls(store, Some(o), level)
         == TreeCalls(store, o, level) + ChainCalls(store, store[o].sibling, level)
    ensures CallsAll(store, ChainCalls(store, Some(o), level), o, true)
  {
    UnfoldForest(store, o, level, None);
    forall y | Reached(store, o, true, y) ensures Visits(ChainCalls(store, Some(o), level), y) {
      ForestVisits(store, o, level, y);
    }
  }

  lemma {:induction false} TreeOrder(store: Store, o: Offset, level: nat, x: Offset)
    requires Wellformed(store) && o in store && x in store
    requires OnePath(store, o, false) && Reached(store, o, false, x)
    ensures BelowLater(store, TreeCalls(store, o, level), x)
    ensures x != o ==> SiblingsLater(store, TreeCalls(store, o, level), x)
    decreases From(store, o), 0
  {
    hide TreeCalls, ChainCalls, Reached, OnePath, Distinct, Precedes, Visits, CallsAll, BelowLater, SiblingsLater;
    var own, calls := [(o, level)], TreeCalls(store, o, level);
    TreeUnfolds(store, o, level);
    TreeIsDistinct(store, o, level);
    Later(store, o);
    if x == o {
      RootFirst(store, o, level);
    } else {
      ReachedSplit(store, o, false, x);
      var k := store[o].child.value;
      var below := ChainCalls(store, Some(k), level + 1);
      OnePathDown(store, o);
      ForestOrder(store, k, level + 1, x);
      ChainUnfolds(store, k, level + 1);
      CallsAllOn(store, below, k, true, x, false);
      CallsAllOn(store, below, k, true, x, true);
      LiftBelow(store, own, below, x);
      LiftSiblings(store, own, below, x);
    }
  }

  lemma TreeIsDistinct(store: Store, o: Offset, level: nat)
    requires Wellformed(store) && o in store && OnePath(store, o, false)
    ensures Distinct(TreeCalls(store, o, level))
  {
    TreeDistinct(store, o, level);
  }

  lemma ChainIsDistinct(store: Store, o: Offset, level: nat)
    requires Wellformed(store) && o in store && OnePath(store, o, true)
    ensures Distinct(ChainCalls(store, Some(o), level))
  {
    ForestDistinct(store, o, level);
  }

  /** The root of a tree is called first. */
  lemma RootFirst(store: Store, o: Offset, level: nat)
    requires Wellformed(store) && o in store && OnePath(store, o, false)
    ensures BelowLater(store, TreeCalls(store, o, level), o)
  {
    hide TreeCalls, ChainCalls;
    var calls := TreeCalls(store, o, level);
    TreeUnfolds(store, o, level);
    TreeIsDistinct(store, o, level);
    assert calls[0] == (o, level);
    forall y | y != o && Reached(store, o, false, y) ensures Precedes(calls, o, y) {
      assert forall i :: 0 < i < |calls| ==> calls[0].0 != calls[i].0;
    }
  }

  lemma {:induction false} ForestOrder(store: Store, o: Offset, level: nat, x: Offset)
    requires Wellformed(store) && o in store && x in store
    requires OnePath(store, o, true) && Reached(store, o, true, x)
    ensures BelowLater(store, ChainCalls(store, Some(o), level), x)
    ensures SiblingsLater(store, ChainCalls(store, Some(o), level), x)
    decreases From(store, o), 1
  {
    hide TreeCalls, ChainCalls, Reached, OnePath, Distinct, Precedes, Visits, CallsAll, BelowLater, SiblingsLater;
    var head, rest := TreeCalls(store, o, level), ChainCalls(store, store[o].sibling, level);
    ChainUnfolds(store, o, level);
    TreeUnfolds(store, o, level);
    ChainIsDistinct(store, o, level);
    OnePathRight(store, o);
    Later(store, o);
    if Reached(store, o, false, x) {
      TreeOrder(store, o, level, x);
      CallsAllOn(store, head, o, false, x, false);
      LiftBelow(store, head, rest, x);
      if x == o {
        HeadFirst(store, o, level);
      } else {
        CallsAllOn(store, head, o, false, x, true);
        LiftSiblings(store, head, rest, x);
      }
    } else {
      NotInTree(store, o, x);
      var s := store[o].sibling.value;
      ForestOrder(store, s, level, x);
      ChainUnfolds(store, s, level);
      CallsAllOn(store, rest, s, true, x, false);
      CallsAllOn(store, rest, s, true, x, true);
      LiftBelow(store, head, rest, x);
      LiftSiblings(store, head, rest, x);
    }
  }

  lemma NotInTree(store: Store, o: Offset, x: Offset)
    requires Wellformed(store) && o in store && Reached(store, o, true, x) && !Reached(store, o, false, x)
    ensures store[o].sibling.Some? && Reached(store, store[o].sibling.value, true, x)
  {
    var p :| IsPath(store, o, true, p, x);
    assert !IsPath(store, o, false, p, x);
    assert IsPath(store, store[o].sibling.value, true, p[1..], x);
  }

  lemma HeadFirst(store: Store, o: Offset, level: nat)
    requires Wellformed(store) && o in store && OnePath(store, o, true)
    ensures SiblingsLater(store, ChainCalls(store, Some(o), level), o)
  {
    hide TreeCalls, ChainCalls, OnePath, Distinct, Precedes, Visits;
    if store[o].sibling.Some? {
      var s := store[o].sibling.value;
      ChainUnfolds(store, o, level);
      TreeUnfolds(store, o, level);
      ChainUnfolds(store, s, level);
      ChainIsDistinct(store, o, level);
      forall y, z | Reached(store, o, false, y) && Reached(store, s, true, z)
        ensures Precedes(ChainCalls(store, Some(o), level), y, z)
      {
        PrecedesConcat(TreeCalls(store, o, level), ChainCalls(store, store[o].sibling, level), y, z);
      }
    }
  }

  /** visit_die on a unit's entry, as dump_dwarf_info calls it: the action is called for exactly the
      entries reachable from it, with their depth, and for each of them once exactly when none is
      linked to twice; then every entry is called before all below it, and all in its tree before
      all that its sibling link leads to. */
  method VisitUnit(store: Store, root: Offset) returns (calls: seq<(Offset, nat)>)
    requires Wellformed(store) && root in store
    ensures forall x: Offset, d: nat :: Called(calls, x, d) <==> Reaches(store, root, false, x, d)
    ensures Distinct(calls) <==> LinkedOnce(store, root)
    ensures LinkedOnce(store, root) ==>
      forall x :: x in store && Reached(store, root, false, x) ==>
        BelowLater(store, calls, x) && (x != root ==> SiblingsLater(store, calls, x))
  {
    calls := VisitDie(store, root, 0);
    WalkOrder(store, root);
  }

  lemma WalkOrder(store: Store, root: Offset)
    requires Wellformed(store) && root in store
    ensures var calls := Calls(Preorder(TreeAt(store, root), 0, None));
      && (forall x: Offset, d: nat :: Called(calls, x, d) <==> Reaches(store, root, false, x, d))
      && (Distinct(calls) <==> LinkedOnce(store, root))
      && (LinkedOnce(store, root) ==>
            forall x :: x in store && Reached(store, root, false, x) ==>
              BelowLater(store, calls, x) && (x != root ==> SiblingsLater(store, calls, x)))
  {
    TraversalAgreement(store, root);
    OnePathIsLinkedOnce(store, root);
    if LinkedOnce(store, root) {
      forall x | x in store && Reached(store, root, false, x)
        ensures BelowLater(store, Calls(Preorder(TreeAt(store, root), 0, None)), x)
        ensures x != root ==> SiblingsLater(store, Calls(Preorder(TreeAt(store, root), 0, None)), x)
      {
        TreeOrder(store, root, 0, x);
      }
    }
  }
}
