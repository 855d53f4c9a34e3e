/** The walk of visit_die meets every reachable entry, and meets it once exactly when no entry is
    linked to twice. */
module DieOnce {
  import opened DieStore
  import opened DieTraversal
  import opened Options

  // ---------------------------------------------------------------- at most one path

  /** No entry is reached along two paths. */
  ghost predicate OnePath(store: Store, o: Offset, siblings: bool)
    requires o in store
  {
    forall x, p, q :: IsPath(store, o, siblings, p, x) && IsPath(store, o, siblings, q, x) ==> p == q
  }

  ghost predicate Reached(store: Store, o: Offset, siblings: bool, x: Offset)
    requires o in store
  {
    exists p :: IsPath(store, o, siblings, p, x)
  }

  /** Links only lead on. */
  lemma {:induction false} PathsLeadOn(store: Store, o: Offset, path: seq<Move>)
    requires Wellformed(store) && o in store && Follow(store, o, path).Some? && path != []
    ensures Follow(store, o, path).value > o
    decreases |path|
  {
    var next := Link(store, o, path[0]).value;
    if path[1..] != [] {
      PathsLeadOn(store, next, path[1..]);
    }
  }

  lemma OnePathOn(store: Store, o: Offset, siblings: bool, m: Move)
    requires Wellformed(store) && o in store && OnePath(store, o, siblings)
    requires (m.Down? || siblings) && Link(store, o, m).Some?
    ensures OnePath(store, Link(store, o, m).value, true)
  {
    var k := Link(store, o, m).value;
    forall x, p, q | IsPath(store, k, true, p, x) && IsPath(store, k, true, q, x) ensures p == q {
      Prepend(store, o, siblings, m, p, x);
      Prepend(store, o, siblings, m, q, x);
      assert ([m] + p)[1..] == p && ([m] + q)[1..] == q;
    }
  }

  /** Two paths that both set out in direction m are one, if paths from there are. */
  lemma SameTail(store: Store, o: Offset, m: Move, p: seq<Move>, q: seq<Move>, x: Offset)
    requires Wellformed(store) && o in store && p != [] && q != [] && p[0] == q[0] == m
    requires Follow(store, o, p) == Follow(store, o, q) == Some(x)
    requires Link(store, o, m).Some? ==> OnePath(store, Link(store, o, m).value, true)
    ensures p == q
  {
    var k := Link(store, o, m).value;
    assert IsPath(store, k, true, p[1..], x) && IsPath(store, k, true, q[1..], x);
    assert p == [m] + p[1..] && q == [m] + q[1..];
  }

  /** One path to each entry of a tree: one path to each entry of its forest of children. */
  lemma OnePathDown(store: Store, o: Offset)
    requires Wellformed(store) && o in store
    ensures OnePath(store, o, false) <==> (store[o].child.Some? ==> OnePath(store, store[o].child.value, true))
  {
    if store[o].child.Some? ==> OnePath(store, store[o].child.value, true) {
      forall x, p, q | IsPath(store, o, false, p, x) && IsPath(store, o, false, q, x) ensures p == q {
        if p != [] { PathsLeadOn(store, o, p); }
        if q != [] { PathsLeadOn(store, o, q); }
        if p != [] && q != [] { SameTail(store, o, Down, p, q, x); }
      }
    }
    if OnePath(store, o, false) && store[o].child.Some? {
      OnePathOn(store, o, false, Down);
    }
  }

  /** Nothing is reached both in the tree of o and from its sibling. */
  ghost predicate Apart(store: Store, o: Offset)
    requires Wellformed(store) && o in store && store[o].sibling.Some?
  {
    forall x :: !(Reached(store, o, false, x) && Reached(store, store[o].sibling.value, true, x))
  }

  lemma OnePathApart(store: Store, o: Offset)
    requires Wellformed(store) && o in store && store[o].sibling.Some? && OnePath(store, o, true)
    ensures Apart(store, o)
  {
    var s := store[o].sibling.value;
    forall p, q, x | IsPath(store, o, false, p, x) && IsPath(store, s, true, q, x) ensures p == [Right] + q {
      Prepend(store, o, true, Right, q, x);
      assert IsPath(store, o, true, p, x);
    }
  }

  /** One path to each entry of a forest: one to each entry of its first tree, one to each of the
      rest, and nothing in both. */
  lemma OnePathRight(store: Store, o: Offset)
    requires Wellformed(store) && o in store
    ensures OnePath(store, o, true)
       <==> && OnePath(store, o, false)
            && (store[o].sibling.Some? ==> OnePath(store, store[o].sibling.value, true) && Apart(store, o))
  {
    if OnePath(store, o, true) {
      forall x, p | IsPath(store, o, false, p, x) ensures IsPath(store, o, true, p, x) {
      }
      if store[o].sibling.Some? {
        OnePathOn(store, o, true, Right);
        OnePathApart(store, o);
      }
    }
    if OnePath(store, o, false)
      && (store[o].sibling.Some? ==> OnePath(store, store[o].sibling.value, true) && Apart(store, o)) {
      forall x, p, q | IsPath(store, o, true, p, x) && IsPath(store, o, true, q, x) ensures p == q {
        var rightP, rightQ := p != [] && p[0] == Right, q != [] && q[0] == Right;
        assert rightP ==> IsPath(store, store[o].sibling.value, true, p[1..], x);
        assert rightQ ==> IsPath(store, store[o].sibling.value, true, q[1..], x);
        assert !rightP ==> IsPath(store, o, false, p, x);
        assert !rightQ ==> IsPath(store, o, false, q, x);
        if rightP && rightQ {
          SameTail(store, o, Right, p, q, x);
        } else if rightP || rightQ {
          assert Reached(store, o, false, x) && Reached(store, store[o].sibling.value, true, x);
        }
      }
    }
  }

  // ---------------------------------------------------------------- each once

  ghost predicate Distinct(calls: seq<(Offset, nat)>) {
    forall i, j :: 0 <= i < j < |calls| ==> calls[i].0 != calls[j].0
  }

  ghost predicate Visits(calls: seq<(Offset, nat)>, x: Offset) {
    exists i :: 0 <= i < |calls| && calls[i].0 == x
  }

  lemma DistinctConcat(a: seq<(Offset, nat)>, b: seq<(Offset, nat)>)
    ensures Distinct(a + b) <==> Distinct(a) && Distinct(b) && forall x: Offset :: !(Visits(a, x) && Visits(b, x))
  {
    var c := a + b;
    assert forall i :: 0 <= i < |a| ==> c[i] == a[i];
    assert forall i :: 0 <= i < |b| ==> c[|a| + i] == b[i];
    if Distinct(c) {
      forall i, j | 0 <= i < |a| && 0 <= j < |b| ensures a[i].0 != b[j].0 {
        assert c[i].0 != c[|a| + j].0;
      }
      forall i, j | 0 <= i < j < |b| ensures b[i].0 != b[j].0 {
        assert c[|a| + i].0 != c[|a| + j].0;
      }
    }
    if Distinct(a) && Distinct(b) && forall x: Offset :: !(Visits(a, x) && Visits(b, x)) {
      forall i, j | 0 <= i < j < |c| ensures c[i].0 != c[j].0 {
        if i < |a| <= j {
          assert Visits(a, c[i].0) && b[j - |a|] == c[j];
        } else if |a| <= i {
          assert c[i] == b[i - |a|] && c[j] == b[j - |a|];
        }
      }
    }
  }

  lemma ForestVisits(store: Store, o: Offset, level: nat, x: Offset)
    requires Wellformed(store) && o in store
    ensures Visits(Calls(PreorderAll(Forest(store, Some(o)), level, None)), x) <==> Reached(store, o, true, x)
  {
    var calls := Calls(PreorderAll(Forest(store, Some(o)), level, None));
    if i :| 0 <= i < |calls| && calls[i].0 == x {
      assert Called(calls, x, calls[i].1);
      ForestReaches(store, o, level, x, calls[i].1);
    }
    if p :| IsPath(store, o, true, p, x) {
      ForestReaches(store, o, level, x, level + Downs(p));
    }
  }

  lemma TreeVisits(store: Store, o: Offset, level: nat, x: Offset)
    requires Wellformed(store) && o in store
    ensures Visits(Calls(Preorder(TreeAt(store, o), level, None)), x) <==> Reached(store, o, false, x)
  {
    var calls := Calls(Preorder(TreeAt(store, o), level, None));
    if i :| 0 <= i < |calls| && calls[i].0 == x {
      assert Called(calls, x, calls[i].1);
      TreeReaches(store, o, level, x, calls[i].1);
    }
    if p :| IsPath(store, o, false, p, x) {
      TreeReaches(store, o, level, x, level + Downs(p));
    }
  }

  /** The walk repeats no entry exactly when there is only one path to each. */
  lemma {:induction false} ForestDistinct(store: Store, o: Offset, level: nat)
    requires Wellformed(store) && o in store
    ensures Distinct(Calls(PreorderAll(Forest(store, Some(o)), level, None))) <==> OnePath(store, o, true)
    decreases From(store, o), 1
  {
    hide Visits, OnePath, Reached, Distinct, Calls, Preorder, PreorderAll, Forest;
    var head := Calls(Preorder(TreeAt(store, o), level, None));
    var rest := Calls(PreorderAll(Forest(store, store[o].sibling), level, None));
    UnfoldForest(store, o, level, None);
    TreeDistinct(store, o, level);
    DistinctConcat(head, rest);
    Later(store, o);
    OnePathRight(store, o);
    if store[o].sibling.Some? {
      ForestDistinct(store, store[o].sibling.value, level);
      forall x: Offset
        ensures Visits(head, x) <==> Reached(store, o, false, x)
        ensures Visits(rest, x) <==> Reached(store, store[o].sibling.value, true, x)
      {
        TreeVisits(store, o, level, x);
        ForestVisits(store, store[o].sibling.value, level, x);
      }
    } else {
      NoVisits(store, level);
    }
  }

  lemma NoVisits(store: Store, level: nat)
    requires Wellformed(store)
    ensures var none := Calls(PreorderAll(Forest(store, None), level, None));
      Distinct(none) && forall x: Offset :: !Visits(none, x)
  {
  }

  lemma {:induction false} TreeDistinct(store: Store, o: Offset, level: nat)
    requires Wellformed(store) && o in store
    ensures Distinct(Calls(Preorder(TreeAt(store, o), level, None))) <==> OnePath(store, o, false)
    decreases From(store, o), 0
  {
    hide OnePath;
    var kids := Forest(store, store[o].child);
    var below := Calls(PreorderAll(kids, level + 1, Some(o)));
    CallsConcat([Visit(o, level, None)], PreorderAll(kids, level + 1, Some(o)));
    assert Calls([Visit(o, level, None)]) == [(o, level)];
    assert Calls(Preorder(TreeAt(store, o), level, None)) == [(o, level)] + below;
    DistinctConcat([(o, level)], below);
    Later(store, o);
    OnePathDown(store, o);
    IgnoreParents(kids, level + 1, Some(o), None);
    if store[o].child.Some? {
      var k := store[o].child.value;
      ForestDistinct(store, k, level + 1);
      ForestVisits(store, k, level + 1, o);
      NotAbove(store, k, o);
    } else {
      NoVisits(store, level + 1);
    }
  }

  lemma NotAbove(store: Store, k: Offset, o: Offset)
    requires Wellformed(store) && k in store && o < k
    ensures !Reached(store, k, true, o)
  {
    if p :| IsPath(store, k, true, p, o) {
      if p != [] { PathsLeadOn(store, k, p); }
    }
  }

  // ---------------------------------------------------------------- no entry is linked to twice

  /** The walk from root follows the link of a in direction m: not the sibling link of the root. */
  ghost predicate Followed(store: Store, root: Offset, a: Offset, m: Move)
    requires root in store
  {
    a in store && if a == root then m.Down? else Reached(store, root, false, a)
  }

  /** No entry is the target of two of the links the walk follows. */
  ghost predicate LinkedOnce(store: Store, root: Offset)
    requires root in store
  {
    forall a, m, b, n ::
      Followed(store, root, a, m) && Followed(store, root, b, n) && Link(store, a, m).Some?
        && Link(store, a, m) == Link(store, b, n)
      ==> a == b && m == n
  }

  /** A path one step longer. */
  lemma {:induction false} FollowAppend(store: Store, o: Offset, path: seq<Move>, m: Move)
    requires Wellformed(store) && o in store
    ensures Follow(store, o, path).Some? ==> Follow(store, o, path).value in store
    ensures Follow(store, o, path + [m])
         == if Follow(store, o, path).Some? then Link(store, Follow(store, o, path).value, m) else None
    decreases |path|
  {
    if path == [] {
      assert (path + [m])[1..] == [] && path + [m] == [m];
    } else {
      assert (path + [m])[1..] == path[1..] + [m] && (path + [m])[0] == path[0];
      if Link(store, o, path[0]).Some? {
        FollowAppend(store, Link(store, o, path[0]).value, path[1..], m);
      }
    }
  }

  lemma {:induction false} SamePath(store: Store, root: Offset, p: seq<Move>, q: seq<Move>, x: Offset)
    requires Wellformed(store) && root in store && LinkedOnce(store, root)
    requires IsPath(store, root, false, p, x) && IsPath(store, root, false, q, x)
    ensures p == q
    decreases |p|
  {
    if p != [] { PathsLeadOn(store, root, p); }
    if q != [] { PathsLeadOn(store, root, q); }
    if p != [] && q != [] {
      var p', q' := p[..|p| - 1], q[..|q| - 1];
      var m, n := p[|p| - 1], q[|q| - 1];
      assert p == p' + [m] && q == q' + [n];
      FollowAppend(store, root, p', m);
      FollowAppend(store, root, q', n);
      var a, b := Follow(store, root, p').value, Follow(store, root, q').value;
      LastFollowed(store, root, p', m, a);
      LastFollowed(store, root, q', n, b);
      SamePath(store, root, p', q', a);
    }
  }

  lemma LastFollowed(store: Store, root: Offset, path: seq<Move>, m: Move, a: Offset)
    requires Wellformed(store) && root in store && Follow(store, root, path) == Some(a) && a in store
    requires (path + [m])[0].Down?
    ensures IsPath(store, root, false, path, a) && Followed(store, root, a, m)
  {
    assert path != [] ==> (path + [m])[0] == path[0];
    assert IsPath(store, root, false, path, a);
    if path != [] {
      PathsLeadOn(store, root, path);
    }
  }

  /** A followed link ends a path. */
  lemma PathThrough(store: Store, root: Offset, a: Offset, m: Move) returns (path: seq<Move>)
    requires Wellformed(store) && root in store && Followed(store, root, a, m) && Link(store, a, m).Some?
    ensures path != [] && path[|path| - 1] == m && Follow(store, root, path[..|path| - 1]) == Some(a)
    ensures IsPath(store, root, false, path, Link(store, a, m).value)
  {
    var front: seq<Move> := [];
    if a != root {
      front :| IsPath(store, root, false, front, a);
    }
    path := front + [m];
    assert path[..|path| - 1] == front;
    FollowAppend(store, root, front, m);
  }

  lemma OnePathIsLinkedOnce(store: Store, root: Offset)
    requires Wellformed(store) && root in store
    ensures OnePath(store, root, false) <==> LinkedOnce(store, root)
  {
    if LinkedOnce(store, root) {
      forall x, p, q | IsPath(store, root, false, p, x) && IsPath(store, root, false, q, x) ensures p == q {
        SamePath(store, root, p, q, x);
      }
    }
    if OnePath(store, root, false) {
      forall a, m, b, n | Followed(store, root, a, m) && Followed(store, root, b, n) && Link(store, a, m).Some?
          && Link(store, a, m) == Link(store, b, n)
        ensures a == b && m == n
      {
        var p := PathThrough(store, root, a, m);
        var q := PathThrough(store, root, b, n);
        assert p == q;
      }
    }
  }

  /** The walk from a root calls the action for exactly the entries reachable from it, with their
      depth as the level, and for each of them once exactly when none is linked to twice. */
  lemma TraversalAgreement(store: Store, root: Offset)
    requires Wellformed(store) && root in store
    ensures var calls := Calls(Preorder(TreeAt(store, root), 0, None));
      && (forall x: Offset, d: nat :: Called(calls, x, d) <==> Reaches(store, root, false, x, d))
      && (Distinct(calls) <==> LinkedOnce(store, root))
  {
    forall x: Offset, d: nat
      ensures Called(Calls(Preorder(TreeAt(store, root), 0, None)), x, d) <==> Reaches(store, root, false, x, d)
    {
      TreeReaches(store, root, 0, x, d);
    }
    TreeDistinct(store, root, 0);
    OnePathIsLinkedOnce(store, root);
  }

  /** A tree as a producer writes it: every entry is the target of at most one link. */
  ghost predicate TreeLinks(store: Store) {
    forall a, m, b, n ::
      a in store && b in store && Link(store, a, m).Some? && Link(store, a, m) == Link(store, b, n)
      ==> a == b && m == n
  }

  /** In such a tree every walk calls the action once for each entry. */
  lemma EachOnce(store: Store, root: Offset)
    requires Wellformed(store) && root in store && TreeLinks(store)
    ensures Distinct(Calls(Preorder(TreeAt(store, root), 0, None)))
  {
    TraversalAgreement(store, root);
  }
}
