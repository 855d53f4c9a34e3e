/** The lookup at the end of a range: the code counts it as inside, the standard does not. */
module ScopeEnds {
  import opened DieStore
  import opened DieTraversal
  import opened DieOnce
  import opened ScopeLookup
  import opened ScopeInnermost
  import opened Options

  /** A visit the lookup could return: a visible declaration with a matching name. */
  predicate Hit(store: Store, v: Visit, q: Search) {
    Visible(store, v, q.at) && Matches(store, v.off, q)
  }

  function LastHit(store: Store, vs: seq<Visit>, q: Search): Option<Offset> {
    if vs == [] then None
    else if Hit(store, vs[|vs| - 1], q) then Some(vs[|vs| - 1].off)
    else LastHit(store, vs[..|vs| - 1], q)
  }

  lemma {:induction false} LastMatchIsLastHit(store: Store, vs: seq<Visit>, q: Search)
    ensures AllListed(store, VisibleOnly(store, vs, q.at))
    ensures LastMatch(store, VisibleOnly(store, vs, q.at), q, None) == LastHit(store, vs, q)
    decreases |vs|
  {
    if vs != [] {
      var front, v := vs[..|vs| - 1], vs[|vs| - 1];
      LastMatchIsLastHit(store, front, q);
      assert vs == front + [v] && [v][1..] == [];
      VisibleConcat(store, front, [v], q.at);
      var listed := VisibleOnly(store, front, q.at);
      if Visible(store, v, q.at) {
        assert VisibleOnly(store, vs, q.at) == listed + [v.off];
        assert (listed + [v.off])[..|listed|] == listed;
      } else {
        assert VisibleOnly(store, vs, q.at) == listed;
      }
    }
  }

  lemma {:induction false} WellRangedLeaves(store: Store, t: Tree)
    requires Backed(store, t) && WellRanged(store, t)
    ensures LeafDeclarations(store, t)
  {
    forall k | k in t.kids ensures LeafDeclarations(store, k) {
      WellRangedLeaves(store, k);
    }
  }

  /** The answer is the last hit of the preorder walk. */
  lemma LookupIsLastHit(store: Store, t: Tree, q: Search)
    requires Backed(store, t) && LeafDeclarations(store, t)
    ensures Lookup(store, t, false, q, None) == LastHit(store, Preorder(t, 0, None), q)
  {
    LookupIsLastListed(store, t, false, q, None);
    ListingFiltersPreorder(store, t, 0, None, q.at);
    LastMatchIsLastHit(store, Preorder(t, 0, None), q);
  }

  /** The search as the code runs it, and as the standard defines ranges. */
  function Written(addr: nat, matches: string -> bool): Search {
    Search(Place(addr, true), matches)
  }

  function HalfOpen(addr: nat, matches: string -> bool): Search {
    Search(Place(addr, false), matches)
  }

  /** A matching declaration directly inside a scope that ends at the address. */
  predicate Ended(store: Store, v: Visit, addr: nat, matches: string -> bool) {
    && v.off in store && IsDeclaration(store[v.off]) && matches(store[v.off].name)
    && v.parent.Some? && v.parent.value in store && EndsAt(store[v.parent.value], addr)
  }

  /** Every such declaration is followed in the walk by a matching declaration directly inside a
      scope that really contains the address. */
  ghost predicate EndedOverruled(store: Store, vs: seq<Visit>, addr: nat, matches: string -> bool) {
    forall i :: 0 <= i < |vs| && Ended(store, vs[i], addr, matches) ==>
      exists j :: i < j < |vs| && Hit(store, vs[j], HalfOpen(addr, matches))
  }

  lemma {:induction false} LastHitsAgree(store: Store, vs: seq<Visit>, addr: nat, matches: string -> bool)
    requires forall i, j :: 0 <= i < j < |vs| ==> vs[i].off != vs[j].off
    ensures LastHit(store, vs, Written(addr, matches)) == LastHit(store, vs, HalfOpen(addr, matches))
       <==> EndedOverruled(store, vs, addr, matches)
    decreases |vs|
  {
    if vs != [] {
      var n := |vs| - 1;
      var front := vs[..n];
      var w, h := Written(addr, matches), HalfOpen(addr, matches);
      if Hit(store, vs[n], h) {
        assert Hit(store, vs[n], w);
      } else if Hit(store, vs[n], w) {
        assert Ended(store, vs[n], addr, matches);
        LastHitIn(store, front, h);
      } else {
        LastHitsAgree(store, front, addr, matches);
        assert forall i :: 0 <= i < n ==> front[i] == vs[i];
        if EndedOverruled(store, vs, addr, matches) {
          forall i | 0 <= i < n && Ended(store, front[i], addr, matches)
            ensures exists j :: i < j < n && Hit(store, front[j], h)
          {
            var j :| i < j < |vs| && Hit(store, vs[j], h);
            assert Hit(store, front[j], h);
          }
        }
      }
    }
  }

  lemma {:induction false} LastHitIn(store: Store, vs: seq<Visit>, q: Search)
    ensures var r := LastHit(store, vs, q); r.Some? ==> exists i :: 0 <= i < |vs| && vs[i].off == r.value
    decreases |vs|
  {
    if vs != [] && !Hit(store, vs[|vs| - 1], q) {
      LastHitIn(store, vs[..|vs| - 1], q);
      assert forall i :: 0 <= i < |vs| - 1 ==> vs[..|vs| - 1][i] == vs[i];
    }
  }

  /** The lookup as written and the lookup with half-open ranges give the same answer exactly when
      no declaration of a scope that has just ended gets the last word. */
  lemma EndsAgree(store: Store, root: Offset, addr: nat, matches: string -> bool)
    requires Wellformed(store) && root in store && LinkedOnce(store, root)
    requires Backed(store, TreeAt(store, root)) && LeafDeclarations(store, TreeAt(store, root))
    ensures var t := TreeAt(store, root);
      Lookup(store, t, false, Written(addr, matches), None) == Lookup(store, t, false, HalfOpen(addr, matches), None)
      <==> EndedOverruled(store, Preorder(t, 0, None), addr, matches)
  {
    var t := TreeAt(store, root);
    var vs := Preorder(t, 0, None);
    LookupIsLastHit(store, t, Written(addr, matches));
    LookupIsLastHit(store, t, HalfOpen(addr, matches));
    TraversalAgreement(store, root);
    assert forall i :: 0 <= i < |vs| ==> Calls(vs)[i].0 == vs[i].off;
    LastHitsAgree(store, vs, addr, matches);
  }

  /** So with disjoint ranges, in that case and at any address, the answer as written is declared by
      the innermost scope in the standard's sense. */
  lemma InnermostAtEnds(store: Store, root: Offset, addr: nat, matches: string -> bool)
    requires Wellformed(store) && root in store && LinkedOnce(store, root)
    requires Backed(store, TreeAt(store, root)) && WellRanged(store, TreeAt(store, root))
    requires Answerable(store, TreeAt(store, root), HalfOpen(addr, matches))
    requires EndedOverruled(store, Preorder(TreeAt(store, root), 0, None), addr, matches)
    ensures var r := Lookup(store, TreeAt(store, root), false, Written(addr, matches), None);
      r.Some? && Innermost(store, TreeAt(store, root), HalfOpen(addr, matches), r.value)
  {
    WellRangedLeaves(store, TreeAt(store, root));
    EndsAgree(store, root, addr, matches);
    InnermostOffEnds(store, TreeAt(store, root), false, HalfOpen(addr, matches), None);
  }

  /** At an address that is not the end of a range the two lookups are the same. */
  lemma {:induction false} AgreeOffEnds(
    store: Store, t: Tree, enclosing: bool, addr: nat, matches: string -> bool, found: Option<Offset>)
    requires Backed(store, t) && NoneEnds(store, t, addr)
    ensures Lookup(store, t, enclosing, Written(addr, matches), found)
         == Lookup(store, t, enclosing, HalfOpen(addr, matches), found)
    decreases t, 1
  {
    assert Within(t, t);
    EndOfRange(store[t.off], addr);
    AllAgreeOffEnds(store, t, t.kids, Encloses(store[t.off], Place(addr, true)), addr, matches, found);
  }

  lemma {:induction false} AllAgreeOffEnds(
    store: Store, t: Tree, ts: seq<Tree>, enclosing: bool, addr: nat, matches: string -> bool, found: Option<Offset>)
    requires NoneEnds(store, t, addr) && forall k :: k in ts ==> Backed(store, k) && k in t.kids
    ensures LookupAll(store, ts, enclosing, Written(addr, matches), found)
         == LookupAll(store, ts, enclosing, HalfOpen(addr, matches), found)
    decreases t, 0, |ts|
  {
    if ts != [] {
      assert ts[0] in t.kids;
      forall s | Within(s, ts[0]) ensures Within(s, t) { WithinKid(s, ts[0], t); }
      AgreeOffEnds(store, ts[0], enclosing, addr, matches, found);
      var got := Lookup(store, ts[0], enclosing, Written(addr, matches), found);
      AllAgreeOffEnds(store, t, ts[1..], enclosing, addr, matches, got);
    }
  }

  /** A unit with the block [0, 10), which declares "v", and the block [10, 20) after it. */
  function AdjacentBlocks(): Store {
    map[
      0 := Die(OtherTag, "unit", 0, None, None, 0, Some(1), None),
      1 := Die(LexicalBlock, "", 0, Some(PcRange(0, 10)), None, 1, Some(2), Some(3)),
      2 := Die(Variable, "v", 0, None, None, 2, None, None),
      3 := Die(LexicalBlock, "", 0, Some(PcRange(10, 20)), None, 3, None, None)]
  }

  lemma AdjacentLinks()
    ensures Wellformed(AdjacentBlocks())
  {
  }

  lemma LastOfChain(store: Store, o: Offset)
    requires Wellformed(store) && o in store && store[o].child.None? && store[o].sibling.None?
    ensures Forest(store, Some(o)) == [Node(o, [])]
  {
  }

  lemma AdjacentTree()
    ensures Wellformed(AdjacentBlocks()) && Backed(AdjacentBlocks(), TreeAt(AdjacentBlocks(), 0))
    ensures TreeAt(AdjacentBlocks(), 0) == Node(0, [Node(1, [Node(2, [])]), Node(3, [])])
  {
    hide Forest, Wellformed, Backed;
    var store := AdjacentBlocks();
    AdjacentLinks();
    LastOfChain(store, 2);
    LastOfChain(store, 3);
    UnfoldKids(store, 1);
    TreeBacked(store, 0);
  }

  /** At the common boundary of two adjacent blocks the lookup as written answers from the block
      that has ended, although the block really around the address declares nothing. */
  lemma BoundaryAnswersFromEndedScope(matches: string -> bool)
    requires matches("v")
    ensures var store := AdjacentBlocks(); var t := TreeAt(store, 0);
      && EndsAt(store[1], 10) && Encloses(store[3], Place(10, false)) && store[3].child == None
      && Backed(store, t)
      && Lookup(store, t, false, Written(10, matches), None) == Some(2)
      && Lookup(store, t, false, HalfOpen(10, matches), None) == None
  {
    var store := AdjacentBlocks();
    AdjacentTree();
    hide Forest;
    var w, h := Written(10, matches), HalfOpen(10, matches);
    var t2, t3 := Node(2, []), Node(3, []);
    var t1 := Node(1, [t2]);
    assert t1 in [t1, t3] && t3 in [t1, t3] && t2 in t1.kids;
    assert [t2][1..] == [] && [t1, t3][1..] == [t3] && [t3][1..] == [];
    assert Lookup(store, t1, false, w, None) == LookupAll(store, [t2], true, w, None) == Some(2);
    assert LookupAll(store, [t3], false, w, Some(2)) == Some(2);
    assert Lookup(store, t2, false, h, None) == LookupAll(store, t2.kids, false, h, None) == None;
    assert Lookup(store, t1, false, h, None) == LookupAll(store, [t2], false, h, None) == None;
    assert Lookup(store, t3, false, h, None) == LookupAll(store, t3.kids, true, h, None) == None;
    assert LookupAll(store, [t3], false, h, None) == None;
  }
}
