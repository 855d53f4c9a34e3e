/** The listing and the lookup of a unit, said of the entries' tags and numbers. */
module ScopeReference {
  import opened DieStore
  import opened DieTraversal
  import opened DieOnce
  import opened ScopeLookup
  import opened ScopeEnds
  import opened Options

  /** A variable or parameter visited directly below a lexical block or subprogram whose stored
      range contains the address, with or without its end. */
  predicate Shown(store: Store, v: Visit, addr: nat, closed: bool) {
    && v.off in store && store[v.off].tag in {Variable, FormalParameter}
    && v.parent.Some? && v.parent.value in store
    && var p := store[v.parent.value];
       && p.tag in {LexicalBlock, Subprogram} && p.pc.Some?
       && p.pc.value.lo <= addr && if closed then addr <= p.pc.value.hi else addr < p.pc.value.hi
  }

  /** listed is what is shown of a walk: the offsets at some positions, in order, and at no others. */
  ghost predicate ShownAt(
    store: Store, vs: seq<Visit>, at: Place, listed: seq<Offset>, pos: seq<nat>)
  {
    && |pos| == |listed|
    && (forall k :: 0 <= k < |pos| ==> pos[k] < |vs| && listed[k] == vs[pos[k]].off)
    && (forall j, k :: 0 <= j < k < |pos| ==> pos[j] < pos[k])
    && (forall i: nat :: i < |vs| ==> (i in pos <==> Shown(store, vs[i], at.addr, at.closed)))
  }

  lemma VisibleIsShown(store: Store, v: Visit, at: Place)
    ensures Visible(store, v, at) <==> Shown(store, v, at.addr, at.closed)
  {
  }

  /** One more visit. */
  lemma ShownMore(store: Store, front: seq<Visit>, v: Visit, at: Place, listed: seq<Offset>, pos: seq<nat>)
    requires ShownAt(store, front, at, listed, pos)
    ensures Shown(store, v, at.addr, at.closed) ==>
      ShownAt(store, front + [v], at, listed + [v.off], pos + [|front|])
    ensures !Shown(store, v, at.addr, at.closed) ==> ShownAt(store, front + [v], at, listed, pos)
  {
    hide Shown;
    var n := |front|;
    assert forall i :: 0 <= i < n ==> (front + [v])[i] == front[i];
    assert n !in pos;
    forall i: nat | i < n ensures i in pos + [n] <==> i in pos {
    }
  }

  lemma VisibleMore(store: Store, front: seq<Visit>, v: Visit, at: Place)
    ensures VisibleOnly(store, front + [v], at)
         == VisibleOnly(store, front, at) + if Visible(store, v, at) then [v.off] else []
  {
    VisibleConcat(store, front, [v], at);
    assert [v][1..] == [];
  }

  lemma NothingShown(store: Store, at: Place)
    ensures ShownAt(store, [], at, VisibleOnly(store, [], at), [])
  {
  }

  lemma {:induction false} VisiblePositions(store: Store, vs: seq<Visit>, at: Place) returns (pos: seq<nat>)
    ensures ShownAt(store, vs, at, VisibleOnly(store, vs, at), pos)
    decreases |vs|
  {
    hide ShownAt, Shown, Visible, VisibleOnly;
    if vs == [] {
      pos := [];
      NothingShown(store, at);
    } else {
      var front, v := vs[..|vs| - 1], vs[|vs| - 1];
      assert vs == front + [v];
      pos := VisiblePositions(store, front, at);
      VisibleMore(store, front, v, at);
      VisibleIsShown(store, v, at);
      var listed := VisibleOnly(store, front, at);
      ShownMore(store, front, v, at, listed, pos);
      if Visible(store, v, at) {
        pos := pos + [|front|];
      } else {
        assert listed + [] == listed;
      }
    }
  }

  /** The declarations listed for an address are exactly those shown, in the order of the walk. */
  lemma ListingReference(store: Store, t: Tree, at: Place) returns (pos: seq<nat>)
    requires Backed(store, t)
    ensures ShownAt(store, Preorder(t, 0, None), at, Listing(store, t, false, at), pos)
  {
    ListingFiltersPreorder(store, t, 0, None, at);
    pos := VisiblePositions(store, Preorder(t, 0, None), at);
  }

  /** Visit i is shown and its name matches. */
  predicate ShownMatch(store: Store, vs: seq<Visit>, i: nat, q: Search)
    requires i < |vs|
  {
    Shown(store, vs[i], q.at.addr, q.at.closed) && q.matches(store[vs[i].off].name)
  }

  /** r is the last shown match of the walk, or nothing when there is none. */
  ghost predicate LastShown(store: Store, vs: seq<Visit>, q: Search, r: Option<Offset>) {
    if r.None? then forall i: nat :: i < |vs| ==> !ShownMatch(store, vs, i, q)
    else
      exists i: nat :: i < |vs| && ShownMatch(store, vs, i, q) && vs[i].off == r.value
        && forall j: nat :: i < j < |vs| ==> !ShownMatch(store, vs, j, q)
  }

  lemma {:induction false} LastHitIsLastShown(store: Store, vs: seq<Visit>, q: Search)
    ensures LastShown(store, vs, q, LastHit(store, vs, q))
    decreases |vs|
  {
    if vs != [] {
      var n: nat := |vs| - 1;
      var front := vs[..n];
      assert Hit(store, vs[n], q) <==> ShownMatch(store, vs, n, q);
      LastHitIsLastShown(store, front, q);
      assert forall i: nat :: i < n ==> (ShownMatch(store, front, i, q) <==> ShownMatch(store, vs, i, q));
      var r := LastHit(store, front, q);
      if !Hit(store, vs[n], q) && r.Some? {
        var i: nat :| i < n && ShownMatch(store, front, i, q) && front[i].off == r.value
          && forall j: nat :: i < j < n ==> !ShownMatch(store, front, j, q);
        assert ShownMatch(store, vs, i, q);
      }
    }
  }

  /** show_vars_by_scope_addr, once the unit is found. */
  method ShowVariables(store: Store, cu: Offset, addr: nat) returns (listed: seq<Offset>)
    requires Wellformed(store) && cu in store
    ensures exists pos :: ShownAt(store, Preorder(TreeAt(store, cu), 0, None), Place(addr, true), listed, pos)
  {
    listed := ListVariables(store, cu, false, Place(addr, true));
    ghost var pos := ListingReference(store, TreeAt(store, cu), Place(addr, true));
  }

  /** DC_show_info_for_scoped_variable: with leaf declarations, the last shown declaration whose
      name is a prefix of the query. */
  method FindScoped(store: Store, cu: Offset, addr: nat, query: string) returns (r: Option<Offset>)
    requires Wellformed(store) && cu in store
    requires Backed(store, TreeAt(store, cu)) && LeafDeclarations(store, TreeAt(store, cu))
    ensures LastShown(store, Preorder(TreeAt(store, cu), 0, None),
                      Search(Place(addr, true), (name: string) => name <= query), r)
  {
    r := FindVariable(store, cu, false, AsWritten(addr, query), None);
    LookupIsLastHit(store, TreeAt(store, cu), AsWritten(addr, query));
    LastHitIsLastShown(store, Preorder(TreeAt(store, cu), 0, None), AsWritten(addr, query));
  }

  // ---------------------------------------------------------------- parents

  function Rights(n: nat): seq<Move> {
    if n == 0 then [] else [Right] + Rights(n - 1)
  }

  /** x is the child of p or a later sibling of it. */
  ghost predicate ChildOf(store: Store, p: Offset, x: Offset)
    requires Wellformed(store) && p in store
  {
    store[p].child.Some? && exists n: nat :: Follow(store, store[p].child.value, Rights(n)) == Some(x)
  }

  lemma {:induction false} ChainRights(store: Store, o: Offset, i: nat)
    requires Wellformed(store) && o in store && i < |Forest(store, Some(o))|
    ensures Follow(store, o, Rights(i)) == Some(Forest(store, Some(o))[i].off)
    ensures Forest(store, Some(o))[i].off in store
    ensures Forest(store, Some(o))[i] == TreeAt(store, Forest(store, Some(o))[i].off)
    decreases i
  {
    UnfoldKids(store, o);
    if i > 0 {
      assert Rights(i)[1..] == Rights(i - 1);
      ChainRights(store, store[o].sibling.value, i - 1);
    }
  }

  /** The parent of every visit but the root's is the entry it is a child of. */
  lemma {:induction false} ParentIsParent(store: Store, o: Offset, level: nat, parent: Option<Offset>, v: Visit)
    requires Wellformed(store) && o in store && v in Preorder(TreeAt(store, o), level, parent)
    ensures v == Visit(o, level, parent)
         || (v.parent.Some? && v.parent.value in store && ChildOf(store, v.parent.value, v.off))
    decreases From(store, o)
  {
    if v != Visit(o, level, parent) {
      var kids := Forest(store, store[o].child);
      assert v in PreorderAll(kids, level + 1, Some(o));
      var i := InSome(kids, level + 1, Some(o), v);
      Later(store, o);
      var c := store[o].child.value;
      ChainRights(store, c, i);
      ChainLater(store, c, i);
      ParentIsParent(store, kids[i].off, level + 1, Some(o), v);
      if v == Visit(kids[i].off, level + 1, Some(o)) {
        assert ChildOf(store, o, v.off);
      }
    }
  }

  lemma {:induction false} ChainLater(store: Store, o: Offset, i: nat)
    requires Wellformed(store) && o in store && i < |Forest(store, Some(o))|
    ensures Forest(store, Some(o))[i].off in store && From(store, Forest(store, Some(o))[i].off) <= From(store, o)
    decreases i
  {
    UnfoldKids(store, o);
    if i > 0 {
      ChainLater(store, store[o].sibling.value, i - 1);
    }
  }

  lemma {:induction false} InSome(ts: seq<Tree>, level: nat, parent: Option<Offset>, v: Visit) returns (i: nat)
    requires v in PreorderAll(ts, level, parent)
    ensures i < |ts| && v in Preorder(ts[i], level, parent)
    decreases |ts|
  {
    if v in Preorder(ts[0], level, parent) {
      i := 0;
    } else {
      i := InSome(ts[1..], level, parent, v);
      i := i + 1;
    }
  }

  // ---------------------------------------------------------------- a function and its parameter

  /** A function at [0, 10) with a parameter "x". */
  function OneFunction(): Store {
    map[
      0 := Die(Subprogram, "f", 0, Some(PcRange(0, 10)), None, 0, Some(1), None),
      1 := Die(FormalParameter, "x", 0, None, None, 1, None, None)]
  }

  /** The parameter is found at addresses 0 to 10, and at no other. */
  lemma ParameterFound(addr: nat)
    ensures Wellformed(OneFunction()) && Backed(OneFunction(), TreeAt(OneFunction(), 0))
    ensures Lookup(OneFunction(), TreeAt(OneFunction(), 0), false, AsWritten(addr, "x"), None)
         == if addr <= 10 then Some(1) else None
    ensures Listing(OneFunction(), TreeAt(OneFunction(), 0), false, Place(addr, true))
         == if addr <= 10 then [1] else []
  {
    var store := OneFunction();
    TreeBacked(store, 0);
    var x := Node(1, []);
    assert Forest(store, Some(1)) == [x] && [x][1..] == [];
    assert TreeAt(store, 0) == Node(0, [x]);
    var enc := addr <= 10;
    assert Encloses(store[0], Place(addr, true)) <==> enc;
    assert Lookup(store, x, enc, AsWritten(addr, "x"), None) == if enc then Some(1) else None;
    assert LookupAll(store, [x], enc, AsWritten(addr, "x"), None) == if enc then Some(1) else None;
    assert Listing(store, x, enc, Place(addr, true)) == if enc then [1] else [];
    assert ListingAll(store, [x], enc, Place(addr, true)) == if enc then [1] else [];
  }
}
