/** Finding a variable by name and address: DC_get_info_for_scoped_variable and the listing
    DC_show_vars_for_containing_pc_ranges. */
module ScopeLookup {
  import opened DieStore
  import opened DieTraversal
  import opened Options

  predicate IsDeclaration(d: Die) {
    d.tag.Variable? || d.tag.FormalParameter?
  }

  /** A lexical block or subprogram with a pc range. */
  predicate IsScope(d: Die) {
    (d.tag.LexicalBlock? || d.tag.Subprogram?) && d.pc.Some?
  }

  /** An address, and whether the end of a range counts as inside: the code's test says it does,
      section 2.17.2 of DWARF Version 4 says that high_pc is the first address past the range. */
  datatype Place = Place(addr: nat, closed: bool)

  predicate InRange(r: PcRange, at: Place) {
    r.lo <= at.addr && (at.addr < r.hi || (at.closed && at.addr == r.hi))
  }

  /** A scope around the place. */
  predicate Encloses(d: Die, at: Place) {
    IsScope(d) && InRange(d.pc.value, at)
  }

  /** A search: the place, and which names match the query. */
  datatype Search = Search(at: Place, matches: string -> bool)

  predicate Matches(store: Store, o: Offset, q: Search)
    requires o in store
  {
    q.matches(store[o].name)
  }

  /** The recursion on the tree; found is the content of *retDie. */
  ghost function Lookup(store: Store, t: Tree, enclosing: bool, q: Search, found: Option<Offset>): Option<Offset>
    requires Backed(store, t)
  {
    var d := store[t.off];
    if IsDeclaration(d) && enclosing && q.matches(d.name) then Some(t.off)
    else LookupAll(store, t.kids, Encloses(d, q.at), q, found)
  }

  ghost function LookupAll(store: Store, ts: seq<Tree>, enclosing: bool, q: Search, found: Option<Offset>)
    : Option<Offset>
    requires forall k :: k in ts ==> Backed(store, k)
  {
    if ts == [] then found
    else LookupAll(store, ts[1..], enclosing, q, Lookup(store, ts[0], enclosing, q, found))
  }

  /** The declarations listed for an address, in order. */
  ghost function Listing(store: Store, t: Tree, enclosing: bool, at: Place): seq<Offset>
    requires Backed(store, t)
  {
    (if IsDeclaration(store[t.off]) && enclosing then [t.off] else [])
      + ListingAll(store, t.kids, Encloses(store[t.off], at), at)
  }

  ghost function ListingAll(store: Store, ts: seq<Tree>, enclosing: bool, at: Place): seq<Offset>
    requires forall k :: k in ts ==> Backed(store, k)
  {
    if ts == [] then [] else Listing(store, ts[0], enclosing, at) + ListingAll(store, ts[1..], enclosing, at)
  }

  lemma UnfoldKids(store: Store, kid: Offset)
    requires Wellformed(store) && kid in store
    ensures Forest(store, Some(kid)) == [TreeAt(store, kid)] + Forest(store, store[kid].sibling)
    ensures forall k :: k in Forest(store, Some(kid)) ==> Backed(store, k)
    ensures forall k :: k in Forest(store, store[kid].sibling) ==> Backed(store, k)
    ensures Backed(store, TreeAt(store, kid))
  {
    ForestBacked(store, Some(kid));
    ForestBacked(store, store[kid].sibling);
    TreeBacked(store, kid);
  }

  method FindVariable(store: Store, die: Offset, enclosing: bool, q: Search, found: Option<Offset>)
    returns (ret: Option<Offset>)
    requires Wellformed(store) && die in store
    ensures Backed(store, TreeAt(store, die))
    ensures ret == Lookup(store, TreeAt(store, die), enclosing, q, found)
    decreases From(store, die)
  {
    TreeBacked(store, die);
    ret := found;
    var d := store[die];
    if IsDeclaration(d) && enclosing && q.matches(d.name) {
      return Some(die);
    }
    var enc := Encloses(d, q.at);
    if d.child.None? {
      return;
    }
    Later(store, die);
    var kid := d.child.value;
    UnfoldKids(store, kid);
    ret := FindVariable(store, kid, enc, q, ret);
    while store[kid].sibling.Some?
      invariant kid in store && From(store, kid) < From(store, die)
      invariant forall k :: k in Forest(store, store[kid].sibling) ==> Backed(store, k)
      invariant LookupAll(store, Forest(store, store[kid].sibling), enc, q, ret)
             == LookupAll(store, Forest(store, d.child), enc, q, found)
      decreases From(store, kid)
    {
      Later(store, kid);
      kid := store[kid].sibling.value;
      UnfoldKids(store, kid);
      ret := FindVariable(store, kid, enc, q, ret);
    }
  }

  lemma UnfoldListing(store: Store, kid: Offset, enclosing: bool, at: Place)
    requires Wellformed(store) && kid in store
    ensures Backed(store, TreeAt(store, kid))
    ensures forall k :: k in Forest(store, Some(kid)) ==> Backed(store, k)
    ensures forall k :: k in Forest(store, store[kid].sibling) ==> Backed(store, k)
    ensures ListingAll(store, Forest(store, Some(kid)), enclosing, at)
         == Listing(store, TreeAt(store, kid), enclosing, at)
            + ListingAll(store, Forest(store, store[kid].sibling), enclosing, at)
  {
    UnfoldKids(store, kid);
  }

  /** DC_show_vars_for_containing_pc_ranges, with the declarations shown as result. */
  method ListVariables(store: Store, die: Offset, enclosing: bool, at: Place) returns (listed: seq<Offset>)
    requires Wellformed(store) && die in store
    ensures Backed(store, TreeAt(store, die))
    ensures listed == Listing(store, TreeAt(store, die), enclosing, at)
    decreases From(store, die), 1
  {
    TreeBacked(store, die);
    var d := store[die];
    listed := if IsDeclaration(d) && enclosing then [die] else [];
    if d.child.None? {
      return;
    }
    Later(store, die);
    var below := ListSiblings(store, d.child.value, Encloses(d, at), at);
    listed := listed + below;
  }

  /** The child loop: the first child, then its siblings, with the cursor overwritten in place. */
  method ListSiblings(store: Store, first: Offset, enc: bool, at: Place) returns (listed: seq<Offset>)
    requires Wellformed(store) && first in store
    ensures forall k :: k in Forest(store, Some(first)) ==> Backed(store, k)
    ensures listed == ListingAll(store, Forest(store, Some(first)), enc, at)
    decreases From(store, first), 2
  {
    hide Listing, ListingAll, Forest, Backed;
    var kid := first;
    UnfoldListing(store, kid, enc, at);
    listed := ListVariables(store, kid, enc, at);
    while store[kid].sibling.Some?
      invariant kid in store && From(store, kid) <= From(store, first)
      invariant forall k :: k in Forest(store, store[kid].sibling) ==> Backed(store, k)
      invariant listed + ListingAll(store, Forest(store, store[kid].sibling), enc, at)
             == ListingAll(store, Forest(store, Some(first)), enc, at)
      decreases From(store, kid)
    {
      Later(store, kid);
      kid := store[kid].sibling.value;
      UnfoldListing(store, kid, enc, at);
      var sub := ListVariables(store, kid, enc, at);
      Reassociate(listed, sub, ListingAll(store, Forest(store, store[kid].sibling), enc, at));
      listed := listed + sub;
    }
    assert ListingAll(store, Forest(store, None), enc, at) == [] by { NoForest(store, enc, at); }
  }

  lemma NoForest(store: Store, enc: bool, at: Place)
    requires Wellformed(store)
    ensures Forest(store, None) == [] && ListingAll(store, Forest(store, None), enc, at) == []
  {
  }

  lemma Reassociate(a: seq<Offset>, b: seq<Offset>, c: seq<Offset>)
    ensures a + (b + c) == a + b + c
  {
  }

  // ---------------------------------------------------------------- the listing filters preorder

  /** A visited declaration whose parent is a scope around the address. */
  predicate Visible(store: Store, v: Visit, at: Place) {
    && v.off in store && IsDeclaration(store[v.off])
    && v.parent.Some? && v.parent.value in store && Encloses(store[v.parent.value], at)
  }

  function VisibleOnly(store: Store, vs: seq<Visit>, at: Place): seq<Offset> {
    if vs == [] then []
    else (if Visible(store, vs[0], at) then [vs[0].off] else []) + VisibleOnly(store, vs[1..], at)
  }

  lemma {:induction false} VisibleConcat(store: Store, us: seq<Visit>, vs: seq<Visit>, at: Place)
    ensures VisibleOnly(store, us + vs, at) == VisibleOnly(store, us, at) + VisibleOnly(store, vs, at)
  {
    if us == [] {
      assert us + vs == vs;
    } else {
      VisibleConcat(store, us[1..], vs, at);
      assert (us + vs)[1..] == us[1..] + vs;
    }
  }

  /** The listing is the preorder walk filtered by: a declaration directly inside a scope that
      contains the address. */
  lemma {:induction false} ListingFiltersPreorder(store: Store, t: Tree, level: nat, parent: Option<Offset>, at: Place)
    requires Backed(store, t) && (parent.Some? ==> parent.value in store)
    ensures Listing(store, t, parent.Some? && Encloses(store[parent.value], at), at)
         == VisibleOnly(store, Preorder(t, level, parent), at)
    decreases t, 1
  {
    var me := Visit(t.off, level, parent);
    var rest := PreorderAll(t.kids, level + 1, Some(t.off));
    VisibleConcat(store, [me], rest, at);
    assert VisibleOnly(store, [me], at) == if Visible(store, me, at) then [t.off] else [] by {
      assert [me][1..] == [];
    }
    ListingAllFilters(store, t, t.kids, level + 1, at);
  }

  lemma {:induction false} ListingAllFilters(store: Store, t: Tree, ts: seq<Tree>, level: nat, at: Place)
    requires t.off in store && forall k :: k in ts ==> Backed(store, k) && k in t.kids
    ensures ListingAll(store, ts, Encloses(store[t.off], at), at)
         == VisibleOnly(store, PreorderAll(ts, level, Some(t.off)), at)
    decreases t, 0, |ts|
  {
    if ts != [] {
      assert ts[0] in t.kids;
      ListingFiltersPreorder(store, ts[0], level, Some(t.off), at);
      ListingAllFilters(store, t, ts[1..], level, at);
      VisibleConcat(store, Preorder(ts[0], level, Some(t.off)), PreorderAll(ts[1..], level, Some(t.off)), at);
    }
  }

  // ---------------------------------------------------------------- lookup against listing

  ghost predicate AllListed(store: Store, listed: seq<Offset>) {
    forall o :: o in listed ==> o in store
  }

  lemma {:induction false} ListingBacked(store: Store, t: Tree, enclosing: bool, at: Place)
    requires Backed(store, t)
    ensures AllListed(store, Listing(store, t, enclosing, at))
    decreases t, 1
  {
    ListingAllBacked(store, t, t.kids, Encloses(store[t.off], at), at);
  }

  lemma {:induction false} ListingAllBacked(store: Store, t: Tree, ts: seq<Tree>, enclosing: bool, at: Place)
    requires forall k :: k in ts ==> Backed(store, k) && k in t.kids
    ensures AllListed(store, ListingAll(store, ts, enclosing, at))
    decreases t, 0, |ts|
  {
    if ts != [] {
      assert ts[0] in t.kids;
      ListingBacked(store, ts[0], enclosing, at);
      ListingAllBacked(store, t, ts[1..], enclosing, at);
    }
  }

  ghost predicate HasMatch(store: Store, listed: seq<Offset>, q: Search) {
    exists o :: o in listed && o in store && Matches(store, o, q)
  }

  /** The lookup succeeds exactly when the listing has a matching name, and then returns one; with
      no match it leaves *retDie alone. */
  lemma {:induction false} LookupFindsListed(store: Store, t: Tree, enclosing: bool, q: Search, found: Option<Offset>)
    requires Backed(store, t)
    ensures var listed, r := Listing(store, t, enclosing, q.at), Lookup(store, t, enclosing, q, found);
      && (!HasMatch(store, listed, q) ==> r == found)
      && (HasMatch(store, listed, q) ==> r.Some? && r.value in listed && r.value in store && Matches(store, r.value, q))
    decreases t, 1
  {
    var d := store[t.off];
    LookupAllFindsListed(store, t, t.kids, Encloses(d, q.at), q, found);
    var own := if IsDeclaration(d) && enclosing then [t.off] else [];
    var below := ListingAll(store, t.kids, Encloses(d, q.at), q.at);
    assert HasMatch(store, own + below, q) <==> HasMatch(store, own, q) || HasMatch(store, below, q);
    if IsDeclaration(d) && enclosing && q.matches(d.name) {
      assert t.off in own && Matches(store, t.off, q);
    }
  }

  lemma {:induction false} LookupAllFindsListed(
    store: Store, t: Tree, ts: seq<Tree>, enclosing: bool, q: Search, found: Option<Offset>)
    requires forall k :: k in ts ==> Backed(store, k) && k in t.kids
    ensures var listed, r := ListingAll(store, ts, enclosing, q.at), LookupAll(store, ts, enclosing, q, found);
      && (!HasMatch(store, listed, q) ==> r == found)
      && (HasMatch(store, listed, q) ==> r.Some? && r.value in listed && r.value in store && Matches(store, r.value, q))
    decreases t, 0, |ts|
  {
    if ts != [] {
      assert ts[0] in t.kids;
      LookupFindsListed(store, ts[0], enclosing, q, found);
      LookupAllFindsListed(store, t, ts[1..], enclosing, q, Lookup(store, ts[0], enclosing, q, found));
      var head, tail := Listing(store, ts[0], enclosing, q.at), ListingAll(store, ts[1..], enclosing, q.at);
      assert HasMatch(store, head + tail, q) <==> HasMatch(store, head, q) || HasMatch(store, tail, q);
    }
  }

  /** Declarations have no children. */
  ghost predicate LeafDeclarations(store: Store, t: Tree)
    requires Backed(store, t)
  {
    (IsDeclaration(store[t.off]) ==> t.kids == []) && forall k :: k in t.kids ==> LeafDeclarations(store, k)
  }

  /** The last matching entry of a listing. */
  ghost function LastMatch(store: Store, listed: seq<Offset>, q: Search, found: Option<Offset>): Option<Offset>
    requires AllListed(store, listed)
  {
    if listed == [] then found
    else
      var o := listed[|listed| - 1];
      if Matches(store, o, q) then Some(o) else LastMatch(store, listed[..|listed| - 1], q, found)
  }

  lemma {:induction false} LastMatchConcat(
    store: Store, a: seq<Offset>, b: seq<Offset>, q: Search, found: Option<Offset>)
    requires AllListed(store, a) && AllListed(store, b)
    ensures AllListed(store, a + b)
    ensures LastMatch(store, a + b, q, found) == LastMatch(store, b, q, LastMatch(store, a, q, found))
    decreases |b|
  {
    if b == [] {
      assert a + b == a;
    } else {
      assert (a + b)[..|a + b| - 1] == a + b[..|b| - 1];
      LastMatchConcat(store, a, b[..|b| - 1], q, found);
    }
  }

  /** With leaf declarations the overwriting recursion returns the last match of the listing. */
  lemma {:induction false} LookupIsLastListed(store: Store, t: Tree, enclosing: bool, q: Search, found: Option<Offset>)
    requires Backed(store, t) && LeafDeclarations(store, t)
    ensures AllListed(store, Listing(store, t, enclosing, q.at))
    ensures Lookup(store, t, enclosing, q, found) == LastMatch(store, Listing(store, t, enclosing, q.at), q, found)
    decreases t, 1
  {
    ListingBacked(store, t, enclosing, q.at);
    LookupAllIsLastListed(store, t, t.kids, Encloses(store[t.off], q.at), q, found);
    var below := ListingAll(store, t.kids, Encloses(store[t.off], q.at), q.at);
    if IsDeclaration(store[t.off]) && enclosing {
      assert Listing(store, t, enclosing, q.at) == [t.off];
      assert [t.off][..0] == [];
    } else {
      assert Listing(store, t, enclosing, q.at) == below;
    }
  }

  lemma {:induction false} LookupAllIsLastListed(
    store: Store, t: Tree, ts: seq<Tree>, enclosing: bool, q: Search, found: Option<Offset>)
    requires forall k :: k in ts ==> Backed(store, k) && k in t.kids && LeafDeclarations(store, k)
    ensures AllListed(store, ListingAll(store, ts, enclosing, q.at))
    ensures LookupAll(store, ts, enclosing, q, found)
         == LastMatch(store, ListingAll(store, ts, enclosing, q.at), q, found)
    decreases t, 0, |ts|
  {
    if ts != [] {
      assert ts[0] in t.kids;
      LookupIsLastListed(store, ts[0], enclosing, q, found);
      LookupAllIsLastListed(store, t, ts[1..], enclosing, q, Lookup(store, ts[0], enclosing, q, found));
      var head, tail := Listing(store, ts[0], enclosing, q.at), ListingAll(store, ts[1..], enclosing, q.at);
      LastMatchConcat(store, head, tail, q, found);
    }
  }

  // ---------------------------------------------------------------- name matching as written

  /** strncmp over the entry's own length: the entry's name is a prefix of the query. */
  function AsWritten(addr: nat, query: string): Search {
    Search(Place(addr, true), (name: string) => name <= query)
  }

  function Intended(addr: nat, query: string): Search {
    Search(Place(addr, true), (name: string) => name == query)
  }

  /** The listed name is a proper prefix of the query. */
  predicate ProperPrefix(store: Store, o: Offset, query: string)
    requires o in store
  {
    store[o].name <= query && store[o].name != query
  }

  /** Prefix matching picks the intended entry exactly when every listed proper prefix of the query
      is followed in the listing by the query itself. */
  lemma {:induction false} PrefixMatching(store: Store, listed: seq<Offset>, addr: nat, query: string)
    requires AllListed(store, listed)
    ensures LastMatch(store, listed, AsWritten(addr, query), None)
         == LastMatch(store, listed, Intended(addr, query), None)
       <==> forall i :: 0 <= i < |listed| && ProperPrefix(store, listed[i], query) ==>
              exists j :: i < j < |listed| && store[listed[j]].name == query
    decreases |listed|
  {
    var n := |listed| - 1;
    if listed == [] {
    } else if store[listed[n]].name == query {
    } else if ProperPrefix(store, listed[n], query) {
      ExactMatch(store, listed, addr, query);
    } else {
      var front := listed[..n];
      PrefixMatching(store, front, addr, query);
      assert forall i :: 0 <= i < n ==> front[i] == listed[i];
      if forall i :: 0 <= i < |listed| && ProperPrefix(store, listed[i], query) ==>
              exists j :: i < j < |listed| && store[listed[j]].name == query {
        forall i | 0 <= i < n && ProperPrefix(store, front[i], query)
          ensures exists j :: i < j < n && store[front[j]].name == query
        {
          var j :| i < j < |listed| && store[listed[j]].name == query;
          assert store[front[j]].name == query;
        }
      }
    }
  }

  lemma {:induction false} ExactMatch(store: Store, listed: seq<Offset>, addr: nat, query: string)
    requires AllListed(store, listed)
    ensures var r := LastMatch(store, listed, Intended(addr, query), None);
      r.Some? ==> r.value in store && store[r.value].name == query
    decreases |listed|
  {
    if listed != [] {
      ExactMatch(store, listed[..|listed| - 1], addr, query);
    }
  }

  /** A block that declares "x" and then "y", and a query for "xy": the lookup answers "x", although
      there is no "xy". */
  lemma PrefixFails() returns (store: Store)
    ensures Wellformed(store) && store.Keys == {0, 1, 2} && Encloses(store[0], Place(5, true))
    ensures store[1].name == "x" && store[2].name == "y"
    ensures Backed(store, TreeAt(store, 0))
    ensures Lookup(store, TreeAt(store, 0), false, AsWritten(5, "xy"), None) == Some(1)
    ensures Lookup(store, TreeAt(store, 0), false, Intended(5, "xy"), None) == None
  {
    store := map[
      0 := Die(LexicalBlock, "", 0, Some(PcRange(0, 10)), None, 0, Some(1), None),
      1 := Die(Variable, "x", 0, None, None, 1, None, Some(2)),
      2 := Die(Variable, "y", 0, None, None, 2, None, None)];
    var x, y := Node(1, []), Node(2, []);
    assert Forest(store, Some(2)) == [y] && Forest(store, Some(1)) == [x, y];
    assert TreeAt(store, 0) == Node(0, [x, y]);
    TreeBacked(store, 0);
    assert x in [x, y] && y in [x, y] && [x, y][1..] == [y] && [y][1..] == [];
    assert "y"[0] != "xy"[0];
    assert Lookup(store, x, true, AsWritten(5, "xy"), None) == Some(1);
    assert Lookup(store, y, true, AsWritten(5, "xy"), Some(1)) == Some(1);
    assert LookupAll(store, [y], true, AsWritten(5, "xy"), Some(1)) == Some(1);
    assert Lookup(store, x, true, Intended(5, "xy"), None) == None;
    assert Lookup(store, y, true, Intended(5, "xy"), None) == None;
    assert LookupAll(store, [y], true, Intended(5, "xy"), None) == None;
  }
}
