/** DC_resolve_type: unwrapping the chain of type references of a variable. */
module TypeChain {
  import opened Orbits
  import opened DieStore
  import opened Options

  /** DC_type. */
  datatype DcType = DcType(name: string, byteSize: nat, indirectionLevel: nat, arrayLevel: nat)

  /** Type references are relative to the start of the compilation unit, which is recovered from
      the variable's own two offsets. */
  function CuStart(store: Store, v: Offset): int
    requires v in store
  {
    v - store[v].cuOffset
  }

  /** Absolute target of every type reference. */
  function Refs(store: Store, cu: int): map<int, int> {
    map o: int | o in store && store[o].typeRef.Some? :: cu + store[o].typeRef.value
  }

  ghost predicate Closed(store: Store, cu: int) {
    forall o :: o in Refs(store, cu) ==> Refs(store, cu)[o] in store
  }

  /** The chain from o reaches an entry without a type. */
  ghost predicate Resolvable(store: Store, cu: int, o: int) {
    Leaves<int>(Refs(store, cu), o)
  }

  /** The loop, run for at most n more hops. */
  function Resolve(store: Store, cu: int, o: int, n: nat): Option<DcType>
    requires Closed(store, cu) && o in store
    decreases n
  {
    if store[o].typeRef.None? then Some(DcType(store[o].name, store[o].byteSize, 0, 0))
    else if n == 0 then None
    else
      match Resolve(store, cu, Refs(store, cu)[o], n - 1)
      case None => None
      case Some(t) => Some(Wrapped(store[o].tag, t))
  }

  /** What one entry on the chain adds. */
  function Wrapped(tag: Tag, t: DcType): DcType {
    match tag
    case PointerType => t.(indirectionLevel := t.indirectionLevel + 1)
    case ArrayType => t.(arrayLevel := t.arrayLevel + 1)
    case _ => t
  }

  lemma RefsCount(store: Store, cu: int)
    ensures |Refs(store, cu)| <= |store|
  {
    Subset(Refs(store, cu).Keys, store.Keys);
  }

  lemma {:induction false} Subset(a: set<int>, b: set<Offset>)
    requires a <= b
    ensures |a| <= |b|
    decreases |a|
  {
    if x :| x in a {
      Subset(a - {x}, b - {x});
    }
  }

  /** Exact termination: the unwrapping loop ends if and only if it reaches an entry without a type
      within as many hops as the unit has entries, which is when it never sees an entry twice. */
  lemma TerminatesExactly(store: Store, cu: int, o: int)
    ensures Resolvable(store, cu, o) <==> Walk<int>(Refs(store, cu), o, |store|) !in Refs(store, cu)
    ensures Resolvable(store, cu, o) <==> !Revisits<int>(Refs(store, cu), o)
  {
    var next := Refs(store, cu);
    RefsCount(store, cu);
    LeavesExactly<int>(next, o);
    if Walk<int>(next, o, |next|) !in next {
      WalkStaysOut<int>(next, o, |next|, |store|);
    }
  }

  lemma {:induction false} ResolveFollowsWalk(store: Store, cu: int, o: int, n: nat)
    requires Closed(store, cu) && o in store
    ensures Resolve(store, cu, o, n).Some? <==> Walk<int>(Refs(store, cu), o, n) !in Refs(store, cu)
    decreases n
  {
    if n > 0 && o in Refs(store, cu) {
      ResolveFollowsWalk(store, cu, Refs(store, cu)[o], n - 1);
    }
  }

  lemma {:induction false} ResolveStable(store: Store, cu: int, o: int, m: nat, n: nat)
    requires Closed(store, cu) && o in store && m <= n && Resolve(store, cu, o, m).Some?
    ensures Resolve(store, cu, o, n) == Resolve(store, cu, o, m)
    decreases m
  {
    if store[o].typeRef.Some? {
      ResolveStable(store, cu, Refs(store, cu)[o], m - 1, n - 1);
    }
  }

  /** chain leads from the type of v, at base plus its reference, to an entry without a type. */
  ghost predicate IsTypeChain(store: Store, base: int, v: Offset, chain: seq<Offset>) {
    && v in store && store[v].typeRef.Some? && chain != [] && chain[0] == base + store[v].typeRef.value
    && (forall k :: 0 <= k < |chain| ==> chain[k] in store)
    && (forall k :: 0 <= k < |chain| - 1 ==>
          store[chain[k]].typeRef.Some? && chain[k + 1] == base + store[chain[k]].typeRef.value)
    && store[chain[|chain| - 1]].typeRef.None?
  }

  /** How many of the entries have a tag. */
  function TagCount(store: Store, chain: seq<Offset>, tag: Tag): nat
    requires forall k :: 0 <= k < |chain| ==> chain[k] in store
  {
    if chain == [] then 0
    else
      var n := |chain| - 1;
      TagCount(store, chain[..n], tag) + if store[chain[n]].tag == tag then 1 else 0
  }

  /** DC_resolve_type on a variable that has a type: the name and size of the entry at the end of its
      type chain, and how many entries before it are pointers and arrays. References are relative to
      the start of the variable's unit. */
  method ResolveType(store: Store, v: Offset) returns (t: DcType, ghost chain: seq<Offset>)
    requires v in store && store[v].typeRef.Some?
    requires Closed(store, v - store[v].cuOffset) && Resolvable(store, v - store[v].cuOffset, v)
    ensures Some(t) == Resolve(store, CuStart(store, v), Refs(store, CuStart(store, v))[v], |store|)
    ensures IsTypeChain(store, v - store[v].cuOffset, v, chain)
    ensures var last := chain[|chain| - 1];
      t == DcType(store[last].name, store[last].byteSize,
                  TagCount(store, chain[..|chain| - 1], PointerType), TagCount(store, chain[..|chain| - 1], ArrayType))
  {
    var cu := CuStart(store, v);
    ghost var next := Refs(store, cu);
    var typeDie := cu + store[v].typeRef.value;
    ghost var first := next[v];
    var points, arrs := 0, 0;
    ghost var n := 0;
    assert next[v] == typeDie;
    TailResolvable(store, cu, v);
    TerminatesExactly(store, cu, first);
    ResolveFollowsWalk(store, cu, first, |store|);
    ghost var typed: seq<Offset> := [];
    while store[typeDie].typeRef.Some?
      invariant typeDie in store && n <= |store|
      invariant Resolve(store, cu, typeDie, |store| - n).Some?
      invariant var r := Resolve(store, cu, typeDie, |store| - n).value;
        Resolve(store, cu, first, |store|)
          == Some(DcType(r.name, r.byteSize, r.indirectionLevel + points, r.arrayLevel + arrs))
      invariant OnTheWay(store, cu, v, typed, typeDie)
      invariant points == TagCount(store, typed, PointerType) && arrs == TagCount(store, typed, ArrayType)
      decreases |store| - n
    {
      var tag := store[typeDie].tag;
      if tag == PointerType {
        points := points + 1;
      }
      if tag == ArrayType {
        arrs := arrs + 1;
      }
      assert typeDie in next;
      OneMore(store, cu, v, typed, typeDie);
      typed := typed + [typeDie];
      typeDie := cu + store[typeDie].typeRef.value;
      n := n + 1;
    }
    t := DcType(store[typeDie].name, store[typeDie].byteSize, points, arrs);
    ChainDone(store, cu, v, typed, typeDie);
    chain := typed + [typeDie];
    assert chain[..|chain| - 1] == typed;
  }

  /** The typed entries seen so far, and the next one. */
  ghost predicate OnTheWay(store: Store, base: int, v: Offset, typed: seq<Offset>, x: int) {
    && v in store && store[v].typeRef.Some?
    && (forall k :: 0 <= k < |typed| ==> typed[k] in store && store[typed[k]].typeRef.Some?)
    && (if typed == [] then x else typed[0]) == base + store[v].typeRef.value
    && (typed != [] ==> x == base + store[typed[|typed| - 1]].typeRef.value)
    && forall k :: 0 <= k < |typed| - 1 ==> typed[k + 1] == base + store[typed[k]].typeRef.value
  }

  lemma OneMore(store: Store, base: int, v: Offset, typed: seq<Offset>, x: Offset)
    requires OnTheWay(store, base, v, typed, x) && x in store && store[x].typeRef.Some?
    ensures OnTheWay(store, base, v, typed + [x], base + store[x].typeRef.value)
    ensures forall tag ::
      TagCount(store, typed + [x], tag) == TagCount(store, typed, tag) + if store[x].tag == tag then 1 else 0
  {
    assert (typed + [x])[..|typed|] == typed;
    assert forall k :: 0 <= k < |typed| ==> (typed + [x])[k] == typed[k];
  }

  lemma ChainDone(store: Store, base: int, v: Offset, typed: seq<Offset>, x: Offset)
    requires OnTheWay(store, base, v, typed, x) && x in store && store[x].typeRef.None?
    ensures IsTypeChain(store, base, v, typed + [x])
  {
    var chain := typed + [x];
    forall k | 0 <= k < |chain| - 1
      ensures store[chain[k]].typeRef.Some? && chain[k + 1] == base + store[chain[k]].typeRef.value
    {
      assert chain[k] == typed[k];
      if k + 1 < |typed| { assert chain[k + 1] == typed[k + 1]; }
    }
  }

  lemma TailResolvable(store: Store, cu: int, o: int)
    requires o in Refs(store, cu) && Resolvable(store, cu, o)
    ensures Resolvable(store, cu, Refs(store, cu)[o])
  {
    var next := Refs(store, cu);
    var n: nat :| Walk<int>(next, o, n) !in next;
    assert n > 0;
    assert Walk<int>(next, o, n) == Walk<int>(next, next[o], n - 1);
  }

  // ---------------------------------------------------------------- what is counted

  /** The typed entries on the chain that have a given tag. */
  ghost function OnChain(store: Store, cu: int, o: int, tag: Tag): set<int> {
    set x | x in Refs(store, cu) && store[x].tag == tag && exists k: nat :: Walk<int>(Refs(store, cu), o, k) == x
  }

  lemma ChainSplit(store: Store, cu: int, o: int, tag: Tag)
    requires o in Refs(store, cu) && Resolvable(store, cu, o)
    ensures o !in OnChain(store, cu, Refs(store, cu)[o], tag)
    ensures OnChain(store, cu, o, tag)
         == OnChain(store, cu, Refs(store, cu)[o], tag) + if store[o].tag == tag then {o} else {}
  {
    var next := Refs(store, cu);
    var rest := OnChain(store, cu, next[o], tag);
    LeavesExactly<int>(next, o);
    forall k: nat ensures Walk<int>(next, next[o], k) != o {
      assert Walk<int>(next, o, k + 1) == Walk<int>(next, next[o], k);
      assert Walk<int>(next, o, 0) == o;
    }
    forall x | x in OnChain(store, cu, o, tag) && x != o ensures x in rest {
      var k: nat :| Walk<int>(next, o, k) == x;
      assert k > 0 && Walk<int>(next, next[o], k - 1) == x;
    }
    forall x | x in rest ensures x in OnChain(store, cu, o, tag) {
      var k: nat :| Walk<int>(next, next[o], k) == x;
      assert Walk<int>(next, o, k + 1) == x;
    }
    if store[o].tag == tag {
      assert Walk<int>(next, o, 0) == o;
    }
  }

  /** The reported levels count exactly the pointer and the array entries on the chain, and the
      name and size are those of the entry at its end. */
  lemma {:induction false} ResolveCounts(store: Store, cu: int, o: int, n: nat)
    requires Closed(store, cu) && o in store && Resolve(store, cu, o, n).Some?
    ensures var t := Resolve(store, cu, o, n).value;
      && t.indirectionLevel == |OnChain(store, cu, o, PointerType)|
      && t.arrayLevel == |OnChain(store, cu, o, ArrayType)|
    ensures var t, last := Resolve(store, cu, o, n).value, Walk<int>(Refs(store, cu), o, n);
      last in store && store[last].typeRef.None? && t.name == store[last].name && t.byteSize == store[last].byteSize
    decreases n
  {
    var next := Refs(store, cu);
    if o in next {
      ResolveFollowsWalk(store, cu, o, n);
      assert Resolvable(store, cu, o);
      ResolveCounts(store, cu, next[o], n - 1);
      ChainSplit(store, cu, o, PointerType);
      ChainSplit(store, cu, o, ArrayType);
    } else {
      forall k: nat ensures Walk<int>(next, o, k) == o {
      }
      assert OnChain(store, cu, o, PointerType) == {};
      assert OnChain(store, cu, o, ArrayType) == {};
    }
  }

  // ---------------------------------------------------------------- wrappers

  /** A new entry w, a typedef or qualifier, put between x and the type of x. */
  datatype Wrapper = Wrapper(x: Offset, w: Offset, entry: Die)

  ghost predicate Insertable(store: Store, cu: int, i: Wrapper) {
    && i.x in store && store[i.x].typeRef.Some? && i.w !in store && i.w >= cu
    && i.entry.tag != PointerType && i.entry.tag != ArrayType && i.entry.typeRef == store[i.x].typeRef
  }

  ghost function Insert(store: Store, cu: int, i: Wrapper): Store
    requires Insertable(store, cu, i)
  {
    store[i.x := store[i.x].(typeRef := Some(i.w - cu))][i.w := i.entry]
  }

  lemma InsertClosed(store: Store, cu: int, i: Wrapper)
    requires Closed(store, cu) && Insertable(store, cu, i)
    ensures Closed(Insert(store, cu, i), cu)
  {
    var store' := Insert(store, cu, i);
    forall o | o in Refs(store', cu) ensures Refs(store', cu)[o] in store' {
      if o == i.w {
        assert Refs(store, cu)[i.x] in store;
      } else if o != i.x {
        assert o in Refs(store, cu) && Refs(store, cu)[o] in store;
      }
    }
  }

  lemma {:induction false} InsertForward(store: Store, cu: int, i: Wrapper, o: int, n: nat)
    requires Closed(store, cu) && Insertable(store, cu, i) && o in store && Resolve(store, cu, o, n).Some?
    ensures Closed(Insert(store, cu, i), cu)
    ensures Resolve(Insert(store, cu, i), cu, o, 2 * n) == Resolve(store, cu, o, n)
    decreases n
  {
    InsertClosed(store, cu, i);
    var store' := Insert(store, cu, i);
    if store[o].typeRef.Some? {
      var target := Refs(store, cu)[o];
      InsertForward(store, cu, i, target, n - 1);
      if o == i.x {
        assert Refs(store', cu)[o] == i.w && Refs(store', cu)[i.w] == target;
        assert Resolve(store', cu, i.w, 2 * n - 1) == Resolve(store, cu, target, n - 1);
      } else {
        assert Refs(store', cu)[o] == target;
        ResolveStable(store', cu, target, 2 * n - 2, 2 * n - 1);
      }
    }
  }

  lemma {:induction false} InsertBackward(store: Store, cu: int, i: Wrapper, o: int, n: nat)
    requires Closed(store, cu) && Insertable(store, cu, i) && o in store
    requires Closed(Insert(store, cu, i), cu) && Resolve(Insert(store, cu, i), cu, o, n).Some?
    ensures Resolve(store, cu, o, n).Some?
    decreases n
  {
    var store' := Insert(store, cu, i);
    if store[o].typeRef.Some? {
      var target := Refs(store, cu)[o];
      if o == i.x {
        assert Refs(store', cu)[o] == i.w && Refs(store', cu)[i.w] == target;
        assert Resolve(store', cu, i.w, n - 1).Some?;
        InsertBackward(store, cu, i, target, n - 2);
        ResolveStable(store, cu, target, n - 2, n - 1);
      } else {
        assert Refs(store', cu)[o] == target;
        InsertBackward(store, cu, i, target, n - 1);
      }
    }
  }

  /** t is what the loop reports for o. */
  ghost predicate Resolves(store: Store, cu: int, o: int, t: DcType)
    requires Closed(store, cu) && o in store
  {
    exists n: nat :: Resolve(store, cu, o, n) == Some(t)
  }

  lemma InsertInvisible(store: Store, cu: int, i: Wrapper, o: int, t: DcType)
    requires Closed(store, cu) && Insertable(store, cu, i) && o in store
    ensures Closed(Insert(store, cu, i), cu)
    ensures Resolves(store, cu, o, t) <==> Resolves(Insert(store, cu, i), cu, o, t)
  {
    InsertClosed(store, cu, i);
    if Resolves(store, cu, o, t) {
      var n: nat :| Resolve(store, cu, o, n) == Some(t);
      InsertForward(store, cu, i, o, n);
    }
    if Resolves(Insert(store, cu, i), cu, o, t) {
      var n: nat :| Resolve(Insert(store, cu, i), cu, o, n) == Some(t);
      InsertBackward(store, cu, i, o, n);
      InsertForward(store, cu, i, o, n);
      ResolveStable(Insert(store, cu, i), cu, o, n, 2 * n);
    }
  }

  ghost predicate AllInsertable(store: Store, cu: int, ws: seq<Wrapper>)
    decreases |ws|
  {
    ws == [] || (Insertable(store, cu, ws[0]) && AllInsertable(Insert(store, cu, ws[0]), cu, ws[1..]))
  }

  ghost function InsertAll(store: Store, cu: int, ws: seq<Wrapper>): Store
    requires AllInsertable(store, cu, ws)
    decreases |ws|
  {
    if ws == [] then store else InsertAll(Insert(store, cu, ws[0]), cu, ws[1..])
  }

  /** Any number of typedef and qualifier wrappers, anywhere on any chain, leaves the reported type
      of every entry unchanged, and the loop ends with them exactly when it ends without. */
  lemma {:induction false} WrappersInvisible(store: Store, cu: int, ws: seq<Wrapper>, o: int, t: DcType)
    requires Closed(store, cu) && AllInsertable(store, cu, ws) && o in store
    ensures Closed(InsertAll(store, cu, ws), cu) && o in InsertAll(store, cu, ws)
    ensures Resolves(store, cu, o, t) <==> Resolves(InsertAll(store, cu, ws), cu, o, t)
    decreases |ws|
  {
    if ws != [] {
      InsertInvisible(store, cu, ws[0], o, t);
      WrappersInvisible(Insert(store, cu, ws[0]), cu, ws[1..], o, t);
    }
  }
}
