/** An abstract store of debugging information entries, standing for what libdwarf answers, and the
    tree it represents. */
module DieStore {
  import opened Options

  type Offset = nat

  datatype Tag = Variable | FormalParameter | LexicalBlock | Subprogram | PointerType | ArrayType | OtherTag

  /** low_pc and high_pc as stored. */
  datatype PcRange = PcRange(lo: nat, hi: nat)

  /** cuOffset is the offset inside the compilation unit; typeRef is relative to the unit too. */
  datatype Die = Die(
    tag: Tag, name: string, byteSize: nat, pc: Option<PcRange>, typeRef: Option<Offset>, cuOffset: Offset,
    child: Option<Offset>, sibling: Option<Offset>)

  type Store = map<Offset, Die>

  /** Child and sibling exist and come later in the section. */
  ghost predicate Wellformed(store: Store) {
    forall o :: o in store ==>
      && (store[o].child.Some? ==> store[o].child.value in store && store[o].child.value > o)
      && (store[o].sibling.Some? ==> store[o].sibling.value in store && store[o].sibling.value > o)
  }

  /** The entries from o on. */
  ghost function From(store: Store, o: Offset): set<Offset> {
    set k | k in store && k >= o
  }

  ghost predicate Points(store: Store, o: Option<Offset>) {
    o.Some? ==> o.value in store
  }

  ghost function FromOption(store: Store, o: Option<Offset>): set<Offset> {
    if o.Some? then From(store, o.value) else {}
  }

  datatype Tree = Node(off: Offset, kids: seq<Tree>)

  /** The chain of trees that starts at an entry and follows its siblings. */
  ghost function Forest(store: Store, first: Option<Offset>): seq<Tree>
    requires Wellformed(store) && Points(store, first)
    decreases FromOption(store, first)
  {
    if first.None? then []
    else
      var o := first.value;
      Later(store, o);
      [Node(o, Forest(store, store[o].child))] + Forest(store, store[o].sibling)
  }

  ghost function TreeAt(store: Store, o: Offset): Tree
    requires Wellformed(store) && o in store
  {
    Node(o, Forest(store, store[o].child))
  }

  lemma Later(store: Store, o: Offset)
    requires Wellformed(store) && o in store
    ensures FromOption(store, store[o].child) < From(store, o)
    ensures FromOption(store, store[o].sibling) < From(store, o)
  {
    assert o in From(store, o);
    assert o !in FromOption(store, store[o].child);
    assert o !in FromOption(store, store[o].sibling);
  }

  /** All entries of the tree are in the store. */
  ghost predicate Backed(store: Store, t: Tree) {
    t.off in store && forall k :: k in t.kids ==> Backed(store, k)
  }

  lemma {:induction false} ForestBacked(store: Store, first: Option<Offset>)
    requires Wellformed(store) && Points(store, first)
    ensures forall k :: k in Forest(store, first) ==> Backed(store, k)
    decreases FromOption(store, first)
  {
    if first.Some? {
      var o := first.value;
      Later(store, o);
      ForestBacked(store, store[o].child);
      ForestBacked(store, store[o].sibling);
    }
  }

  lemma TreeBacked(store: Store, o: Offset)
    requires Wellformed(store) && o in store
    ensures Backed(store, TreeAt(store, o))
  {
    ForestBacked(store, store[o].child);
  }
}
