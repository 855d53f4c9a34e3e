/** The lookup returns a declaration of the innermost scope. */
module ScopeInnermost {
  import opened DieStore
  import opened ScopeLookup
  import opened Options

  /** s is t or lies below it. */
  ghost predicate Within(s: Tree, t: Tree) {
    s == t || exists k :: k in t.kids && Within(s, k)
  }

  /** Some scope in the tree is around the place. */
  ghost predicate HasScope(store: Store, t: Tree, at: Place) {
    exists s :: Within(s, t) && s.off in store && Encloses(store[s.off], at)
  }

  /** As far as the place is concerned: declarations are leaves, at most one of several siblings has
      scopes around it, and among siblings declarations precede such scopes. */
  ghost predicate WellScoped(store: Store, t: Tree, at: Place)
    requires Backed(store, t)
  {
    && (IsDeclaration(store[t.off]) ==> t.kids == [])
    && (forall i, j :: 0 <= i < j < |t.kids| ==> !HasScope(store, t.kids[i], at) || !HasScope(store, t.kids[j], at))
    && (forall i, j :: 0 <= i < j < |t.kids| && t.kids[j].off in store && IsDeclaration(store[t.kids[j].off]) ==>
          !HasScope(store, t.kids[i], at))
    && (forall k :: k in t.kids ==> WellScoped(store, k, at))
  }

  /** s is a scope around the address with a matching declaration x directly inside. */
  ghost predicate Declares(store: Store, s: Tree, q: Search, x: Offset) {
    && s.off in store && Encloses(store[s.off], q.at)
    && exists k :: k in s.kids && k.off == x && x in store && IsDeclaration(store[x]) && Matches(store, x, q)
  }

  ghost predicate DeclaresSome(store: Store, s: Tree, q: Search) {
    exists x :: Declares(store, s, q, x)
  }

  /** The tree has a scope around the address that declares a match. */
  ghost predicate Answerable(store: Store, t: Tree, q: Search) {
    exists s :: Within(s, t) && DeclaresSome(store, s, q)
  }

  /** x is declared by a scope around the address that lies within every other one declaring a
      match. */
  ghost predicate Innermost(store: Store, t: Tree, q: Search, x: Offset) {
    exists s :: Within(s, t) && Declares(store, s, q, x)
      && forall s' :: Within(s', t) && DeclaresSome(store, s', q) ==> Within(s, s')
  }

  ghost predicate Own(store: Store, k: Tree, q: Search) {
    k.off in store && IsDeclaration(store[k.off]) && Matches(store, k.off, q)
  }

  lemma WithinKid(s: Tree, k: Tree, t: Tree)
    requires k in t.kids && Within(s, k)
    ensures Within(s, t)
  {
  }

  /** An answer in a child, or a matching declaration directly inside an enclosing root, answers. */
  lemma AnswerUp(store: Store, t: Tree, k: Tree, q: Search)
    requires k in t.kids && t.off in store
    ensures Answerable(store, k, q) ==> Answerable(store, t, q)
    ensures Encloses(store[t.off], q.at) && Own(store, k, q) ==> Answerable(store, t, q)
  {
    if Answerable(store, k, q) {
      var s :| Within(s, k) && DeclaresSome(store, s, q);
      WithinKid(s, k, t);
    }
    if Encloses(store[t.off], q.at) && Own(store, k, q) {
      assert Declares(store, t, q, k.off);
      assert Within(t, t);
    }
  }

  /** Every answering scope is the root, or lies in a child that has an answer. */
  lemma AnswerDown(store: Store, t: Tree, s: Tree, q: Search)
    requires Within(s, t) && DeclaresSome(store, s, q)
    ensures s == t || exists j :: 0 <= j < |t.kids| && Within(s, t.kids[j]) && Answerable(store, t.kids[j], q)
  {
    if s != t {
      var k :| k in t.kids && Within(s, k);
      var j :| 0 <= j < |t.kids| && t.kids[j] == k;
      assert Answerable(store, t.kids[j], q);
    }
  }

  /** A tree whose root is not a visible match and that has no answer leaves *retDie alone. */
  lemma {:induction false} NoAnswer(store: Store, t: Tree, enclosing: bool, q: Search, found: Option<Offset>)
    requires Backed(store, t) && WellScoped(store, t, q.at) && !Answerable(store, t, q)
    requires !(enclosing && Own(store, t, q))
    ensures Lookup(store, t, enclosing, q, found) == found
    decreases t, 1
  {
    forall k | k in t.kids
      ensures !Answerable(store, k, q) && !(Encloses(store[t.off], q.at) && Own(store, k, q))
    {
      AnswerUp(store, t, k, q);
    }
    NoAnswers(store, t, t.kids, Encloses(store[t.off], q.at), q, found);
  }

  ghost predicate Quiet(store: Store, k: Tree, enclosing: bool, q: Search) {
    Backed(store, k) && WellScoped(store, k, q.at) && !Answerable(store, k, q) && !(enclosing && Own(store, k, q))
  }

  lemma {:induction false} NoAnswers(
    store: Store, t: Tree, ts: seq<Tree>, enclosing: bool, q: Search, found: Option<Offset>)
    requires forall k :: k in ts ==> k in t.kids && Backed(store, k) && Quiet(store, k, enclosing, q)
    ensures LookupAll(store, ts, enclosing, q, found) == found
    decreases t, 0, |ts|
  {
    if ts != [] {
      assert ts[0] in t.kids;
      NoAnswer(store, ts[0], enclosing, q, found);
      NoAnswers(store, t, ts[1..], enclosing, q, found);
    }
  }

  lemma {:induction false} LookupAllSplit(
    store: Store, a: seq<Tree>, b: seq<Tree>, enclosing: bool, q: Search, found: Option<Offset>)
    requires forall k :: k in a + b ==> Backed(store, k)
    ensures (forall k :: k in a ==> Backed(store, k)) && (forall k :: k in b ==> Backed(store, k))
    ensures LookupAll(store, a + b, enclosing, q, found)
         == LookupAll(store, b, enclosing, q, LookupAll(store, a, enclosing, q, found))
    decreases |a|
  {
    assert forall k :: k in a ==> k in a + b;
    assert forall k :: k in b ==> k in a + b;
    if a == [] {
      assert a + b == b;
    } else {
      assert (a + b)[1..] == a[1..] + b;
      LookupAllSplit(store, a[1..], b, enclosing, q, Lookup(store, a[0], enclosing, q, found));
    }
  }

  /** Innermost scope: whenever some scope around the address declares a match, the overwriting
      recursion returns a matching declaration of the innermost such scope. */
  lemma {:induction false} LookupIsInnermost(store: Store, t: Tree, enclosing: bool, q: Search, found: Option<Offset>)
    requires Backed(store, t) && WellScoped(store, t, q.at)
    requires Answerable(store, t, q)
    ensures var r := Lookup(store, t, enclosing, q, found); r.Some? && Innermost(store, t, q, r.value)
    decreases t
  {
    var enc := Encloses(store[t.off], q.at);
    AnswerableKid(store, t, q);
    if j :| 0 <= j < |t.kids| && Answerable(store, t.kids[j], q) {
      var k := t.kids[j];
      assert k in t.kids;
      AnswerableKid(store, k, q);
      var before := LookupAll(store, t.kids[..j], enc, q, found);
      LookupIsInnermost(store, k, enc, q, before);
      SkipAfter(store, t, j, enc, q, found);
      LiftInnermost(store, t, j, q, Lookup(store, k, enc, q, before).value);
    } else {
      OwnDeclaration(store, t, q, found);
    }
  }

  lemma AnswerableKid(store: Store, k: Tree, q: Search)
    requires Backed(store, k) && WellScoped(store, k, q.at) && Answerable(store, k, q)
    ensures !IsDeclaration(store[k.off]) && HasScope(store, k, q.at)
  {
    var s :| Within(s, k) && DeclaresSome(store, s, q);
    assert k.kids == [] ==> s == k;
  }

  lemma QuietAfter(store: Store, t: Tree, j: nat, i: nat, enc: bool, q: Search)
    requires Backed(store, t) && WellScoped(store, t, q.at) && j < i < |t.kids| && Answerable(store, t.kids[j], q)
    ensures Backed(store, t.kids[i]) && Quiet(store, t.kids[i], enc, q)
  {
    assert t.kids[i] in t.kids && t.kids[j] in t.kids;
    AnswerableKid(store, t.kids[j], q);
    if Answerable(store, t.kids[i], q) { OneAnswers(store, t, j, i, q); }
  }

  /** The siblings after an answering child change nothing. */
  lemma SkipAfter(store: Store, t: Tree, j: nat, enc: bool, q: Search, found: Option<Offset>)
    requires Backed(store, t) && WellScoped(store, t, q.at) && j < |t.kids| && Answerable(store, t.kids[j], q)
    ensures forall k :: k in t.kids[..j] ==> Backed(store, k)
    ensures t.kids[j] in t.kids
    ensures LookupAll(store, t.kids, enc, q, found)
         == Lookup(store, t.kids[j], enc, q, LookupAll(store, t.kids[..j], enc, q, found))
  {
    hide Answerable, WellScoped, Quiet;
    var a, k, b := t.kids[..j], t.kids[j], t.kids[j + 1..];
    assert t.kids == a + ([k] + b);
    LookupAllSplit(store, a, [k] + b, enc, q, found);
    LookupAllSplit(store, [k], b, enc, q, LookupAll(store, a, enc, q, found));
    assert k in t.kids;
    forall u | u in b ensures u in t.kids && Backed(store, u) && Quiet(store, u, enc, q) {
      var i :| 0 <= i < |b| && b[i] == u;
      assert u == t.kids[j + 1 + i];
      QuietAfter(store, t, j, j + 1 + i, enc, q);
    }
    var got := Lookup(store, k, enc, q, LookupAll(store, a, enc, q, found));
    NoAnswers(store, t, b, enc, q, got);
    assert LookupAll(store, [k], enc, q, LookupAll(store, a, enc, q, found)) == got by {
      assert [k][1..] == [];
    }
  }

  /** At most one child has an answer. */
  lemma OneAnswers(store: Store, t: Tree, i: nat, j: nat, q: Search)
    requires Backed(store, t) && WellScoped(store, t, q.at) && i < |t.kids| && j < |t.kids|
    requires Answerable(store, t.kids[i], q) && Answerable(store, t.kids[j], q)
    ensures i == j
  {
    assert t.kids[i] in t.kids && t.kids[j] in t.kids;
    AnswerableKid(store, t.kids[i], q);
    AnswerableKid(store, t.kids[j], q);
  }

  lemma LiftInnermost(store: Store, t: Tree, j: nat, q: Search, x: Offset)
    requires Backed(store, t) && WellScoped(store, t, q.at) && j < |t.kids| && Answerable(store, t.kids[j], q)
    requires Innermost(store, t.kids[j], q, x)
    ensures Innermost(store, t, q, x)
  {
    hide DeclaresSome, Answerable, Declares, HasScope;
    var k := t.kids[j];
    assert k in t.kids;
    var s :| Within(s, k) && Declares(store, s, q, x)
      && forall s' :: Within(s', k) && DeclaresSome(store, s', q) ==> Within(s, s');
    WithinKid(s, k, t);
    forall s' | Within(s', t) && DeclaresSome(store, s', q) ensures Within(s, s') {
      AnswerDown(store, t, s', q);
      if s' != t {
        var i :| 0 <= i < |t.kids| && Within(s', t.kids[i]) && Answerable(store, t.kids[i], q);
        OneAnswers(store, t, i, j, q);
      }
    }
  }

  /** When no child has an answer, the root scope itself declares it. */
  lemma OwnDeclaration(store: Store, t: Tree, q: Search, found: Option<Offset>)
    requires Backed(store, t) && WellScoped(store, t, q.at) && Answerable(store, t, q)
    requires forall j :: 0 <= j < |t.kids| ==> !Answerable(store, t.kids[j], q)
    ensures var r := LookupAll(store, t.kids, Encloses(store[t.off], q.at), q, found);
      r.Some? && Innermost(store, t, q, r.value)
  {
    var s :| Within(s, t) && DeclaresSome(store, s, q);
    AnswerDown(store, t, s, q);
    var x :| Declares(store, t, q, x);
    var k :| k in t.kids && k.off == x;
    assert Own(store, k, q);
    LastOwn(store, t, t.kids, q, found);
    var r := LookupAll(store, t.kids, true, q, found);
    var k' :| k' in t.kids && r == Some(k'.off) && Own(store, k', q);
    assert Declares(store, t, q, k'.off);
    assert Within(t, t);
    forall s' | Within(s', t) && DeclaresSome(store, s', q) ensures Within(t, s') {
      AnswerDown(store, t, s', q);
    }
  }

  lemma {:induction false} LastOwn(store: Store, t: Tree, ts: seq<Tree>, q: Search, found: Option<Offset>)
    requires forall k :: k in ts ==>
      k in t.kids && Backed(store, k) && WellScoped(store, k, q.at) && !Answerable(store, k, q)
    ensures var r := LookupAll(store, ts, true, q, found);
      if exists k :: k in ts && Own(store, k, q) then exists k :: k in ts && Own(store, k, q) && r == Some(k.off)
      else r == found
    decreases |ts|
  {
    if ts != [] {
      var k := ts[0];
      var got := Lookup(store, k, true, q, found);
      if Own(store, k, q) {
        assert got == Some(k.off);
      } else {
        NoAnswer(store, k, true, q, found);
      }
      LastOwn(store, t, ts[1..], q, got);
      assert forall u :: u in ts <==> u == k || u in ts[1..];
    }
  }

  // ---------------------------------------------------------------- ranges as a producer writes them

  /** Nothing is in two ranges; high_pc is the first address past a range. */
  predicate Disjoint(a: PcRange, b: PcRange) {
    a.hi <= b.lo || b.hi <= a.lo || a.lo >= a.hi || b.lo >= b.hi
  }

  ghost predicate DisjointTrees(store: Store, a: Tree, b: Tree) {
    forall r, s :: Within(r, a) && Within(s, b) && r.off in store && s.off in store
        && IsScope(store[r.off]) && IsScope(store[s.off])
      ==> Disjoint(store[r.off].pc.value, store[s.off].pc.value)
  }

  ghost predicate NoScopes(store: Store, t: Tree) {
    forall s :: Within(s, t) && s.off in store ==> !IsScope(store[s.off])
  }

  /** Declarations are leaves, sibling subtrees have disjoint ranges, and among siblings
      declarations precede nested scopes. */
  ghost predicate WellRanged(store: Store, t: Tree)
    requires Backed(store, t)
  {
    && (IsDeclaration(store[t.off]) ==> t.kids == [])
    && (forall i, j :: 0 <= i < j < |t.kids| ==> DisjointTrees(store, t.kids[i], t.kids[j]))
    && (forall i, j :: 0 <= i < j < |t.kids| && t.kids[j].off in store && IsDeclaration(store[t.kids[j].off]) ==>
          NoScopes(store, t.kids[i]))
    && (forall k :: k in t.kids ==> WellRanged(store, k))
  }

  /** A scope whose range ends at the address. */
  predicate EndsAt(d: Die, addr: nat) {
    IsScope(d) && d.pc.value.lo <= addr == d.pc.value.hi
  }

  ghost predicate NoneEnds(store: Store, t: Tree, addr: nat) {
    forall s :: Within(s, t) && s.off in store ==> !EndsAt(store[s.off], addr)
  }

  /** The code's test is the half-open one, and the end of the range. */
  lemma EndOfRange(d: Die, addr: nat)
    ensures Encloses(d, Place(addr, true)) <==> Encloses(d, Place(addr, false)) || EndsAt(d, addr)
  {
  }

  /** Disjoint ranges suffice at every address when ends do not count, and off the ends of ranges
      when they do. */
  lemma {:induction false} RangesScope(store: Store, t: Tree, at: Place)
    requires Backed(store, t) && WellRanged(store, t) && (at.closed ==> NoneEnds(store, t, at.addr))
    ensures WellScoped(store, t, at)
    decreases t
  {
    forall k | k in t.kids
      ensures WellScoped(store, k, at) && (at.closed ==> NoneEnds(store, k, at.addr))
    {
      forall s | Within(s, k) ensures Within(s, t) { WithinKid(s, k, t); }
      RangesScope(store, k, at);
    }
    forall i, j | 0 <= i < j < |t.kids|
      ensures !HasScope(store, t.kids[i], at) || !HasScope(store, t.kids[j], at)
    {
      assert t.kids[i] in t.kids && t.kids[j] in t.kids;
      NoOverlap(store, t.kids[i], t.kids[j], at);
    }
  }

  lemma NoOverlap(store: Store, a: Tree, b: Tree, at: Place)
    requires DisjointTrees(store, a, b)
    requires at.closed ==> NoneEnds(store, a, at.addr) && NoneEnds(store, b, at.addr)
    ensures !HasScope(store, a, at) || !HasScope(store, b, at)
  {
    forall r, s | Within(r, a) && Within(s, b) && r.off in store && s.off in store && Encloses(store[r.off], at)
      ensures !Encloses(store[s.off], at)
    {
      assert IsScope(store[s.off]) ==> Disjoint(store[r.off].pc.value, store[s.off].pc.value);
    }
  }

  /** In a unit with disjoint ranges the lookup, as written, returns a declaration of the innermost
      scope at every address that is not the end of a range. */
  lemma InnermostOffEnds(store: Store, t: Tree, enclosing: bool, q: Search, found: Option<Offset>)
    requires Backed(store, t) && WellRanged(store, t) && Answerable(store, t, q)
    requires q.at.closed ==> NoneEnds(store, t, q.at.addr)
    ensures var r := Lookup(store, t, enclosing, q, found); r.Some? && Innermost(store, t, q, r.value)
  {
    RangesScope(store, t, q.at);
    LookupIsInnermost(store, t, enclosing, q, found);
  }
}
