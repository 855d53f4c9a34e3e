/** Stack manipulation opcodes against section 2.5.1.3 of DWARF Version 4. */
module LocationShuffle {
  import opened Arith
  import opened BoundedStack
  import opened Location
  import opened Options

  /** Entry n counted from the top, as the standard counts. */
  function Entry(s: seq<int>, n: nat): int
    requires n < |s|
  {
    s[|s| - 1 - n]
  }

  function Depth(a: Atom): nat
    requires Shuffles(a)
  {
    if a.Dup? || a.Drop? then 1 else if a.Rot? then 3 else 2
  }

  /** A value read back from the stack, cut to an int or not. */
  function Read(x: int, cut: bool): int {
    if cut then Wrap32(x) else x
  }

  /** The rearrangements of section 2.5.1.3 on a stack of sufficient depth; with cut, every entry
      the operation reads is cut to an int on the way. */
  function Rearranged(a: Atom, s: seq<int>, cut: bool): seq<int>
    requires Shuffles(a) && |s| >= Depth(a)
  {
    var top := Read(Entry(s, 0), cut);
    var second := if |s| >= 2 then Read(Entry(s, 1), cut) else 0;
    match a
    case Dup => s + [top]
    case Drop => s[..|s| - 1]
    case Over => s[..|s| - 2] + [second, top, second]
    case Swap => s[..|s| - 2] + [top, second]
    case Rot => s[..|s| - 3] + [top, Read(Entry(s, 2), cut), second]
  }

  function Standard(a: Atom, s: seq<int>): seq<int>
    requires Shuffles(a) && |s| >= Depth(a)
  {
    Rearranged(a, s, false)
  }

  predicate TopFits(s: seq<int>, n: nat)
    requires n <= |s|
  {
    forall k :: |s| - n <= k < |s| ==> FitsInt(s[k])
  }

  lemma WrapOnce(x: int)
    ensures FitsInt(x) <==> Wrap32(x) == x
  {
  }

  lemma PopTwice(s: Cells)
    requires |s| >= 2
    ensures Pop(Pop(s)) == s[..|s| - 2]
    ensures |s| >= 3 ==> Pop(Pop(Pop(s))) == s[..|s| - 3]
  {
  }

  /** What the pushes and pops of a shuffle do to a deep enough stack with room for a new entry. */
  lemma ShuffleCuts(a: Atom, s: Cells)
    requires Shuffles(a) && Depth(a) <= |s| <= STACK_MAX && (a.Dup? || a.Over? ==> |s| < STACK_MAX)
    ensures Shuffle(a, s) == Rearranged(a, s, true)
  {
    if |s| >= 2 { PopTwice(s); }
  }

  /** Cutting changes the rearrangement unless every entry read is an int. */
  lemma CutMatters(a: Atom, s: seq<int>)
    requires Shuffles(a) && Depth(a) <= |s|
    ensures Rearranged(a, s, true) == Rearranged(a, s, false) <==> (a.Drop? || TopFits(s, Depth(a)))
  {
    var r, t, n := Rearranged(a, s, true), Rearranged(a, s, false), |s|;
    WrapOnce(s[n - 1]);
    if n >= 2 { WrapOnce(s[n - 2]); }
    if n >= 3 { WrapOnce(s[n - 3]); }
    match a {
      case Dup => assert r == t ==> r[n] == t[n];
      case Drop =>
      case Over => assert r == t ==> r[n - 2] == t[n - 2] && r[n - 1] == t[n - 1];
      case Swap => assert r == t ==> r[n - 2] == t[n - 2] && r[n - 1] == t[n - 1];
      case Rot => assert r == t ==> r[n - 3] == t[n - 3] && r[n - 2] == t[n - 2] && r[n - 1] == t[n - 1];
    }
  }

  /** dup, drop, over, swap and rot rearrange as the standard says exactly when the entries they
      read are ints. */
  lemma ShuffleIsStandard(a: Atom, s: Cells)
    requires Shuffles(a) && Depth(a) <= |s| <= STACK_MAX && (a.Dup? || a.Over? ==> |s| < STACK_MAX)
    ensures Shuffle(a, s) == Standard(a, s) <==> (a.Drop? || TopFits(s, Depth(a)))
  {
    ShuffleCuts(a, s);
    CutMatters(a, s);
  }

  /** The top n entries in the order pops deliver them. */
  function Popped(s: Cells, n: nat): Cells
    decreases n
  {
    if n == 0 then [] else [Top(s)] + Popped(Pop(s), n - 1)
  }

  lemma {:induction false} PoppedAt(s: Cells, n: nat)
    requires n <= |s|
    ensures |Popped(s, n)| == n
    ensures forall k :: 0 <= k < n ==> Popped(s, n)[k] == Wrap32(Entry(s, k))
    decreases n
  {
    if n > 0 {
      PoppedAt(Pop(s), n - 1);
      forall k | 1 <= k < n ensures Popped(s, n)[k] == Wrap32(Entry(s, k)) {
        assert Popped(s, n)[k] == Popped(Pop(s), n - 1)[k - 1];
        assert Entry(Pop(s), k - 1) == Entry(s, k);
      }
    }
  }

  /** n transfers move the top n entries onto t, reversed and cut to ints. */
  lemma {:induction false} TransferPops(s: Cells, t: Cells, n: nat)
    requires n <= |s| && |t| + n <= STACK_MAX
    ensures Transfer(s, t, n) == (s[..|s| - n], t + Popped(s, n))
    decreases n
  {
    if n > 0 {
      TransferPops(Pop(s), Push(t, Top(s)), n - 1);
      assert Pop(s)[..|s| - n] == s[..|s| - n];
      assert t + [Top(s)] + Popped(Pop(s), n - 1) == t + Popped(s, n);
    } else {
      assert s[..|s|] == s && t + [] == t;
    }
  }

  function Ints(s: seq<int>): (r: Cells)
    ensures |r| == |s|
  {
    seq(|s|, (k: nat) requires k < |s| => Wrap32(s[k]) as Long)
  }

  lemma PoppedTwice(s: Cells, n: nat)
    requires n <= |s|
    ensures Popped(Popped(s, n), n) == Ints(s[|s| - n..])
  {
    PoppedAt(s, n);
    PoppedAt(Popped(s, n), n);
    forall k | 0 <= k < n ensures Popped(Popped(s, n), n)[k] == Wrap32(s[|s| - n..][k]) {
      assert Entry(Popped(s, n), k) == Popped(s, n)[n - 1 - k] == Wrap32(Entry(s, n - 1 - k));
      WrapOnce(Wrap32(Entry(s, n - 1 - k)));
    }
  }

  /** Pick with n transfers, on any stack deeper than n with a free slot: the moved entries are cut
      to ints and entry n is copied to the top. */
  lemma PickCuts(s: Cells, n: nat)
    requires n < |s| < STACK_MAX
    ensures PickN(s, n) == s[..|s| - n] + Ints(s[|s| - n..]) + [Wrap32(Entry(s, n))]
  {
    var low := s[..|s| - n];
    TransferPops(s, [], n);
    assert [] + Popped(s, n) == Popped(s, n);
    PoppedAt(s, n);
    TransferPops(Popped(s, n), low, n);
    PoppedTwice(s, n);
  }

  /** Pick with n transfers copies entry n and changes nothing else, exactly when the entries it
      reads are ints. */
  lemma PickIsStandard(s: Cells, n: nat)
    requires n < |s| < STACK_MAX
    ensures PickN(s, n) == s + [Entry(s, n)] <==> TopFits(s, n + 1)
  {
    PickCuts(s, n);
    var r, t := PickN(s, n), s + [Entry(s, n)];
    assert forall k :: 0 <= k < |s| - n ==> r[k] == s[k];
    assert r[|s|] == Wrap32(Entry(s, n)) && t[|s|] == Entry(s, n);
    WrapOnce(Entry(s, n));
    forall k | |s| - n <= k < |s| ensures r[k] == Wrap32(s[k]) && (FitsInt(s[k]) <==> r[k] == t[k]) {
      assert r[k] == Ints(s[|s| - n..])[k - (|s| - n)];
      WrapOnce(s[k]);
    }
    assert |r| == |t|;
  }

  lemma {:induction false} TransferDrains(s: Cells, t: Cells, n: nat)
    requires n >= |s|
    ensures Transfer(s, t, n).0 == []
    decreases n
  {
    if n > 0 {
      TransferDrains(Pop(s), Push(t, Top(s)), n - 1);
    }
  }

  /** Every pick operation of p copies entry n, on every int stack deeper than n with room. */
  ghost predicate PicksEntry(p: Program, n: nat) {
    forall i: nat, s: Cells :: i < |p| && p[i].atom == Pick && n < |s| < STACK_MAX && TopFits(s, |s|)
      ==> Apply(p, i, s) == Continue(s + [Entry(s, n)])
  }

  /** As written, pick ignores its own operand: it copies entry n exactly when the shadowed search
      stops at n. Its operand is one byte. */
  lemma PickAsWritten(p: Program, i: nat, n: nat)
    requires i < |p| && p[i].atom == Pick && n < 256
    ensures PicksEntry(p, n) <==> ShadowedCount(p, 0) == Some(n)
  {
    if ShadowedCount(p, 0) == Some(n) {
      forall j: nat, s: Cells | j < |p| && p[j].atom == Pick && n < |s| < STACK_MAX && TopFits(s, |s|)
        ensures Apply(p, j, s) == Continue(s + [Entry(s, n)])
      {
        PickIsStandard(s, n);
      }
    } else if PicksEntry(p, n) {
      var s: Cells := seq(n + 1, (k: nat) requires k < n + 1 => k);
      assert n < |s| < STACK_MAX && TopFits(s, |s|);
      assert Apply(p, i, s) == Continue(s + [Entry(s, n)]);
      var k := ShadowedCount(p, 0).value;
      WrongCountDiffers(s, n, k);
    }
  }

  lemma WrongCountDiffers(s: Cells, n: nat, k: nat)
    requires k != n && |s| == n + 1 < 500
    requires forall j :: 0 <= j < |s| ==> s[j] == j
    ensures PickN(s, k) != s + [Entry(s, n)]
  {
    var r, t := PickN(s, k), s + [Entry(s, n)];
    assert t[|t| - 1] == 0;
    if k < n {
      PickCuts(s, k);
      assert r[|r| - 1] == Wrap32(n - k);
    } else {
      TransferDrains(s, [], k);
      var back := Transfer(Transfer(s, [], k).1, [], k).1;
      assert r == Push(back, -1);
      assert |back| < STACK_MAX ==> r[|r| - 1] == -1;
    }
  }

  /** When the first operation carries no operand, every pick in the expression is a dup. */
  lemma PickIsDup(p: Program, i: nat, s: Cells)
    requires i < |p| && p[i].atom == Pick && p[0].number == 0
    ensures Apply(p, i, s) == Continue(Shuffle(Dup, s))
  {
    assert ShadowedCount(p, 0) == Some(0);
    assert Transfer(s, [], 0) == (s, []);
    assert Transfer([], s, 0) == ([], s);
  }

  /** A concrete expression whose pick goes wrong: literals 1 and 2, then pick 1, which should copy
      the 1. */
  lemma PickFails() returns (p: Program, s: Cells)
    ensures p == [Loc(Lit(1), 0, 0), Loc(Lit(2), 0, 1), Loc(Pick, 1, 2)] && s == [1, 2]
    ensures Entry(s, 1) == 1 && Apply(p, 2, s) == Continue(s + [2])
  {
    p := [Loc(Lit(1), 0, 0), Loc(Lit(2), 0, 1), Loc(Pick, 1, 2)];
    s := [1, 2];
    PickIsDup(p, 2, s);
  }
}
