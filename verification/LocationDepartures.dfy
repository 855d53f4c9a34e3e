/** Where the decoder leaves section 2.5.1.5 of DWARF Version 4, and when it agrees. */
module LocationDepartures {
  import opened Arith
  import opened BoundedStack
  import opened Location
  import opened LocationReference

  predicate Relational(b: BinOp) {
    b in {Le, Ge, Eq, Lt, Gt, Ne}
  }

  /** The standard compares the former second entry with the former top. */
  predicate StandardCompare(b: BinOp, second: int, top: int)
    requires Relational(b)
  {
    match b
    case Le => second <= top
    case Ge => second >= top
    case Eq => second == top
    case Lt => second < top
    case Gt => second > top
    case Ne => second != top
  }

  function Mirror(b: BinOp): BinOp
    requires Relational(b)
  {
    match b
    case Le => Ge
    case Ge => Le
    case Lt => Gt
    case Gt => Lt
    case _ => b
  }

  /** The decoder compares the other way round, so each ordering opcode computes its mirror image;
      it agrees with the standard exactly on symmetric opcodes and equal entries. */
  lemma ComparisonsMirrored(b: BinOp, s: Cells)
    requires Relational(b) && 2 <= |s|
    ensures var top, second := Top(s), Top(Pop(s));
      && (Binary(b, s) == Continue(s[..|s| - 2] + [if StandardCompare(Mirror(b), second, top) then 1 else 0]))
      && (Binary(b, s) == Continue(s[..|s| - 2] + [if StandardCompare(b, second, top) then 1 else 0])
          <==> b in {Eq, Ne} || second == top)
    requires |s| <= STACK_MAX
  {
    var top, second := Top(s), Top(Pop(s));
    assert Pop(Pop(s)) == s[..|s| - 2];
    var v := Compute(b, second, top).value;
    assert Binary(b, s) == Continue(s[..|s| - 2] + [v]);
    var x: Long := if StandardCompare(b, second, top) then 1 else 0;
    assert (s[..|s| - 2] + [v])[|s| - 2] == v && (s[..|s| - 2] + [x])[|s| - 2] == x;
  }

  /** 1 < 2 computes false: literals 1 and 2, then lt. */
  lemma LessThanFails() returns (p: Program)
    ensures p == [Loc(Lit(1), 0, 0), Loc(Lit(2), 0, 1), Loc(Bin(Lt), 0, 2)]
    ensures Apply(p, 2, [1, 2]) == Continue([0]) && StandardCompare(Lt, 1, 2)
  {
    hide Binary;
    p := [Loc(Lit(1), 0, 0), Loc(Lit(2), 0, 1), Loc(Bin(Lt), 0, 2)];
    CompareReference([1, 2], 1, 2);
    assert Without([1, 2], 2) + [0] == [0];
  }

  ghost predicate OffsetsIncrease(p: Program) {
    && (forall i, j :: 0 <= i < j < |p| ==> p[i].offset < p[j].offset)
    && (forall i :: 0 <= i < |p| ==> p[i].offset < TWO_31)
  }

  /** The operation that starts at a byte offset, or the end. */
  function OpAt(p: Program, offset: int): (r: nat)
    ensures r <= |p|
    ensures r < |p| ==> p[r].offset == offset
    ensures r == |p| ==> forall j :: 0 <= j < |p| ==> p[j].offset != offset
  {
    SearchForward(p, offset, 0)
  }

  /** Section 2.5.1.5: skip and bra are relative to the byte after their two-byte operand. */
  function StandardTarget(p: Program, i: nat): nat
    requires i < |p|
  {
    OpAt(p, p[i].offset + 3 + Displacement(p[i].number))
  }

  /** As written a skip lands on the operation its operand names relative to the skip's own offset,
      or ends the run; so it reaches operation k exactly when the operand is the distance between
      the two operations, modulo 2^32. */
  lemma SkipReaches(p: Program, i: nat, k: nat)
    requires OffsetsIncrease(p) && i < |p| && p[i].atom == Skip && k < |p| && k != i
    ensures NextIndex(p, i) == k <==> (p[i].number - (p[k].offset - p[i].offset)) % 0x1_0000_0000 == 0
  {
    var d, e := Displacement(p[i].number), p[k].offset - p[i].offset;
    SkipLands(p, i, k);
    DisplacementIs(p[i].number, e);
    DisplacementIs(p[i].number, d);
    if NextIndex(p, i) == k {
      assert (p[i].offset + d) % 0x1_0000_0000 == p[k].offset;
      ModuloDistance(p[i].offset, d, p[k].offset);
      assert d == e;
    }
    if d == e {
      assert (p[i].offset + d) % 0x1_0000_0000 == p[k].offset;
      assert d < 0 <==> k < i;
    }
  }

  lemma DisplacementIs(number: ULong, e: int)
    requires -TWO_31 <= e < TWO_31
    ensures Displacement(number) == e <==> (number - e) % 0x1_0000_0000 == 0
  {
    var l := Loc(Skip, number, 0);
    SkipIsDisplacement(l);
    IntConversion(number, e);
  }

  lemma ModuloDistance(a: int, d: int, b: int)
    requires 0 <= a < TWO_31 && 0 <= b < TWO_31 && -TWO_31 <= d < TWO_31
    requires (a + d) % 0x1_0000_0000 == b
    ensures d == b - a
  {
  }

  /** The decoder and the standard continue a skip at the same operation exactly when neither
      target is the start of another operation, so that both end the expression. */
  lemma SkipAgrees(p: Program, i: nat)
    requires OffsetsIncrease(p) && i < |p| && p[i].atom == Skip
    ensures NextIndex(p, i) == StandardTarget(p, i)
       <==> forall j :: 0 <= j < |p| ==>
              && p[j].offset != p[i].offset + 3 + Displacement(p[i].number)
              && (j != i ==> p[j].offset != p[i].offset + Displacement(p[i].number))
  {
    var n, t, d := NextIndex(p, i), StandardTarget(p, i), Displacement(p[i].number);
    assert n != i;
    forall j: nat | j < |p| && j != i
      ensures n == j <==> p[j].offset == p[i].offset + d
    {
      SkipReaches(p, i, j);
      DisplacementIs(p[i].number, p[j].offset - p[i].offset);
    }
  }

  /** A skip over the one-byte operation at offset 3 ends the run instead: nothing starts at offset 1. */
  lemma SkipFails() returns (p: Program)
    ensures p == [Loc(Skip, 1, 0), Loc(Nop, 0, 3), Loc(Lit(1), 0, 4)] && OffsetsIncrease(p)
    ensures NextIndex(p, 0) == |p| && StandardTarget(p, 0) == 2
  {
    p := [Loc(Skip, 1, 0), Loc(Nop, 0, 3), Loc(Lit(1), 0, 4)];
  }

  /** bra in the standard: the top is always popped, and a non-zero top jumps. */
  function StandardBra(p: Program, i: nat, s: Cells, frameRel: bool): Config
    requires i < |p|
  {
    Running(if Top(s) != 0 then StandardTarget(p, i) else i + 1, Pop(s), frameRel)
  }

  /** As written bra never jumps, and keeps a zero on the stack: it does what the standard says
      exactly when the top is non-zero and the branch target is the next operation anyway. */
  lemma BraAgrees(p: Program, i: nat, s: Cells, frameRel: bool)
    requires i < |p| && p[i].atom == Bra && s != []
    ensures Step(p, Running(i, s, frameRel)) == StandardBra(p, i, s, frameRel)
       <==> Top(s) != 0 && StandardTarget(p, i) == i + 1
  {
    assert |Pop(s)| < |s|;
  }

  /** A branch over the operation at offset 3: taken in the standard on a non-zero top, never taken
      as written; and on a zero top the zero stays on the stack. */
  lemma BraFails() returns (p: Program)
    ensures p == [Loc(Bra, 1, 0), Loc(Nop, 0, 3), Loc(Lit(1), 0, 4)]
    ensures Step(p, Running(0, [7], false)) == Running(1, [], false)
    ensures StandardBra(p, 0, [7], false) == Running(2, [], false)
    ensures Step(p, Running(0, [0], false)) == Running(1, [0], false)
    ensures StandardBra(p, 0, [0], false) == Running(1, [], false)
  {
    p := [Loc(Bra, 1, 0), Loc(Nop, 0, 3), Loc(Lit(1), 0, 4)];
  }
}
