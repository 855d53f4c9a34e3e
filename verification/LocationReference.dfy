/** What every opcode leaves behind, said of entries and numbers alone: the decoder read off section
    2.5.1 of DWARF Version 4, with the departures in place. */
module LocationReference {
  import opened Arith
  import opened BoundedStack
  import opened Location
  import opened LocationShuffle
  import opened Options

  /** The machine reads y as the entry n below the top: the entry cut to an int, or -1 when the
      stack is not that deep. */
  predicate Reads(s: Cells, n: nat, y: int) {
    && -0x8000_0000 <= y < 0x8000_0000
    && if n < |s| then (s[|s| - 1 - n] - y) % 0x1_0000_0000 == 0 else y == -1
  }

  /** The stack without its top n entries. */
  function Without(s: Cells, n: nat): Cells {
    if n <= |s| then s[..|s| - n] else []
  }

  /** At most a thousand entries. */
  function Capped(s: Cells): Cells {
    if |s| <= 1000 then s else s[..1000]
  }

  lemma TopReads(s: Cells, y: int)
    requires Reads(s, 0, y)
    ensures Top(s) == y
  {
    if s != [] { IntConversion(s[|s| - 1], y); }
  }

  lemma PopReads(s: Cells, n: nat, y: int)
    requires Reads(s, n + 1, y)
    ensures Reads(Pop(s), n, y)
  {
  }

  lemma PopWithout(s: Cells, n: nat)
    ensures Pop(Without(s, n)) == Without(s, n + 1)
    ensures Without(s, 0) == s
  {
  }

  // ---------------------------------------------------------------- operators

  lemma BinaryReads(b: BinOp, s: Cells, x: int, y: int)
    requires |s| <= 1000 && Reads(s, 1, x) && Reads(s, 0, y)
    ensures Binary(b, s) == match Compute(b, x, y)
                            case None => Undefined
                            case Some(v) => Continue(Without(s, 2) + [Wrap64(v)])
  {
    TopReads(s, y);
    PopReads(s, 0, x);
    TopReads(Pop(s), x);
    PopWithout(s, 0);
    PopWithout(s, 1);
  }

  lemma LongFits(v: int)
    requires -0x8000_0000_0000_0000 <= v < 0x8000_0000_0000_0000
    ensures Wrap64(v) == v
  {
    LongConversion(v, v);
  }

  lemma ProductFits(x: int, y: int)
    requires -0x8000_0000 <= x < 0x8000_0000 && -0x8000_0000 <= y < 0x8000_0000
    ensures -0x4000_0000_0000_0000 <= x * y <= 0x4000_0000_0000_0000
  {
    MulMonotone(Arith.Abs(x), 0x8000_0000, Arith.Abs(y));
    NegateProduct(Arith.Abs(x), Arith.Abs(y));
  }

  /** plus, minus, mul, and the six comparisons, of the second entry x and the top y. */
  lemma ArithmeticReference(s: Cells, x: int, y: int)
    requires |s| <= 1000 && Reads(s, 1, x) && Reads(s, 0, y)
    ensures Binary(Plus, s) == Continue(Without(s, 2) + [x + y])
    ensures Binary(Minus, s) == Continue(Without(s, 2) + [x - y])
    ensures -0x8000_0000_0000_0000 <= x * y < 0x8000_0000_0000_0000
    ensures Binary(Mul, s) == Continue(Without(s, 2) + [x * y])
  {
    hide Binary, Wrap64;
    BinaryReads(Plus, s, x, y);
    LongFits(x + y);
    BinaryReads(Minus, s, x, y);
    LongFits(x - y);
    ProductFits(x, y);
    BinaryReads(Mul, s, x, y);
    LongFits(x * y);
  }

  lemma CompareReference(s: Cells, x: int, y: int)
    requires |s| <= 1000 && Reads(s, 1, x) && Reads(s, 0, y)
    ensures Binary(Le, s) == Continue(Without(s, 2) + [if y <= x then 1 else 0])
    ensures Binary(Ge, s) == Continue(Without(s, 2) + [if y >= x then 1 else 0])
    ensures Binary(Lt, s) == Continue(Without(s, 2) + [if y < x then 1 else 0])
    ensures Binary(Gt, s) == Continue(Without(s, 2) + [if y > x then 1 else 0])
    ensures Binary(Eq, s) == Continue(Without(s, 2) + [if x == y then 1 else 0])
    ensures Binary(Ne, s) == Continue(Without(s, 2) + [if x == y then 0 else 1])
  {
    hide Binary, Wrap64;
    LongFits(0);
    LongFits(1);
    BinaryReads(Le, s, x, y);
    BinaryReads(Ge, s, x, y);
    BinaryReads(Lt, s, x, y);
    BinaryReads(Gt, s, x, y);
    BinaryReads(Eq, s, x, y);
    BinaryReads(Ne, s, x, y);
  }

  /** div and mod: undefined on zero, otherwise C's pair of quotient and remainder. */
  lemma DivisionReference(s: Cells, x: int, y: int, q: int, r: int)
    requires |s| <= 1000 && Reads(s, 1, x) && Reads(s, 0, y)
    requires y != 0 ==>
      x == y * q + r && (if y < 0 then y < r < -y else -y < r < y) && (x >= 0 ==> r >= 0) && (x <= 0 ==> r <= 0)
    ensures y == 0 ==> Binary(Div, s) == Binary(Mod, s) == Undefined
    ensures y != 0 ==> FitsLong(q) && Binary(Div, s) == Continue(Without(s, 2) + [q])
    ensures y != 0 ==> FitsLong(r) && Binary(Mod, s) == Continue(Without(s, 2) + [r])
  {
    hide Binary, Wrap64;
    BinaryReads(Div, s, x, y);
    BinaryReads(Mod, s, x, y);
    if y != 0 {
      TruncDivMod(x, y, q, r);
      if q != 0 { MultipleAtLeast(q, y); }
      assert Arith.Abs(q) <= Arith.Abs(y * q) by { if q != 0 { NegateProduct(q, y); } }
      assert Arith.Abs(y * q) <= Arith.Abs(x) + Arith.Abs(r);
      LongFits(q);
      LongFits(r);
    }
  }

  predicate FitsLong(v: int) {
    -0x8000_0000_0000_0000 <= v < 0x8000_0000_0000_0000
  }

  lemma WidthOfInt(x: int)
    requires -0x8000_0000 <= x < 0x8000_0000
    ensures -Pow2(63) <= x < Pow2(63) && Pow2(63) == 0x8000_0000_0000_0000
  {
    hide Pow2;
    PowerOfSum(1, 1);
    assert Pow2(2) == 4;
    PowerOfSum(2, 2);
    PowerOfSum(4, 4);
    assert Pow2(8) == 0x100;
    PowerOfSum(8, 8);
    PowerOfSum(16, 16);
    assert Pow2(32) == 0x1_0000_0000;
    PowerOfSum(16, 8);
    PowerOfSum(24, 4);
    assert Pow2(28) == 0x1000_0000;
    PowerOfSum(2, 1);
    PowerOfSum(28, 3);
    PowerOfSum(32, 31);
  }

  /** and, or, xor act on every bit of the two entries. */
  lemma BitReference(b: BinOp, s: Cells, x: int, y: int) returns (v: Long)
    requires |s| <= 1000 && Reads(s, 1, x) && Reads(s, 0, y) && b in {And, Or, Xor}
    ensures Binary(b, s) == Continue(Without(s, 2) + [v])
    ensures forall k: nat :: BitAt(v, k) <==>
      match b
      case And => BitAt(x, k) && BitAt(y, k)
      case Or => BitAt(x, k) || BitAt(y, k)
      case _ => BitAt(x, k) != BitAt(y, k)
  {
    hide Binary, Wrap64, Bitwise, Pow2, BitAt;
    BinaryReads(b, s, x, y);
    WidthOfInt(x);
    WidthOfInt(y);
    var op := if b == And then BitAnd else if b == Or then BitOr else BitXor;
    BitwiseBits(op, x, y, 63, 0);
    v := Bitwise(op, x, y, 63);
    LongFits(v);
    forall k: nat
      ensures BitAt(v, k) <==>
        match b
        case And => BitAt(x, k) && BitAt(y, k)
        case Or => BitAt(x, k) || BitAt(y, k)
        case _ => BitAt(x, k) != BitAt(y, k)
    {
      BitwiseBits(op, x, y, 63, k);
    }
  }

  /** shl, shr and shra: undefined unless the count is 0..63; otherwise the product with a power of
      two modulo 2^64, and the quotients of the unsigned and of the signed entry. */
  lemma ShiftReference(s: Cells, x: int, y: int, v: int)
    requires |s| <= 1000 && Reads(s, 1, x) && Reads(s, 0, y) && FitsLong(v)
    ensures !(0 <= y < 64) ==> Binary(Shl, s) == Binary(Shr, s) == Binary(Shra, s) == Undefined
    ensures 0 <= y < 64 ==>
      && (Binary(Shl, s) == Continue(Without(s, 2) + [v]) <==> (x * Pow2(y) - v) % 0x1_0000_0000_0000_0000 == 0)
      && (Binary(Shr, s) == Continue(Without(s, 2) + [v])
          <==> (x % 0x1_0000_0000_0000_0000 / Pow2(y) - v) % 0x1_0000_0000_0000_0000 == 0)
      && (Binary(Shra, s) == Continue(Without(s, 2) + [v]) <==> v == x / Pow2(y))
  {
    hide Binary, Wrap64, Pow2;
    BinaryReads(Shl, s, x, y);
    BinaryReads(Shr, s, x, y);
    BinaryReads(Shra, s, x, y);
    if 0 <= y < 64 {
      LongConversion(x * Pow2(y), v);
      LongConversion(x % TWO_64 / Pow2(y), v);
      QuotientShrinks(x, Pow2(y));
      LongFits(x / Pow2(y));
      SameEnd(Without(s, 2), Wrap64(x * Pow2(y)), v);
      SameEnd(Without(s, 2), Wrap64(x % TWO_64 / Pow2(y)), v);
      SameEnd(Without(s, 2), x / Pow2(y), v);
    }
  }

  lemma QuotientShrinks(x: int, d: int)
    requires d >= 1
    ensures Arith.Abs(x / d) <= Arith.Abs(x)
  {
    var q := x / d;
    assert x == d * q + x % d && 0 <= x % d < d;
    if q >= 1 { MulMonotone(1, d, q); }
    if q <= -2 { MulMonotone(1, d, -q - 1); }
  }

  lemma SameEnd(s: Cells, v: Long, w: Long)
    ensures s + [v] == s + [w] <==> v == w
  {
    assert (s + [v])[|s|] == v && (s + [w])[|s|] == w;
  }

  /** abs, neg and not of the top y; abs of the least int is undefined. */
  lemma UnaryReference(s: Cells, y: int)
    requires |s| <= 1000 && Reads(s, 0, y)
    ensures Unary(UnOp.Abs, s) == if y == -0x8000_0000 then Undefined
                                  else Continue(Without(s, 1) + [if y >= 0 then y else -y])
    ensures Unary(Neg, s) == Continue(Without(s, 1) + [-y])
    ensures Unary(Not, s) == Continue(Without(s, 1) + [-1 - y])
  {
    TopReads(s, y);
    PopWithout(s, 0);
    LongFits(y);
    LongFits(-y);
    LongFits(-1 - y);
  }

  lemma PushCapped(t: Cells, v: Long)
    ensures Push(Capped(t), v) == Capped(t + [v])
  {
  }

  lemma Pushes(low: Cells, a: Long, b: Long, c: Long)
    requires |low| <= 1000
    ensures Push(low, a) == Capped(low + [a])
    ensures Push(Push(low, a), b) == Capped(low + [a, b])
    ensures Push(Push(Push(low, a), b), c) == Capped(low + [a, b, c])
  {
    hide Push;
    PushCapped(low, a);
    PushCapped(low + [a], b);
    PushCapped(low + [a] + [b], c);
    assert low + [a] + [b] == low + [a, b] && low + [a] + [b] + [c] == low + [a, b, c];
  }

  lemma ThreeReads(s: Cells, x: int, y: int, z: int)
    requires Reads(s, 0, x) && Reads(s, 1, y) && Reads(s, 2, z)
    ensures Top(s) == x && Top(Pop(s)) == y && Top(Pop(Pop(s))) == z
    ensures Pop(s) == Without(s, 1) && Pop(Pop(s)) == Without(s, 2) && Pop(Pop(Pop(s))) == Without(s, 3)
  {
    TopReads(s, x);
    PopReads(s, 0, y);
    TopReads(Pop(s), y);
    PopReads(s, 1, z);
    PopReads(Pop(s), 0, z);
    TopReads(Pop(Pop(s)), z);
  }

  /** dup, drop, over, swap and rot on any stack, with the entries that do not fit dropped. */
  lemma ShuffleReference(s: Cells, x: int, y: int, z: int)
    requires |s| <= 1000 && Reads(s, 0, x) && Reads(s, 1, y) && Reads(s, 2, z)
    ensures Shuffle(Dup, s) == Capped(s + [x])
    ensures Shuffle(Drop, s) == Without(s, 1)
    ensures Shuffle(Over, s) == Capped(Without(s, 2) + [y, x, y])
    ensures Shuffle(Swap, s) == Capped(Without(s, 2) + [x, y])
    ensures Shuffle(Rot, s) == Capped(Without(s, 3) + [x, z, y])
  {
    hide Push, Pop, Top, Without, Capped;
    ThreeReads(s, x, y, z);
    WithoutShrinks(s);
    Pushes(s, x, x, x);
    Pushes(Without(s, 2), y, x, y);
    Pushes(Without(s, 2), x, y, y);
    Pushes(Without(s, 3), x, z, y);
  }

  lemma WithoutShrinks(s: Cells)
    ensures |Without(s, 2)| <= |s| && |Without(s, 3)| <= |s|
  {
  }

  // ---------------------------------------------------------------- steps

  /** The decoder gives up with offset -1 on exactly four kinds of opcode. */
  lemma GivesUpExactly(p: Program, i: nat, s: Cells, f: bool)
    requires i < |p|
    ensures if p[i].atom in {RegisterOffset, Register, Deref, Other}
            then Step(p, Running(i, s, f)) == Finished(-1, f, true)
            else !Step(p, Running(i, s, f)).Finished?
  {
  }

  /** A step is undefined exactly for a zero divisor, a shift count outside 0..63, the absolute
      value of the least int, and a pick whose shadowed bound runs past the last operation. */
  lemma UndefinedExactly(p: Program, i: nat, s: Cells, f: bool, y: int)
    requires i < |p| && |s| <= 1000 && Reads(s, 0, y)
    ensures Step(p, Running(i, s, f)).Undef? <==>
      || (p[i].atom in {Bin(Div), Bin(Mod)} && y == 0)
      || (p[i].atom in {Bin(Shl), Bin(Shr), Bin(Shra)} && !(0 <= y < 64))
      || (p[i].atom == Un(UnOp.Abs) && y == -0x8000_0000)
      || (p[i].atom == Pick && forall j :: 0 <= j < |p| ==> j < p[j].number)
  {
    TopReads(s, y);
  }

  /** What an operation that only pushes, or changes nothing, leaves; constants and frame offsets
      are operands modulo 2^64, and only a frame offset sets the flag. */
  lemma PushReference(p: Program, i: nat, s: Cells, f: bool, v: int)
    requires i < |p| && |s| <= 1000 && FitsLong(v) && (p[i].number - v) % 0x1_0000_0000_0000_0000 == 0
    ensures var r := Step(p, Running(i, s, f));
      match p[i].atom
      case Lit(k) => r == Running(i + 1, Capped(s + [k]), f)
      case ConstU => r == Running(i + 1, Capped(s + [v]), f)
      case ConstS => r == Running(i + 1, Capped(s + [v]), f)
      case FbReg => r == Running(i + 1, Capped(s + [v]), true)
      case Piece => r == Running(i + 1, s, f)
      case Nop => r == Running(i + 1, s, f)
      case _ => true
  {
    LongConversion(p[i].number, v);
  }

  /** plus_uconst adds its operand to the top, modulo 2^64. */
  lemma PlusUconstReference(p: Program, i: nat, s: Cells, f: bool, y: int, v: int)
    requires i < |p| && p[i].atom == PlusUconst && |s| <= 1000 && Reads(s, 0, y) && FitsLong(v)
    requires (y + p[i].number - v) % 0x1_0000_0000_0000_0000 == 0
    ensures Step(p, Running(i, s, f)) == Running(i + 1, Without(s, 1) + [v], f)
  {
    TopReads(s, y);
    PopWithout(s, 0);
    LongConversion(y + p[i].number, v);
  }

  /** bra pops a top that is not zero, and goes on. */
  lemma BraReference(p: Program, i: nat, s: Cells, f: bool, y: int)
    requires i < |p| && p[i].atom == Bra && Reads(s, 0, y)
    ensures Step(p, Running(i, s, f)) == Running(i + 1, if y == 0 then s else Without(s, 1), f)
  {
    TopReads(s, y);
  }

  /** Operators and rearrangements are the ones above, and every operation but a skip goes on with
      the next. */
  lemma OperatorStep(p: Program, i: nat, s: Cells, f: bool)
    requires i < |p|
    ensures var r := Step(p, Running(i, s, f));
      match p[i].atom
      case Bin(b) => r == After(Binary(b, s), i, f)
      case Un(u) => r == After(Unary(u, s), i, f)
      case Skip => r.Running? && r.cells == s && r.frameRel == f
      case a => Shuffles(a) ==> r == Running(i + 1, Shuffle(a, s), f)
    ensures p[i].atom in {Dup, Drop, Over, Swap, Rot} <==> Shuffles(p[i].atom)
  {
  }

  function After(e: Effect, i: nat, f: bool): Config {
    match e
    case Continue(cells) => Running(i + 1, cells, f)
    case GiveUp => Finished(-1, f, true)
    case Undefined => Undef
  }

  /** Past the last operation the top is the offset, -1 on an empty stack. */
  lemma EndReference(p: Program, i: nat, s: Cells, f: bool, y: int)
    requires i >= |p| && Reads(s, 0, y)
    ensures Step(p, Running(i, s, f)) == Finished(y, f, false)
  {
    TopReads(s, y);
  }

  /** The empty expression decodes to its initial value cut to an int, to -1 without one. */
  lemma EmptyDecodes(init: Option<Long>, y: int)
    requires -0x8000_0000 <= y < 0x8000_0000
    requires if init.Some? then (init.value - y) % 0x1_0000_0000 == 0 else y == -1
    ensures Step([], Start(init)) == Finished(y, false, false)
    ensures Start(init) == Running(0, if init.Some? then [init.value] else [], false)
  {
    if init.Some? { IntConversion(init.value, y); }
  }

  // ---------------------------------------------------------------- pick on a shallow stack

  /** Popping more entries than there are yields -1s. */
  lemma {:induction false} PoppedPads(s: Cells, n: nat)
    requires |s| <= n
    ensures |Popped(s, n)| == n
    ensures forall k :: 0 <= k < n ==> Popped(s, n)[k] == if k < |s| then Wrap32(Entry(s, k)) else -1
    decreases n
  {
    if n > 0 {
      PoppedPads(Pop(s), n - 1);
      forall k | 1 <= k < n ensures Popped(s, n)[k] == if k < |s| then Wrap32(Entry(s, k)) else -1 {
        assert Popped(s, n)[k] == Popped(Pop(s), n - 1)[k - 1];
        if k < |s| { assert Entry(Pop(s), k - 1) == Entry(s, k); }
      }
    }
  }

  lemma {:induction false} TransferPads(s: Cells, t: Cells, n: nat)
    requires |s| <= n && |t| + n <= 1000
    ensures Transfer(s, t, n) == ([], t + Popped(s, n))
    decreases n
  {
    if n > 0 {
      TransferPads(Pop(s), Push(t, Top(s)), n - 1);
      assert t + [Top(s)] + Popped(Pop(s), n - 1) == t + Popped(s, n);
    } else {
      assert t + [] == t;
    }
  }

  /** Pick deeper than the stack: the stack, cut to ints, comes back on top of as many -1s as were
      missing, and a -1 is pushed. */
  lemma PickPads(s: Cells, n: nat)
    requires |s| <= n < 1000
    ensures PickN(s, n) == seq(n - |s|, _ => -1) + Ints(s) + [-1]
  {
    hide Transfer, Popped, Ints;
    TransferPads(s, [], n);
    var temp := Popped(s, n);
    assert [] + temp == temp;
    PoppedPads(s, n);
    TransferPops(temp, [], n);
    PaddedBack(s, n);
    assert [] + Popped(temp, n) == Popped(temp, n) && temp[..|temp| - n] == [];
  }

  lemma PaddedBack(s: Cells, n: nat)
    requires |s| <= n < 1000
    ensures Popped(Popped(s, n), n) == seq(n - |s|, _ => -1) + Ints(s)
  {
    hide Popped;
    PoppedPads(s, n);
    var temp := Popped(s, n);
    PoppedAt(temp, n);
    var r := seq(n - |s|, _ => -1) + Ints(s);
    forall k | 0 <= k < n ensures Popped(temp, n)[k] == r[k] {
      assert Entry(temp, k) == temp[n - 1 - k];
      if n - 1 - k < |s| { WrapOnce(Wrap32(Entry(s, n - 1 - k))); }
    }
  }
}
