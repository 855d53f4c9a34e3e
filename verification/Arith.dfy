/** C integer arithmetic on the widths the location decoder uses: 32-bit int, 64-bit long,
    truncation, truncating division and two's-complement bit operations. */
module Arith {
  const TWO_31: int := 0x8000_0000
  const TWO_32: int := 0x1_0000_0000
  const TWO_63: int := 0x8000_0000_0000_0000
  const TWO_64: int := 0x1_0000_0000_0000_0000

  type CInt = x: int | -TWO_31 <= x < TWO_31
  type Long = x: int | -TWO_63 <= x < TWO_63
  type ULong = x: int | 0 <= x < TWO_64

  predicate FitsInt(x: int) {
    -TWO_31 <= x < TWO_31
  }

  /** Conversion to int: keep the low 32 bits, read as signed. */
  function Wrap32(x: int): CInt {
    (x + TWO_31) % TWO_32 - TWO_31
  }

  /** Conversion to long: keep the low 64 bits, read as signed. */
  function Wrap64(x: int): Long {
    (x + TWO_63) % TWO_64 - TWO_63
  }

  /** Agreement modulo 2^32. */
  predicate Cong(a: int, b: int) {
    (a - b) % TWO_32 == 0
  }

  lemma CongWitness(a: int, b: int) returns (k: int)
    requires Cong(a, b)
    ensures a == b + TWO_32 * k
  {
    k := (a - b) / TWO_32;
  }

  lemma CongFrom(a: int, b: int, k: int)
    requires a == b + TWO_32 * k
    ensures Cong(a, b)
  {
  }

  lemma Wrap32Cong(x: int)
    ensures Cong(Wrap32(x), x)
  {
    CongFrom(Wrap32(x), x, -((x + TWO_31) / TWO_32));
  }

  lemma Wrap64Cong(x: int)
    ensures Cong(Wrap64(x), x)
  {
    CongFrom(Wrap64(x), x, -0x1_0000_0000 * ((x + TWO_63) / TWO_64));
  }

  /** Two integers truncate to the same int exactly when they agree modulo 2^32. */
  lemma CongIffSameInt(a: int, b: int)
    ensures Cong(a, b) <==> Wrap32(a) == Wrap32(b)
  {
    Wrap32Cong(a);
    Wrap32Cong(b);
    var ka := CongWitness(Wrap32(a), a);
    var kb := CongWitness(Wrap32(b), b);
    if Cong(a, b) {
      var k := CongWitness(a, b);
      assert Wrap32(a) - Wrap32(b) == TWO_32 * (ka - kb + k);
    } else if Wrap32(a) == Wrap32(b) {
      CongFrom(a, b, kb - ka);
    }
  }

  /** Conversion to int yields the one int that agrees modulo 2^32. */
  lemma IntConversion(x: int, y: int)
    requires -0x8000_0000 <= y < 0x8000_0000
    ensures Wrap32(x) == y <==> (x - y) % 0x1_0000_0000 == 0
  {
    var k := (x + TWO_31) / TWO_32;
    assert x - Wrap32(x) == TWO_32 * k;
    if (x - y) % TWO_32 == 0 {
      var d := (x - y) / TWO_32 - k;
      assert Wrap32(x) - y == TWO_32 * d;
    }
  }

  /** Conversion to long yields the one long that agrees modulo 2^64. */
  lemma LongConversion(x: int, y: int)
    requires -0x8000_0000_0000_0000 <= y < 0x8000_0000_0000_0000
    ensures Wrap64(x) == y <==> (x - y) % 0x1_0000_0000_0000_0000 == 0
  {
    var k := (x + TWO_63) / TWO_64;
    assert x - Wrap64(x) == TWO_64 * k;
    if (x - y) % TWO_64 == 0 {
      var d := (x - y) / TWO_64 - k;
      assert Wrap64(x) - y == TWO_64 * d;
    }
  }

  lemma CongTrans(a: int, b: int, c: int)
    requires Cong(a, b) && Cong(b, c)
    ensures Cong(a, c)
  {
    var k := CongWitness(a, b);
    var l := CongWitness(b, c);
    CongFrom(a, c, k + l);
  }

  lemma CongSym(a: int, b: int)
    requires Cong(a, b)
    ensures Cong(b, a)
  {
    var k := CongWitness(a, b);
    CongFrom(b, a, -k);
  }

  lemma CongAdd(a: int, b: int, c: int, d: int)
    requires Cong(a, b) && Cong(c, d)
    ensures Cong(a + c, b + d) && Cong(a - c, b - d)
  {
    var k := CongWitness(a, b);
    var l := CongWitness(c, d);
    CongFrom(a + c, b + d, k + l);
    CongFrom(a - c, b - d, k - l);
  }

  lemma CongMul(a: int, b: int, c: int, d: int)
    requires Cong(a, b) && Cong(c, d)
    ensures Cong(a * c, b * d)
  {
    var k := CongWitness(a, b);
    var l := CongWitness(c, d);
    calc {
      a * c;
      (b + TWO_32 * k) * (d + TWO_32 * l);
      b * d + TWO_32 * (b * l + k * d + k * (TWO_32 * l));
    }
    CongFrom(a * c, b * d, b * l + k * d + k * (TWO_32 * l));
  }

  /** C division: the quotient is truncated toward zero. */
  function TruncDiv(a: int, b: int): int
    requires b != 0
  {
    var q := Abs(a) / Abs(b);
    if (a < 0) != (b < 0) then -q else q
  }

  function TruncMod(a: int, b: int): int
    requires b != 0
  {
    a - b * TruncDiv(a, b)
  }

  function Abs(x: int): nat {
    if x < 0 then -x else x
  }

  /** Section 6.5.5 of C99: the remainder is smaller than the divisor and never has the sign
      opposite to the dividend. */
  ghost predicate IsTruncDivMod(a: int, b: int, q: int, r: int) {
    a == b * q + r && Abs(r) < Abs(b) && (a >= 0 ==> r >= 0) && (a <= 0 ==> r <= 0)
  }

  lemma TruncDivModMeets(a: int, b: int)
    requires b != 0
    ensures IsTruncDivMod(a, b, TruncDiv(a, b), TruncMod(a, b))
  {
    var n: int := Abs(b);
    var q: int := Abs(a) / n;
    var r: int := Abs(a) % n;
    assert Abs(a) == n * q + r;
    NegateProduct(n, q);
    assert b * TruncDiv(a, b) == if a < 0 then -(n * q) else n * q;
  }

  lemma NegateProduct(x: int, y: int)
    ensures -x * y == -(x * y) && x * -y == -(x * y) && -x * -y == x * y
  {
  }

  lemma MultipleAtLeast(b: int, d: int)
    requires d != 0
    ensures Abs(b * d) >= Abs(b)
  {
    if d > 0 { MulMonotone(1, d, Abs(b)); } else { MulMonotone(1, -d, Abs(b)); }
  }

  lemma MulMonotone(x: int, y: int, z: int)
    requires x <= y && 0 <= z
    ensures x * z <= y * z
  {
  }

  lemma TruncDivModUnique(a: int, b: int, q: int, r: int, q': int, r': int)
    requires IsTruncDivMod(a, b, q, r) && IsTruncDivMod(a, b, q', r')
    ensures q == q' && r == r'
  {
    assert b * q - b * q' == r' - r;
    if q != q' { MultipleAtLeast(b, q - q'); }
  }

  /** TruncDiv and TruncMod are exactly the pair the C standard describes. */
  lemma TruncDivMod(a: int, b: int, q: int, r: int)
    requires b != 0
    ensures (q == TruncDiv(a, b) && r == TruncMod(a, b)) <==> IsTruncDivMod(a, b, q, r)
  {
    TruncDivModMeets(a, b);
    if IsTruncDivMod(a, b, q, r) {
      TruncDivModUnique(a, b, q, r, TruncDiv(a, b), TruncMod(a, b));
    }
  }

  function Pow2(n: nat): (p: int)
    ensures p >= 1
  {
    if n == 0 then 1 else 2 * Pow2(n - 1)
  }

  /** Powers of two: the sum of two exponents is the product, and the first power is two. */
  lemma {:induction false} PowerOfSum(m: nat, n: nat)
    ensures Pow2(m + n) == Pow2(m) * Pow2(n) && Pow2(1) == 2
    decreases m
  {
    if m > 0 {
      PowerOfSum(m - 1, n);
      assert Pow2(m + n) == 2 * Pow2(m - 1 + n);
    }
  }

  datatype BitOp = BitAnd | BitOr | BitXor

  function OneBit(op: BitOp, x: bool, y: bool): bool {
    match op
    case BitAnd => x && y
    case BitOr => x || y
    case BitXor => x != y
  }

  /** Bit k of the infinite two's-complement expansion of x. */
  predicate BitAt(x: int, k: nat)
    decreases k
  {
    if k == 0 then x % 2 == 1 else BitAt(x / 2, k - 1)
  }

  /** The operator applied to the low w bits and to the sign, for operands in [-2^w, 2^w). */
  function Bitwise(op: BitOp, x: int, y: int, w: nat): int
    decreases w
  {
    if w == 0 then
      if OneBit(op, x < 0, y < 0) then -1 else 0
    else
      2 * Bitwise(op, x / 2, y / 2, w - 1) + if OneBit(op, x % 2 == 1, y % 2 == 1) then 1 else 0
  }

  lemma {:induction false} SignBits(x: int, k: nat)
    requires x == 0 || x == -1
    ensures BitAt(x, k) <==> x < 0
    decreases k
  {
    if k > 0 {
      SignBits(x / 2, k - 1);
    }
  }

  /** Bit k is the lowest bit of what is left after dropping k bits. */
  lemma {:induction false} BitIsQuotient(x: int, k: nat)
    ensures BitAt(x, k) <==> x / Pow2(k) % 2 == 1
    decreases k
  {
    if k > 0 {
      BitIsQuotient(x / 2, k - 1);
      DivideTwice(x, Pow2(k - 1));
    }
  }

  lemma DivideTwice(x: int, d: int)
    requires d > 0
    ensures x / 2 / d == x / (2 * d)
  {
    var q := x / 2 / d;
    var r := x / 2 - d * q;
    assert 0 <= r < d && x == 2 * (d * q + r) + x % 2;
    assert 2 * (d * q) == 2 * d * q;
    QuotientIs(x, 2 * d, q, 2 * r + x % 2);
  }

  lemma QuotientIs(x: int, d: int, q: int, r: int)
    requires d > 0 && x == d * q + r && 0 <= r < d
    ensures x / d == q
  {
    var e := x / d - q;
    assert d * e == d * (x / d) - d * q == r - x % d;
    if e != 0 { MultipleAtLeast(d, e); }
  }

  lemma {:induction false} BitwiseAct(op: BitOp, x: int, y: int, w: nat, k: nat)
    requires -Pow2(w) <= x < Pow2(w) && -Pow2(w) <= y < Pow2(w)
    ensures BitAt(Bitwise(op, x, y, w), k) <==> OneBit(op, BitAt(x, k), BitAt(y, k))
    ensures -Pow2(w) <= Bitwise(op, x, y, w) < Pow2(w)
    decreases w
  {
    if w == 0 {
      SignBits(x, k);
      SignBits(y, k);
      SignBits(Bitwise(op, x, y, w), k);
    } else {
      BitwiseAct(op, x / 2, y / 2, w - 1, if k == 0 then 0 else k - 1);
      assert Bitwise(op, x, y, w) / 2 == Bitwise(op, x / 2, y / 2, w - 1);
    }
  }

  /** Bit k of an operator's result is and, or, or exclusive or of the operands' bits k; the result
      stays within their width. */
  lemma BitwiseBits(op: BitOp, x: int, y: int, w: nat, k: nat)
    requires -Pow2(w) <= x < Pow2(w) && -Pow2(w) <= y < Pow2(w)
    ensures BitAt(Bitwise(BitAnd, x, y, w), k) <==> BitAt(x, k) && BitAt(y, k)
    ensures BitAt(Bitwise(BitOr, x, y, w), k) <==> BitAt(x, k) || BitAt(y, k)
    ensures BitAt(Bitwise(BitXor, x, y, w), k) <==> BitAt(x, k) != BitAt(y, k)
    ensures -Pow2(w) <= Bitwise(op, x, y, w) < Pow2(w)
  {
    BitwiseAct(op, x, y, w, k);
    BitwiseAct(BitAnd, x, y, w, k);
    BitwiseAct(BitOr, x, y, w, k);
    BitwiseAct(BitXor, x, y, w, k);
  }

  /** A number within a width is fixed by its bits up to that width. */
  lemma {:induction false} BitsDetermine(x: int, y: int, w: nat)
    requires -Pow2(w) <= x < Pow2(w) && -Pow2(w) <= y < Pow2(w)
    requires forall k: nat :: k <= w ==> (BitAt(x, k) <==> BitAt(y, k))
    ensures x == y
    decreases w
  {
    assert BitAt(x, 0) <==> BitAt(y, 0);
    if w > 0 {
      forall k: nat | k <= w - 1 ensures BitAt(x / 2, k) <==> BitAt(y / 2, k) {
        assert BitAt(x, k + 1) <==> BitAt(y, k + 1);
      }
      BitsDetermine(x / 2, y / 2, w - 1);
    }
  }

  /** ~x flips every bit. */
  lemma {:induction false} NotBits(x: int, k: nat)
    ensures BitAt(-x - 1, k) <==> !BitAt(x, k)
    decreases k
  {
    if k > 0 {
      assert (-x - 1) / 2 == -(x / 2) - 1;
      NotBits(x / 2, k - 1);
    }
  }
}
