/** Compiling expression trees to location expressions and decoding them. */
module LocationCompile {
  import opened Arith
  import opened BoundedStack
  import opened Location
  import opened LocationHalting
  import opened Options

  datatype Prefix = AbsoluteValue | Negate | Complement

  datatype Infix =
    | BitsAnd | BitsOr | BitsXor
    | Sum | Difference | Product | Quotient | Remainder
    | ShiftLeft | ShiftRight | ShiftRightArith
    | LessEq | GreaterEq | Equal | Less | Greater | NotEqual

  datatype Expr =
    | Small(k: Literal)
    | Constant(c: Long)
    | FrameOffset(c: Long)
    | Apply1(f: Prefix, e: Expr)
    | Apply2(g: Infix, left: Expr, right: Expr)
    | PlusConstant(e: Expr, n: ULong)

  function Truth(b: bool): int {
    if b then 1 else 0
  }

  /** The value of `x g y`; None where it is undefined. */
  function Denote2(g: Infix, x: int, y: int): Option<int> {
    match g
    case BitsAnd => Some(Bitwise(BitAnd, x, y, 63))
    case BitsOr => Some(Bitwise(BitOr, x, y, 63))
    case BitsXor => Some(Bitwise(BitXor, x, y, 63))
    case Sum => Some(x + y)
    case Difference => Some(x - y)
    case Product => Some(x * y)
    case Quotient => if y == 0 then None else Some(TruncDiv(x, y))
    case Remainder => if y == 0 then None else Some(TruncMod(x, y))
    case ShiftLeft => if 0 <= y < 64 then Some(x * Pow2(y)) else None
    case ShiftRight => if 0 <= y < 64 then Some(x % TWO_64 / Pow2(y)) else None
    case ShiftRightArith => if 0 <= y < 64 then Some(x / Pow2(y)) else None
    case LessEq => Some(Truth(x <= y))
    case GreaterEq => Some(Truth(x >= y))
    case Equal => Some(Truth(x == y))
    case Less => Some(Truth(x < y))
    case Greater => Some(Truth(x > y))
    case NotEqual => Some(Truth(x != y))
  }

  function Denote1(f: Prefix, x: int): int {
    match f
    case AbsoluteValue => if x < 0 then -x else x
    case Negate => -x
    case Complement => -x - 1
  }

  /** A value that fits an int, or nothing. */
  function AsInt(v: Option<int>): Option<int> {
    if v.Some? && FitsInt(v.value) then v else None
  }

  /** The tree's value; None if a divisor is zero, a shift count is out of range, or the value of
      some subtree is not a 32-bit int. */
  function Value(e: Expr): (v: Option<int>)
    ensures v.Some? ==> FitsInt(v.value)
  {
    match e
    case Small(k) => Some(k)
    case Constant(c) => AsInt(Some(c))
    case FrameOffset(c) => AsInt(Some(c))
    case Apply1(f, a) =>
      (match Value(a)
       case None => None
       case Some(x) => AsInt(Some(Denote1(f, x))))
    case Apply2(g, a, b) =>
      (match (Value(a), Value(b))
       case (Some(x), Some(y)) => AsInt(Denote2(g, x, y))
       case _ => None)
    case PlusConstant(a, n) =>
      (match Value(a)
       case None => None
       case Some(x) => AsInt(Some(x + n)))
  }

  predicate HasFrame(e: Expr) {
    match e
    case Small(_) => false
    case Constant(_) => false
    case FrameOffset(_) => true
    case Apply1(_, a) => HasFrame(a)
    case Apply2(_, a, b) => HasFrame(a) || HasFrame(b)
    case PlusConstant(a, _) => HasFrame(a)
  }

  /** Stack entries used while the tree is evaluated. */
  function Height(e: Expr): (h: nat)
    ensures h >= 1
  {
    match e
    case Small(_) => 1
    case Constant(_) => 1
    case FrameOffset(_) => 1
    case Apply1(_, a) => Height(a)
    case Apply2(_, a, b) => if Height(a) > Height(b) + 1 then Height(a) else Height(b) + 1
    case PlusConstant(a, _) => Height(a)
  }

  datatype Instr = Instr(atom: Atom, number: ULong)

  /** The opcode for an operator. Because the decoder compares top against second, the ordering
      operators use the mirrored opcodes. */
  function Opcode(g: Infix): Atom {
    match g
    case BitsAnd => Bin(And)
    case BitsOr => Bin(Or)
    case BitsXor => Bin(Xor)
    case Sum => Bin(Plus)
    case Difference => Bin(Minus)
    case Product => Bin(Mul)
    case Quotient => Bin(Div)
    case Remainder => Bin(Mod)
    case ShiftLeft => Bin(Shl)
    case ShiftRight => Bin(Shr)
    case ShiftRightArith => Bin(Shra)
    case LessEq => Bin(Ge)
    case GreaterEq => Bin(Le)
    case Equal => Bin(Eq)
    case Less => Bin(Gt)
    case Greater => Bin(Lt)
    case NotEqual => Bin(Ne)
  }

  function Opcode1(f: Prefix): Atom {
    match f
    case AbsoluteValue => Un(Abs)
    case Negate => Un(Neg)
    case Complement => Un(Not)
  }

  /** Postfix code. */
  function Code(e: Expr): seq<Instr> {
    match e
    case Small(k) => [Instr(Lit(k), 0)]
    case Constant(c) => [Instr(ConstS, c % TWO_64)]
    case FrameOffset(c) => [Instr(FbReg, c % TWO_64)]
    case Apply1(f, a) => Code(a) + [Instr(Opcode1(f), 0)]
    case Apply2(g, a, b) => Code(a) + Code(b) + [Instr(Opcode(g), 0)]
    case PlusConstant(a, n) => Code(a) + [Instr(PlusUconst, n)]
  }

  /** The expression holds the code from index at on; byte offsets are free. */
  ghost predicate Carries(p: Program, at: nat, code: seq<Instr>) {
    at + |code| <= |p|
    && forall k :: at <= k < at + |code| ==> p[k].atom == code[k - at].atom && p[k].number == code[k - at].number
  }

  lemma CarriesSplit(p: Program, at: nat, first: seq<Instr>, second: seq<Instr>)
    requires Carries(p, at, first + second)
    ensures Carries(p, at, first) && Carries(p, at + |first|, second)
  {
  }

  lemma OneStep(p: Program, at: nat, s: Cells, frameRel: bool, s': Cells)
    requires at < |p| && Apply(p, at, s) == Continue(s') && p[at].atom != Skip
    ensures Steps(p, Running(at, s, frameRel), 1)
         == Running(at + 1, s', frameRel || p[at].atom == FbReg)
  {
    var c := Running(at, s, frameRel);
    assert Steps(p, c, 1) == Steps(p, Step(p, c), 0);
  }

  /** Code followed by one more operator. */
  lemma ThenOperator(p: Program, c: Config, n: nat, d: Config, s': Cells)
    requires Steps(p, c, n) == d && d.Running? && d.pc < |p|
    requires Apply(p, d.pc, d.cells) == Continue(s') && !p[d.pc].atom.Skip? && !p[d.pc].atom.FbReg?
    ensures Steps(p, c, n + 1) == Running(d.pc + 1, s', d.frameRel)
  {
    hide Step, Apply;
    OneStep(p, d.pc, d.cells, d.frameRel, s');
    StepsSplit(p, c, n, 1);
  }

  lemma WrapFits(x: int)
    requires FitsInt(x)
    ensures Wrap32(x) == x && Wrap64(x) == x
  {
  }

  lemma PushTops(s: Cells, x: int, y: int)
    requires FitsInt(x) && FitsInt(y) && |s| + 2 <= STACK_MAX
    ensures Top(s + [x]) == x && Pop(s + [x]) == s
    ensures Top(s + [x] + [y]) == y && Pop(s + [x] + [y]) == s + [x]
  {
    WrapFits(x);
    WrapFits(y);
  }

  lemma OperatorComputes(g: Infix, x: int, y: int)
    ensures Opcode(g).Bin? && Compute(Opcode(g).b, x, y) == Denote2(g, x, y)
  {
  }

  lemma BinaryOnTops(b: BinOp, s: Cells, x: int, y: int, v: int)
    requires FitsInt(x) && FitsInt(y) && FitsInt(v) && |s| + 2 <= STACK_MAX
    requires Compute(b, x, y) == Some(v)
    ensures Binary(b, s + [x] + [y]) == Continue(s + [v])
  {
    PushTops(s, x, y);
    WrapFits(v);
  }

  lemma UnaryOnTop(f: Prefix, s: Cells, x: int)
    requires FitsInt(x) && FitsInt(Denote1(f, x)) && |s| + 1 <= STACK_MAX
    ensures Opcode1(f).Un? && Unary(Opcode1(f).u, s + [x]) == Continue(s + [Denote1(f, x)])
  {
    WrapFits(x);
    WrapFits(Denote1(f, x));
    assert Pop(s + [x]) == s;
  }

  lemma PlusOnTop(s: Cells, x: int, n: ULong)
    requires FitsInt(x) && FitsInt(x + n) && |s| + 1 <= STACK_MAX
    ensures Push(Pop(s + [x]), Wrap64(Top(s + [x]) + n)) == s + [x + n]
  {
    WrapFits(x);
    WrapFits(x + n);
    assert Pop(s + [x]) == s;
  }

  lemma ConstantBack(c: Long)
    ensures Wrap64(c % TWO_64) == c
  {
  }

  /** From any stack with room for the tree, anywhere in an expression, the code of e pushes exactly
      the tree's value and leaves the entries below alone. */
  ghost predicate Computes(p: Program, at: nat, e: Expr, s: Cells, frameRel: bool)
    requires Value(e).Some?
  {
    Steps(p, Running(at, s, frameRel), |Code(e)|)
      == Running(at + |Code(e)|, s + [Value(e).value], frameRel || HasFrame(e))
  }

  /** Compiler correctness: the postfix code of a tree computes the tree. */
  lemma {:induction false} CodeComputes(p: Program, at: nat, e: Expr, s: Cells, frameRel: bool)
    requires Carries(p, at, Code(e)) && Value(e).Some? && |s| + Height(e) <= STACK_MAX
    ensures Computes(p, at, e, s, frameRel)
    decreases e, 1
  {
    hide Step;
    match e {
      case Apply1(f, a) => UnaryCode(p, at, e, s, frameRel);
      case Apply2(g, a, b) => BinaryCode(p, at, e, s, frameRel);
      case PlusConstant(a, n) => PlusCode(p, at, e, s, frameRel);
      case _ => LeafCode(p, at, e, s, frameRel);
    }
  }

  lemma LeafCode(p: Program, at: nat, e: Expr, s: Cells, frameRel: bool)
    requires e.Small? || e.Constant? || e.FrameOffset?
    requires Carries(p, at, Code(e)) && Value(e).Some? && |s| + Height(e) <= STACK_MAX
    ensures Computes(p, at, e, s, frameRel)
  {
    if !e.Small? { ConstantBack(e.c); }
    assert p[at].atom == Code(e)[0].atom && p[at].number == Code(e)[0].number;
    OneStep(p, at, s, frameRel, s + [Value(e).value]);
  }

  lemma {:induction false} UnaryCode(p: Program, at: nat, e: Expr, s: Cells, frameRel: bool)
    requires e.Apply1?
    requires Carries(p, at, Code(e)) && Value(e).Some? && |s| + Height(e) <= STACK_MAX
    ensures Computes(p, at, e, s, frameRel)
    decreases e, 0
  {
    hide Step;
    var a := e.e;
    CarriesSplit(p, at, Code(a), [Instr(Opcode1(e.f), 0)]);
    CodeComputes(p, at, a, s, frameRel);
    LastInstr(p, at, Code(a), Instr(Opcode1(e.f), 0));
    UnaryFinish(p, Running(at, s, frameRel), |Code(a)|, e.f, s, Value(a).value);
  }

  /** The last instruction of carried code. */
  lemma LastInstr(p: Program, at: nat, code: seq<Instr>, last: Instr)
    requires Carries(p, at, code + [last])
    ensures at + |code| < |p| && p[at + |code|].atom == last.atom && p[at + |code|].number == last.number
  {
    assert (code + [last])[at + |code| - at] == last;
  }

  lemma UnaryFinish(p: Program, c: Config, n: nat, f: Prefix, s: Cells, x: int)
    requires FitsInt(x) && FitsInt(Denote1(f, x)) && |s| < STACK_MAX
    requires var d := Steps(p, c, n); d.Running? && d.pc < |p| && d.cells == s + [x] && p[d.pc].atom == Opcode1(f)
    ensures var d := Steps(p, c, n); Steps(p, c, n + 1) == Running(d.pc + 1, s + [Denote1(f, x)], d.frameRel)
  {
    hide Step;
    var d := Steps(p, c, n);
    UnaryOnTop(f, s, x);
    ThenOperator(p, c, n, d, s + [Denote1(f, x)]);
  }

  lemma {:induction false} PlusCode(p: Program, at: nat, e: Expr, s: Cells, frameRel: bool)
    requires e.PlusConstant?
    requires Carries(p, at, Code(e)) && Value(e).Some? && |s| + Height(e) <= STACK_MAX
    ensures Computes(p, at, e, s, frameRel)
    decreases e, 0
  {
    hide Step;
    var a := e.e;
    CarriesSplit(p, at, Code(a), [Instr(PlusUconst, e.n)]);
    CodeComputes(p, at, a, s, frameRel);
    LastInstr(p, at, Code(a), Instr(PlusUconst, e.n));
    PlusFinish(p, Running(at, s, frameRel), |Code(a)|, s, Value(a).value, e.n);
  }

  lemma PlusFinish(p: Program, c: Config, n: nat, s: Cells, x: int, k: ULong)
    requires FitsInt(x) && FitsInt(x + k) && |s| < STACK_MAX
    requires var d := Steps(p, c, n);
      d.Running? && d.pc < |p| && d.cells == s + [x] && p[d.pc].atom == PlusUconst && p[d.pc].number == k
    ensures var d := Steps(p, c, n); Steps(p, c, n + 1) == Running(d.pc + 1, s + [x + k], d.frameRel)
  {
    hide Step;
    var d := Steps(p, c, n);
    PlusOnTop(s, x, k);
    ThenOperator(p, c, n, d, s + [x + k]);
  }

  lemma {:induction false} BinaryCode(p: Program, at: nat, e: Expr, s: Cells, frameRel: bool)
    requires e.Apply2?
    requires Carries(p, at, Code(e)) && Value(e).Some? && |s| + Height(e) <= STACK_MAX
    ensures Computes(p, at, e, s, frameRel)
    decreases e, 0
  {
    hide Step, Steps, Denote2, Opcode;
    var a, b := e.left, e.right;
    var x, y := Value(a).value, Value(b).value;
    CarriesSplit(p, at, Code(a) + Code(b), [Instr(Opcode(e.g), 0)]);
    CarriesSplit(p, at, Code(a), Code(b));
    LastInstr(p, at, Code(a) + Code(b), Instr(Opcode(e.g), 0));
    CodeComputes(p, at, a, s, frameRel);
    CodeComputes(p, at + |Code(a)|, b, s + [x], frameRel || HasFrame(a));
    OperandsMeet(p, at, a, b, s, frameRel);
    BinaryFinish(p, Running(at, s, frameRel), |Code(a)| + |Code(b)|, e.g, s, x, y, Value(e).value);
  }

  lemma OperandsMeet(p: Program, at: nat, a: Expr, b: Expr, s: Cells, frameRel: bool)
    requires Value(a).Some? && Value(b).Some? && Computes(p, at, a, s, frameRel)
    requires Computes(p, at + |Code(a)|, b, s + [Value(a).value], frameRel || HasFrame(a))
    ensures Steps(p, Running(at, s, frameRel), |Code(a)| + |Code(b)|)
         == Running(at + |Code(a)| + |Code(b)|, s + [Value(a).value] + [Value(b).value],
                    frameRel || HasFrame(a) || HasFrame(b))
  {
    hide Step;
    StepsSplit(p, Running(at, s, frameRel), |Code(a)|, |Code(b)|);
  }

  lemma BinaryFinish(p: Program, c: Config, n: nat, g: Infix, s: Cells, x: int, y: int, v: int)
    requires FitsInt(x) && FitsInt(y) && FitsInt(v) && |s| + 2 <= STACK_MAX && Denote2(g, x, y) == Some(v)
    requires var d := Steps(p, c, n);
      d.Running? && d.pc < |p| && d.cells == s + [x] + [y] && p[d.pc].atom == Opcode(g)
    ensures var d := Steps(p, c, n); Steps(p, c, n + 1) == Running(d.pc + 1, s + [v], d.frameRel)
  {
    hide Step, Compute, Denote2;
    var d := Steps(p, c, n);
    OperatorComputes(g, x, y);
    BinaryOnTops(Opcode(g).b, s, x, y, v);
    ThenOperator(p, c, n, d, s + [v]);
  }

  /** A location expression that is exactly the code of a tree decodes to the tree's value, and is
      frame-relative exactly when the tree mentions a frame offset. */
  lemma CompiledDecodes(p: Program, e: Expr)
    requires |p| == |Code(e)| && Carries(p, 0, Code(e)) && Value(e).Some? && Height(e) <= STACK_MAX
    ensures Halts(p)
    ensures Steps(p, Start(None), |p| + 1) == Finished(Value(e).value, HasFrame(e), false)
  {
    hide Step;
    CodeComputes(p, 0, e, [], false);
    FinishesAtEnd(p, Start(None), |p|);
    WrapFits(Value(e).value);
    FinishedIsFinal(p, None, |p| + 1);
  }
}
