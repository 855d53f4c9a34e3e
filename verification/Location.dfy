/** The meaning of decode_location, one location operation at a time: opcodes, their effect on the
    bounded stack, the next operation index, and runs. */
module Location {
  import opened Arith
  import opened BoundedStack
  import opened Options

  datatype UnOp = Abs | Neg | Not

  datatype BinOp =
    | And | Or | Xor
    | Plus | Minus | Mul | Div | Mod
    | Shl | Shr | Shra
    | Le | Ge | Eq | Lt | Gt | Ne

  type Literal = k: int | 0 <= k <= 31

  /** Opcodes, grouped as the switch groups them. ConstU and ConstS stand for the address and
      unsigned constant opcodes and for the signed ones; RegisterOffset, Register and Deref for
      the opcodes the decoder gives up on; Other for every unlisted opcode. */
  datatype Atom =
    | Lit(k: Literal)
    | ConstU | ConstS | FbReg
    | Dup | Drop | Over | Pick | Swap | Rot
    | Un(u: UnOp) | Bin(b: BinOp) | PlusUconst
    | Bra | Skip | Piece | Nop
    | RegisterOffset | Register | Deref | Other

  /** One decoded location operation: lr_atom, lr_number, lr_offset. */
  datatype Loc = Loc(atom: Atom, number: ULong, offset: ULong)

  /** A location expression; its length is the 16-bit field ld_cents. */
  type Program = p: seq<Loc> | |p| <= 0xFFFF

  // ---------------------------------------------------------------- arithmetic

  /** The value an operator computes from the two popped entries before it is stored; None where
      C leaves the result undefined. */
  function Compute(b: BinOp, second: int, first: int): Option<int> {
    match b
    case And => Some(Bitwise(BitAnd, second, first, 63))
    case Or => Some(Bitwise(BitOr, second, first, 63))
    case Xor => Some(Bitwise(BitXor, second, first, 63))
    case Plus => Some(second + first)
    case Minus => Some(second - first)
    case Mul => Some(second * first)
    case Div => if first == 0 then None else Some(TruncDiv(second, first))
    case Mod => if first == 0 then None else Some(TruncMod(second, first))
    case Shl => if 0 <= first < 64 then Some(second * Pow2(first)) else None
    case Shr => if 0 <= first < 64 then Some(second % TWO_64 / Pow2(first)) else None
    case Shra => if 0 <= first < 64 then Some(second / Pow2(first)) else None
    case Le => Some(if first <= second then 1 else 0)
    case Ge => Some(if first >= second then 1 else 0)
    case Eq => Some(if first == second then 1 else 0)
    case Lt => Some(if first < second then 1 else 0)
    case Gt => Some(if first > second then 1 else 0)
    case Ne => Some(if first != second then 1 else 0)
  }

  function ComputeUn(u: UnOp, first: int): Option<int> {
    match u
    case Abs => if first == -TWO_31 then None else Some(Arith.Abs(first))
    case Neg => Some(first * -1)
    case Not => Some(-first - 1)
  }

  // ---------------------------------------------------------------- pick

  /** The transfer loop of pick: n tops moved from s to t. */
  function Transfer(s: Cells, t: Cells, n: nat): (Cells, Cells)
    decreases n
  {
    if n == 0 then (s, t) else Transfer(Pop(s), Push(t, Top(s)), n - 1)
  }

  /** Pick with n transfers out and n transfers back. */
  function PickN(s: Cells, n: nat): Cells {
    var (low, temp) := Transfer(s, [], n);
    var dup := Top(low);
    var (_, back) := Transfer(temp, low, n);
    Push(back, dup)
  }

  /** The loop bound of pick as written reads locations[i] with the inner i: the transfer count is
      the first index from k on that is no smaller than the operand of the operation there. None
      when the search runs past the last operation. */
  function ShadowedCount(p: Program, k: nat): (r: Option<nat>)
    ensures r.Some? ==> k <= r.value < |p| && r.value >= p[r.value].number
    ensures r.Some? ==> forall j :: k <= j < r.value ==> j < p[j].number
    ensures r.None? ==> forall j :: k <= j < |p| ==> j < p[j].number
    decreases |p| - k
  {
    if k >= |p| then None
    else if k < p[k].number then ShadowedCount(p, k + 1)
    else Some(k)
  }

  // ---------------------------------------------------------------- one operation

  datatype Effect = Continue(cells: Cells) | GiveUp | Undefined

  function Binary(b: BinOp, s: Cells): Effect {
    var first := Top(s);
    var second := Top(Pop(s));
    match Compute(b, second, first)
    case None => Undefined
    case Some(v) => Continue(Push(Pop(Pop(s)), Wrap64(v)))
  }

  function Unary(u: UnOp, s: Cells): Effect {
    match ComputeUn(u, Top(s))
    case None => Undefined
    case Some(v) => Continue(Push(Pop(s), Wrap64(v)))
  }

  predicate Shuffles(a: Atom) {
    a.Dup? || a.Drop? || a.Over? || a.Swap? || a.Rot?
  }

  /** The opcodes that only rearrange the top entries. */
  function Shuffle(a: Atom, s: Cells): Cells
    requires Shuffles(a)
  {
    var first, second, third := Top(s), Top(Pop(s)), Top(Pop(Pop(s)));
    match a
    case Dup => Push(s, first)
    case Drop => Pop(s)
    case Over => Push(Push(Push(Pop(Pop(s)), second), first), second)
    case Swap => Push(Push(Pop(Pop(s)), first), second)
    case Rot => Push(Push(Push(Pop(Pop(Pop(s))), first), third), second)
  }

  /** The literal, constant or frame offset an operation pushes. */
  function Pushed(l: Loc): Option<Long> {
    match l.atom
    case Lit(k) => Some(k)
    case ConstU => Some(Wrap64(l.number))
    case ConstS => Some(Wrap64(l.number))
    case FbReg => Some(Wrap64(l.number))
    case _ => None
  }

  predicate GivesUp(a: Atom) {
    a.RegisterOffset? || a.Register? || a.Deref? || a.Other?
  }

  /** Effect of operation i on the stack. */
  function Apply(p: Program, i: nat, s: Cells): Effect
    requires i < |p|
  {
    var n := p[i].number;
    var a := p[i].atom;
    if GivesUp(a) then GiveUp
    else if Shuffles(a) then Continue(Shuffle(a, s))
    else if Pushed(p[i]).Some? then Continue(Push(s, Pushed(p[i]).value))
    else
      match a
      case Pick =>
        (match ShadowedCount(p, 0)
         case None => Undefined
         case Some(k) => Continue(PickN(s, k)))
      case Un(u) => Unary(u, s)
      case Bin(b) => Binary(b, s)
      case PlusUconst => Continue(Push(Pop(s), Wrap64(Top(s) + n)))
      case Bra => Continue(if Top(s) == 0 then s else Pop(s))
      case _ => Continue(s)
  }

  // ---------------------------------------------------------------- jumps

  /** Skip distance: the operand truncated to int. */
  function SkipBytes(l: Loc): CInt {
    Wrap32(l.number)
  }

  /** Skip target: an unsigned int, relative to the operation's own offset. */
  function SkipTarget(l: Loc): int {
    (l.offset + SkipBytes(l)) % TWO_32
  }

  /** A 64-bit operand as a signed number of bytes: its low 32 bits in two's complement. */
  function Displacement(number: ULong): int {
    var low := number % 0x1_0000_0000;
    if low < 0x8000_0000 then low else low - 0x1_0000_0000
  }

  lemma SkipIsDisplacement(l: Loc)
    ensures SkipBytes(l) == Displacement(l.number)
  {
    IntConversion(l.number, Displacement(l.number));
  }

  /** The operation with offset t nearest to i, before it or after it; |p| when there is none. */
  ghost predicate Nearest(p: Program, i: nat, back: bool, t: int, k: nat)
    requires i < |p|
  {
    if k == |p| then forall j :: 0 <= j < |p| && (if back then j < i else j > i) ==> p[j].offset != t
    else
      && k < |p| && p[k].offset == t
      && if back then k < i && forall j :: k < j < i ==> p[j].offset != t
         else k > i && forall j :: i < j < k ==> p[j].offset != t
  }

  /** Nearest operation before j with the given offset, or -1. */
  function SearchBack(p: Program, target: int, j: nat): (r: int)
    requires j <= |p|
    ensures -1 <= r < j
    ensures r >= 0 ==> p[r].offset == target
    ensures forall k :: r < k < j ==> p[k].offset != target
  {
    if j == 0 then -1
    else if p[j - 1].offset == target then j - 1
    else SearchBack(p, target, j - 1)
  }

  /** Nearest operation from j on with the given offset, or one past the end. */
  function SearchForward(p: Program, target: int, j: nat): (r: nat)
    requires j <= |p|
    ensures j <= r <= |p|
    ensures r < |p| ==> p[r].offset == target
    ensures forall k :: j <= k < r ==> p[k].offset != target
    decreases |p| - j
  {
    if j == |p| then j
    else if p[j].offset == target then j
    else SearchForward(p, target, j + 1)
  }

  /** Index of the operation executed after i; |p| when the loop ends. */
  function NextIndex(p: Program, i: nat): (r: nat)
    requires i < |p|
    ensures r <= |p|
  {
    if p[i].atom != Skip then i + 1
    else if SkipBytes(p[i]) < 0 then
      var j := SearchBack(p, SkipTarget(p[i]), i);
      if j < 0 then |p| else j
    else SearchForward(p, SkipTarget(p[i]), i + 1)
  }

  /** A skip goes to the nearest operation, backward for a negative operand and forward otherwise,
      whose offset is its own plus the operand as an unsigned int. */
  lemma SkipLands(p: Program, i: nat, k: nat)
    requires i < |p| && p[i].atom == Skip
    ensures NextIndex(p, i) == k <==>
      var d := Displacement(p[i].number); Nearest(p, i, d < 0, (p[i].offset + d) % 0x1_0000_0000, k)
  {
    SkipIsDisplacement(p[i]);
  }

  // ---------------------------------------------------------------- runs

  /** Running at an operation; or left the function with an offset, by reaching the end or by
      giving up; or met a step that C leaves undefined. */
  datatype Config =
    | Running(pc: nat, cells: Cells, frameRel: bool)
    | Finished(offset: Long, frameRel: bool, gaveUp: bool)
    | Undef

  function Start(init: Option<Long>): Config {
    Running(0, if init.Some? then Push([], init.value) else [], false)
  }

  function Step(p: Program, c: Config): Config {
    if !c.Running? then c
    else if c.pc >= |p| then Finished(Top(c.cells), c.frameRel, false)
    else
      match Apply(p, c.pc, c.cells)
      case Undefined => Undef
      case GiveUp => Finished(-1, c.frameRel, true)
      case Continue(cells) => Running(NextIndex(p, c.pc), cells, c.frameRel || p[c.pc].atom == FbReg)
  }

  /** At an operation: a give-up opcode returns, and any step that goes on follows NextIndex. */
  lemma StepShape(p: Program, c: Config)
    requires c.Running? && c.pc < |p|
    ensures Step(p, c).Finished? <==> GivesUp(p[c.pc].atom)
    ensures Step(p, c).Running? ==> Step(p, c).pc == NextIndex(p, c.pc)
  {
  }

  function Steps(p: Program, c: Config, n: nat): Config
    decreases n
  {
    if n == 0 then c else Steps(p, Step(p, c), n - 1)
  }

  lemma {:induction false} StepsSplit(p: Program, c: Config, m: nat, n: nat)
    ensures Steps(p, c, m + n) == Steps(p, Steps(p, c, m), n)
    decreases m
  {
    if m > 0 {
      StepsSplit(p, Step(p, c), m - 1, n);
    }
  }

  lemma StepsNext(p: Program, c: Config, n: nat)
    ensures Steps(p, c, n + 1) == Step(p, Steps(p, c, n))
  {
    StepsSplit(p, c, n, 1);
    assert Steps(p, Steps(p, c, n), 1) == Steps(p, Step(p, Steps(p, c, n)), 0);
  }

  lemma {:induction false} StepsStop(p: Program, c: Config, n: nat)
    requires !c.Running?
    ensures Steps(p, c, n) == c
    decreases n
  {
    if n > 0 {
      StepsStop(p, c, n - 1);
    }
  }

  lemma StepsStay(p: Program, c: Config, m: nat, n: nat)
    requires m <= n && !Steps(p, c, m).Running?
    ensures Steps(p, c, n) == Steps(p, c, m)
  {
    StepsSplit(p, c, m, n - m);
    StepsStop(p, Steps(p, c, m), n - m);
  }

  lemma FinishesAtEnd(p: Program, c: Config, n: nat)
    requires Steps(p, c, n).Running? && Steps(p, c, n).pc >= |p|
    ensures var d := Steps(p, c, n); Steps(p, c, n + 1) == Finished(Top(d.cells), d.frameRel, false)
  {
    StepsNext(p, c, n);
  }
}
