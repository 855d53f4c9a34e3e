/** The decoder against an ideal machine: an unbounded stack of unbounded integers. */
module LocationIdeal {
  import opened Arith
  import opened BoundedStack
  import opened Location
  import opened LocationShuffle
  import opened Options

  datatype Ideal = Ideal(pc: nat, cells: seq<int>, frameRel: bool)

  /** Entries an operation needs on the stack. */
  function Need(p: Program, a: Atom): nat {
    if Shuffles(a) then Depth(a)
    else
      match a
      case Pick => (match ShadowedCount(p, 0) case None => 0 case Some(k) => k + 1)
      case Un(_) => 1
      case Bin(_) => 2
      case PlusUconst => 1
      case Bra => 1
      case _ => 0
  }

  /** Effect of operation i on unbounded integers; None when it gives up or is undefined. */
  function IdealApply(p: Program, i: nat, t: seq<int>): Option<seq<int>>
    requires i < |p| && Need(p, p[i].atom) <= |t|
  {
    var a, n := p[i].atom, p[i].number;
    if GivesUp(a) then None
    else if Shuffles(a) then Some(Standard(a, t))
    else
      match a
      case Lit(k) => Some(t + [k])
      case ConstU => Some(t + [n])
      case ConstS => Some(t + [Wrap64(n)])
      case FbReg => Some(t + [Wrap64(n)])
      case Pick =>
        (match ShadowedCount(p, 0)
         case None => None
         case Some(k) => Some(t + [Entry(t, k)]))
      case Un(u) =>
        (match ComputeUn(u, t[|t| - 1])
         case None => None
         case Some(v) => Some(t[..|t| - 1] + [v]))
      case Bin(b) =>
        (match Compute(b, t[|t| - 2], t[|t| - 1])
         case None => None
         case Some(v) => Some(t[..|t| - 2] + [v]))
      case PlusUconst => Some(t[..|t| - 1] + [t[|t| - 1] + n])
      case Bra => Some(if t[|t| - 1] == 0 then t else t[..|t| - 1])
      case _ => Some(t)
  }

  /** The operation is available, defined, and keeps the depth between its need and 1000. */
  predicate DepthOk(p: Program, c: Ideal) {
    && c.pc < |p|
    && Need(p, p[c.pc].atom) <= |c.cells| <= STACK_MAX
    && IdealApply(p, c.pc, c.cells).Some?
    && |IdealApply(p, c.pc, c.cells).value| <= STACK_MAX
  }

  function IdealStep(p: Program, c: Ideal): Ideal {
    if DepthOk(p, c) then
      Ideal(NextIndex(p, c.pc), IdealApply(p, c.pc, c.cells).value, c.frameRel || p[c.pc].atom == FbReg)
    else c
  }

  function IdealSteps(p: Program, c: Ideal, n: nat): Ideal
    decreases n
  {
    if n == 0 then c else IdealStep(p, IdealSteps(p, c, n - 1))
  }

  /** Constants, frame offsets, shuffles, skips and the ring operators. */
  predicate RingAtom(a: Atom) {
    || a.Lit? || a.ConstU? || a.ConstS? || a.FbReg? || Shuffles(a) || a.Pick?
    || a in {Un(Neg), Un(Not), Bin(Plus), Bin(Minus), Bin(Mul), PlusUconst, Skip, Piece, Nop}
  }

  /** Every entry the next operation reads is an int. */
  predicate ReadsFit(p: Program, c: Ideal)
    requires DepthOk(p, c)
  {
    TopFits(c.cells, Need(p, p[c.pc].atom))
  }

  /** A step on which the two machines are shown to stay together. */
  predicate Tracked(p: Program, c: Ideal) {
    DepthOk(p, c) && (RingAtom(p[c.pc].atom) || ReadsFit(p, c))
  }

  /** Same depth, and entries that agree modulo 2^32. */
  ghost predicate Related(m: seq<int>, t: seq<int>) {
    |m| == |t| && forall k :: 0 <= k < |m| ==> Cong(m[k], t[k])
  }

  lemma RelatedTop(m: Cells, t: seq<int>)
    requires Related(m, t) && t != []
    ensures Cong(Top(m), t[|t| - 1]) && (FitsInt(t[|t| - 1]) ==> Top(m) == t[|t| - 1])
    ensures Related(Pop(m), t[..|t| - 1])
  {
    var x, y := m[|m| - 1], t[|t| - 1];
    Wrap32Cong(x);
    CongTrans(Top(m), x, y);
    CongIffSameInt(x, y);
    WrapOnce(y);
  }

  lemma RelatedPush(m: Cells, t: seq<int>, x: int, y: int)
    requires Related(m, t) && Cong(x, y) && |m| < STACK_MAX
    ensures Related(Push(m, Wrap64(x)), t + [y])
  {
    Wrap64Cong(x);
    CongTrans(Wrap64(x), x, y);
  }

  lemma CongRefl(x: int)
    ensures Cong(x, x)
  {
  }

  lemma ReadCong(x: int, y: int)
    requires Cong(x, y)
    ensures Cong(Wrap32(x), y)
  {
    Wrap32Cong(x);
    CongTrans(Wrap32(x), x, y);
  }

  lemma RelatedConcat(m: seq<int>, t: seq<int>, u: seq<int>, v: seq<int>)
    requires Related(m, t) && Related(u, v)
    ensures Related(m + u, t + v)
  {
  }

  lemma ShuffleTracks(a: Atom, m: Cells, t: seq<int>)
    requires Shuffles(a) && Related(m, t) && Depth(a) <= |t| && |m| <= STACK_MAX
    requires |Standard(a, t)| <= STACK_MAX
    ensures Related(Shuffle(a, m), Standard(a, t))
  {
    ShuffleCuts(a, m);
    RearrangedTracks(a, m, t);
  }

  lemma RearrangedTracks(a: Atom, m: seq<int>, t: seq<int>)
    requires Shuffles(a) && Related(m, t) && Depth(a) <= |t|
    ensures Related(Rearranged(a, m, true), Rearranged(a, t, false))
  {
    var n := |m|;
    var m1, t1 := Wrap32(m[n - 1]), t[n - 1];
    ReadCong(m[n - 1], t1);
    if a.Dup? || a.Drop? {
      RelatedConcat(m, t, [m1], [t1]);
    } else {
      var m2, t2 := Wrap32(m[n - 2]), t[n - 2];
      ReadCong(m[n - 2], t2);
      match a {
        case Over => RelatedConcat(m[..n - 2], t[..n - 2], [m2, m1, m2], [t2, t1, t2]);
        case Swap => RelatedConcat(m[..n - 2], t[..n - 2], [m1, m2], [t1, t2]);
        case Rot =>
          var m3, t3 := Wrap32(m[n - 3]), t[n - 3];
          ReadCong(m[n - 3], t3);
          RelatedConcat(m[..n - 3], t[..n - 3], [m1, m3, m2], [t1, t3, t2]);
      }
    }
  }

  lemma PickTracks(m: Cells, t: seq<int>, k: nat)
    requires Related(m, t) && k < |t| && |t| < STACK_MAX
    ensures Related(PickN(m, k), t + [Entry(t, k)])
  {
    PickCuts(m, k);
    var r, n := PickN(m, k), |m|;
    forall j | 0 <= j <= n ensures Cong(r[j], (t + [Entry(t, k)])[j]) {
      if n - k <= j < n {
        assert r[j] == Ints(m[n - k..])[j - (n - k)] == Wrap32(m[j]);
        ReadCong(m[j], t[j]);
      } else if j == n {
        ReadCong(Entry(m, k), Entry(t, k));
      }
    }
  }

  lemma UnaryTracks(u: UnOp, m: Cells, t: seq<int>)
    requires Related(m, t) && 1 <= |t| <= STACK_MAX && ComputeUn(u, t[|t| - 1]).Some?
    requires u in {Neg, Not} || FitsInt(t[|t| - 1])
    ensures Unary(u, m).Continue?
    ensures Related(Unary(u, m).cells, t[..|t| - 1] + [ComputeUn(u, t[|t| - 1]).value])
  {
    var x: int, y: int := Top(m), t[|t| - 1];
    RelatedTop(m, t);
    CongRefl(-1);
    CongRefl(1);
    CongMul(x, y, -1, -1);
    CongAdd(x * -1, y * -1, 1, 1);
    RelatedPush(Pop(m), t[..|t| - 1], ComputeUn(u, x).value, ComputeUn(u, y).value);
  }

  lemma BinaryTracks(b: BinOp, m: Cells, t: seq<int>)
    requires Related(m, t) && 2 <= |t| <= STACK_MAX && Compute(b, t[|t| - 2], t[|t| - 1]).Some?
    requires b in {Plus, Minus, Mul} || TopFits(t, 2)
    ensures Binary(b, m).Continue?
    ensures Related(Binary(b, m).cells, t[..|t| - 2] + [Compute(b, t[|t| - 2], t[|t| - 1]).value])
  {
    RelatedTop(m, t);
    var t' := t[..|t| - 1];
    RelatedTop(Pop(m), t');
    assert t'[..|t'| - 1] == t[..|t| - 2];
    var x1: int, x2: int, y1: int, y2: int := Top(m), Top(Pop(m)), t[|t| - 1], t[|t| - 2];
    if b in {Plus, Minus, Mul} {
      CongAdd(x2, y2, x1, y1);
      CongMul(x2, y2, x1, y1);
    } else {
      assert x1 == y1 && x2 == y2;
      CongRefl(Compute(b, x2, x1).value);
    }
    RelatedPush(Pop(Pop(m)), t[..|t| - 2], Compute(b, x2, x1).value, Compute(b, y2, y1).value);
  }

  lemma StepTracks(p: Program, c: Ideal, m: Cells)
    requires Tracked(p, c) && Related(m, c.cells)
    ensures Apply(p, c.pc, m).Continue?
    ensures Related(Apply(p, c.pc, m).cells, IdealApply(p, c.pc, c.cells).value)
  {
    var t, a, n := c.cells, p[c.pc].atom, p[c.pc].number;
    CongRefl(n);
    Wrap64Cong(n);
    CongSym(Wrap64(n), n);
    if Shuffles(a) {
      ShuffleTracks(a, m, t);
    } else {
      match a {
        case Lit(k) => CongRefl(k); RelatedPush(m, t, k, k);
        case ConstU => RelatedPush(m, t, n, n);
        case ConstS => RelatedPush(m, t, n, Wrap64(n));
        case FbReg => RelatedPush(m, t, n, Wrap64(n));
        case Pick => PickTracks(m, t, ShadowedCount(p, 0).value);
        case Un(u) => UnaryTracks(u, m, t);
        case Bin(b) => BinaryTracks(b, m, t);
        case PlusUconst =>
          RelatedTop(m, t);
          CongAdd(Top(m), t[|t| - 1], n, n);
          RelatedPush(Pop(m), t[..|t| - 1], Top(m) + n, t[|t| - 1] + n);
        case Bra => RelatedTop(m, t);
        case _ =>
      }
    }
  }

  lemma Continues(p: Program, r: Config)
    requires r.Running? && r.pc < |p| && Apply(p, r.pc, r.cells).Continue?
    ensures Step(p, r) == Running(NextIndex(p, r.pc), Apply(p, r.pc, r.cells).cells,
                                  r.frameRel || p[r.pc].atom == FbReg)
  {
    hide Apply;
  }

  /** Simulation: as long as every ideal step is tracked, the array-stack run is at the same
      operation with a related stack. */
  lemma {:induction false} RunTracks(p: Program, c: Ideal, m: Cells, n: nat)
    requires Related(m, c.cells)
    requires forall k: nat :: k < n ==> Tracked(p, IdealSteps(p, c, k))
    ensures var d, r := IdealSteps(p, c, n), Steps(p, Running(c.pc, m, c.frameRel), n);
      r.Running? && r.pc == d.pc && r.frameRel == d.frameRel && Related(r.cells, d.cells)
    decreases n
  {
    hide Step, Apply, IdealApply;
    if n > 0 {
      RunTracks(p, c, m, n - 1);
      var d, r := IdealSteps(p, c, n - 1), Steps(p, Running(c.pc, m, c.frameRel), n - 1);
      assert Tracked(p, d);
      StepsNext(p, Running(c.pc, m, c.frameRel), n - 1);
      StepTracks(p, d, r.cells);
      Continues(p, r);
    }
  }

  function IdealStart(init: Option<Long>): Ideal {
    Ideal(0, if init.Some? then [init.value] else [], false)
  }

  /** The ideal run completes after n operations with a result on the stack. */
  predicate Completes(p: Program, init: Option<Long>, n: nat) {
    var d := IdealSteps(p, IdealStart(init), n);
    d.pc >= |p| && d.cells != []
  }

  function IdealResult(p: Program, init: Option<Long>, n: nat): int
    requires Completes(p, init, n)
  {
    var d := IdealSteps(p, IdealStart(init), n);
    d.cells[|d.cells| - 1]
  }

  lemma RelatedEnd(p: Program, r: Config, d: Ideal)
    requires r.Running? && r.pc >= |p| && Related(r.cells, d.cells) && d.cells != []
    ensures Step(p, r) == Finished(Wrap32(d.cells[|d.cells| - 1]), r.frameRel, false)
  {
    CongIffSameInt(r.cells[|r.cells| - 1], d.cells[|d.cells| - 1]);
  }

  lemma TrackedRunResult(p: Program, init: Option<Long>, n: nat)
    requires forall k: nat :: k < n ==> Tracked(p, IdealSteps(p, IdealStart(init), k))
    requires Completes(p, init, n)
    ensures Steps(p, Start(init), n + 1)
         == Finished(Wrap32(IdealResult(p, init, n)), IdealSteps(p, IdealStart(init), n).frameRel, false)
  {
    hide Step, IdealApply;
    var c, m := IdealStart(init), Start(init).cells;
    assert Related(m, c.cells);
    RunTracks(p, c, m, n);
    StepsNext(p, Start(init), n);
    RelatedEnd(p, Steps(p, Running(c.pc, m, c.frameRel), n), IdealSteps(p, c, n));
  }

  /** Truncation is a ring homomorphism over whole runs: without under- or overflow of the stack, a
      program of constants, shuffles, skips and ring operators decodes to the unbounded result
      reduced to an int. */
  lemma RingRunTruncates(p: Program, init: Option<Long>, n: nat)
    requires forall i :: 0 <= i < |p| ==> RingAtom(p[i].atom)
    requires forall k: nat :: k < n ==> DepthOk(p, IdealSteps(p, IdealStart(init), k))
    requires Completes(p, init, n)
    ensures Steps(p, Start(init), n + 1)
         == Finished(Wrap32(IdealResult(p, init, n)), IdealSteps(p, IdealStart(init), n).frameRel, false)
  {
    forall k: nat | k < n ensures Tracked(p, IdealSteps(p, IdealStart(init), k)) {
      assert DepthOk(p, IdealSteps(p, IdealStart(init), k));
    }
    TrackedRunResult(p, init, n);
  }

  /** Fixed against ideal: when the ideal run reads only ints, the array-stack run computes the
      very same offset. */
  lemma IdealRunIsExact(p: Program, init: Option<Long>, n: nat)
    requires forall k: nat :: k < n ==>
      DepthOk(p, IdealSteps(p, IdealStart(init), k)) && ReadsFit(p, IdealSteps(p, IdealStart(init), k))
    requires Completes(p, init, n) && FitsInt(IdealResult(p, init, n))
    ensures Steps(p, Start(init), n + 1)
         == Finished(IdealResult(p, init, n), IdealSteps(p, IdealStart(init), n).frameRel, false)
  {
    forall k: nat | k < n ensures Tracked(p, IdealSteps(p, IdealStart(init), k)) {
      assert ReadsFit(p, IdealSteps(p, IdealStart(init), k));
    }
    TrackedRunResult(p, init, n);
    WrapOnce(IdealResult(p, init, n));
  }

  lemma {:induction false} TransferBounded(s: Cells, t: Cells, n: nat)
    requires |s| <= STACK_MAX && |t| <= STACK_MAX
    ensures |Transfer(s, t, n).0| <= STACK_MAX && |Transfer(s, t, n).1| <= STACK_MAX
    decreases n
  {
    if n > 0 {
      TransferBounded(Pop(s), Push(t, Top(s)), n - 1);
    }
  }

  lemma ApplyBounded(p: Program, i: nat, s: Cells)
    requires i < |p| && |s| <= STACK_MAX && Apply(p, i, s).Continue?
    ensures |Apply(p, i, s).cells| <= STACK_MAX
  {
    if p[i].atom == Pick {
      var k := ShadowedCount(p, 0).value;
      TransferBounded(s, [], k);
      var (low, temp) := Transfer(s, [], k);
      TransferBounded(temp, low, k);
    }
  }

  lemma StepBounded(p: Program, c: Config)
    requires c.Running? && |c.cells| <= STACK_MAX
    ensures match Step(p, c)
            case Running(pc, cells, _) => pc <= |p| && |cells| <= STACK_MAX
            case Finished(offset, _, _) => FitsInt(offset)
            case Undef => true
  {
    hide Apply;
    if c.pc < |p| && Apply(p, c.pc, c.cells).Continue? {
      ApplyBounded(p, c.pc, c.cells);
    }
  }

  /** Every run of every expression: the stack size stays within the array, and a completed run
      yields an int offset. */
  lemma {:induction false} RunBounded(p: Program, init: Option<Long>, n: nat)
    ensures match Steps(p, Start(init), n)
            case Running(pc, cells, _) => pc <= |p| && |cells| <= STACK_MAX
            case Finished(offset, _, _) => FitsInt(offset)
            case Undef => true
    decreases n
  {
    hide Step;
    if n > 0 {
      RunBounded(p, init, n - 1);
      StepsNext(p, Start(init), n - 1);
      var c := Steps(p, Start(init), n - 1);
      if c.Running? {
        StepBounded(p, c);
      } else {
        StepsStay(p, Start(init), n - 1, n);
      }
    }
  }
}
