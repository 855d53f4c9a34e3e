/** decode_location itself: the loop over operations, working in place on the array stack. */
module LocationDecode {
  import opened Arith
  import opened BoundedStack
  import opened Location
  import opened LocationHalting
  import opened Options

  method DoBinary(b: BinOp, S: Stack) returns (defined: bool)
    requires S.Valid()
    modifies S`size, S.data
    ensures S.Valid()
    ensures defined == Binary(b, old(S.Contents())).Continue?
    ensures defined ==> S.Contents() == Binary(b, old(S.Contents())).cells
  {
    var first := S.ReadTop();
    S.DoPop();
    var second := S.ReadTop();
    S.DoPop();
    match Compute(b, second, first) {
      case None => defined := false;
      case Some(v) =>
        S.DoPush(Wrap64(v));
        defined := true;
    }
  }

  method DoUnary(u: UnOp, S: Stack) returns (defined: bool)
    requires S.Valid()
    modifies S`size, S.data
    ensures S.Valid()
    ensures defined == Unary(u, old(S.Contents())).Continue?
    ensures defined ==> S.Contents() == Unary(u, old(S.Contents())).cells
  {
    var first := S.ReadTop();
    S.DoPop();
    match ComputeUn(u, first) {
      case None => defined := false;
      case Some(v) =>
        S.DoPush(Wrap64(v));
        defined := true;
    }
  }

  /** One transfer loop: n tops moved from S to T. */
  method DoTransfer(S: Stack, T: Stack, n: nat)
    requires S.Valid() && T.Valid() && S != T && S.data != T.data
    modifies S`size, T`size, T.data
    ensures S.Valid() && T.Valid()
    ensures (S.Contents(), T.Contents()) == Transfer(old(S.Contents()), old(T.Contents()), n)
  {
    var k := 0;
    while k < n
      invariant 0 <= k <= n && S.Valid() && T.Valid()
      invariant Transfer(S.Contents(), T.Contents(), n - k)
             == Transfer(old(S.Contents()), old(T.Contents()), n)
    {
      var top := S.ReadTop();
      T.DoPush(top);
      S.DoPop();
      k := k + 1;
    }
  }

  /** The loop bound of pick, evaluated as the shadowed index grows. */
  method FindShadowedCount(p: Program) returns (r: Option<nat>)
    ensures r == ShadowedCount(p, 0)
  {
    var k := 0;
    while k < |p| && k < p[k].number
      invariant 0 <= k <= |p| && ShadowedCount(p, k) == ShadowedCount(p, 0)
    {
      k := k + 1;
    }
    r := if k < |p| then Some(k) else None;
  }

  method DoPick(p: Program, S: Stack) returns (defined: bool)
    requires S.Valid()
    modifies S`size, S.data
    ensures S.Valid()
    ensures defined == ShadowedCount(p, 0).Some?
    ensures defined ==> S.Contents() == PickN(old(S.Contents()), ShadowedCount(p, 0).value)
  {
    var count := FindShadowedCount(p);
    if count.None? {
      return false;
    }
    var temp := new Stack();
    DoTransfer(S, temp, count.value);
    var dup := S.ReadTop();
    DoTransfer(temp, S, count.value);
    S.DoPush(dup);
    defined := true;
  }

  method DoShuffle(a: Atom, S: Stack)
    requires S.Valid() && Shuffles(a)
    modifies S`size, S.data
    ensures S.Valid()
    ensures S.Contents() == Shuffle(a, old(S.Contents()))
  {
    var first := S.ReadTop();
    if a == Dup {
      S.DoPush(first);
      return;
    }
    S.DoPop();
    if a == Drop {
      return;
    }
    var second := S.ReadTop();
    S.DoPop();
    match a {
      case Over =>
        S.DoPush(second);
        S.DoPush(first);
        S.DoPush(second);
      case Swap =>
        S.DoPush(first);
        S.DoPush(second);
      case Rot =>
        var third := S.ReadTop();
        S.DoPop();
        S.DoPush(first);
        S.DoPush(third);
        S.DoPush(second);
    }
  }

  datatype Outcome = Proceed | Abandon | Fault

  function Observed(o: Outcome, cells: Cells): Effect {
    match o
    case Proceed => Continue(cells)
    case Abandon => GiveUp
    case Fault => Undefined
  }

  /** pick and the operators, which can be undefined. */
  method DoOperator(p: Program, i: nat, S: Stack) returns (defined: bool)
    requires i < |p| && S.Valid() && (p[i].atom.Pick? || p[i].atom.Un? || p[i].atom.Bin?)
    modifies S`size, S.data
    ensures S.Valid()
    ensures (if defined then Continue(S.Contents()) else Undefined) == Apply(p, i, old(S.Contents()))
  {
    hide Compute, ComputeUn, PickN, ShadowedCount;
    match p[i].atom {
      case Pick => defined := DoPick(p, S);
      case Un(u) => defined := DoUnary(u, S);
      case Bin(b) => defined := DoBinary(b, S);
    }
  }

  /** The effect of operation i on the array stack is its effect on the contents. */
  method ExecOp(p: Program, i: nat, S: Stack) returns (o: Outcome)
    requires i < |p| && S.Valid()
    modifies S`size, S.data
    ensures S.Valid()
    ensures Observed(o, S.Contents()) == Apply(p, i, old(S.Contents()))
  {
    hide Binary, Unary, Shuffle, PickN, ShadowedCount;
    var a, number := p[i].atom, p[i].number;
    if GivesUp(a) {
      return Abandon;
    }
    if Shuffles(a) {
      DoShuffle(a, S);
      return Proceed;
    }
    if a.Pick? || a.Un? || a.Bin? {
      var defined := DoOperator(p, i, S);
      return if defined then Proceed else Fault;
    }
    o := Proceed;
    if Pushed(p[i]).Some? {
      S.DoPush(Pushed(p[i]).value);
      return;
    }
    match a {
      case PlusUconst =>
        var first := S.ReadTop();
        S.DoPop();
        S.DoPush(Wrap64(first + number));
      case Bra =>
        var top := S.ReadTop();
        if top != 0 {
          S.DoPop();
        }
      case _ =>
    }
  }

  /** The two searches of a skip: the index found, -1 or |p| when there is none. */
  method FindSkip(p: Program, i: nat) returns (j: int)
    requires i < |p|
    ensures -1 <= j <= |p|
    ensures p[i].atom == Skip ==> NextIndex(p, i) == if j < 0 then |p| else j
    ensures var d := Displacement(p[i].number);
      Nearest(p, i, d < 0, (p[i].offset + d) % 0x1_0000_0000, if j < 0 then |p| else j)
  {
    SkipIsDisplacement(p[i]);
    var bytes := SkipBytes(p[i]);
    var target := SkipTarget(p[i]);
    if bytes < 0 {
      j := i - 1;
      while j >= 0
        invariant -1 <= j < i
        invariant SearchBack(p, target, j + 1) == SearchBack(p, target, i)
      {
        if p[j].offset == target {
          break;
        }
        j := j - 1;
      }
    } else {
      j := i + 1;
      while j < |p|
        invariant i < j <= |p|
        invariant SearchForward(p, target, j) == SearchForward(p, target, i + 1)
      {
        if p[j].offset == target {
          break;
        }
        j := j + 1;
      }
    }
  }

  /** The loop index as an operation index; past the end it can be any unsigned int. */
  function PcOf(p: Program, i: nat): nat {
    if i < |p| then i else |p|
  }

  /** One iteration of the loop: either the configuration the function returns with, or the next
      index and frame flag. A backward search that fails at -1 makes the index wrap to the
      largest unsigned int. */
  method Iterate(p: Program, i: nat, frameRel: bool, S: Stack)
    returns (result: Option<Config>, i': nat, frameRel': bool)
    requires i < |p| && S.Valid()
    modifies S`size, S.data
    ensures S.Valid() && i' < TWO_32
    ensures Step(p, Running(i, old(S.Contents()), frameRel))
         == if result.Some? then result.value else Running(PcOf(p, i'), S.Contents(), frameRel')
    ensures result.Some? ==> !result.value.Running?
  {
    hide Apply;
    i', frameRel' := i, frameRel;
    var o := ExecOp(p, i, S);
    if o != Proceed {
      result := Some(if o == Abandon then Finished(-1, frameRel, true) else Undef);
      return;
    }
    result := None;
    frameRel' := frameRel || p[i].atom == FbReg;
    if p[i].atom == Skip {
      var j := FindSkip(p, i);
      i' := (j - 1) % TWO_32;
    }
    i' := (i' + 1) % TWO_32;
  }

  /** decode_location on a location list. The result is the configuration every longer run is in. */
  method DecodeLocation(list: seq<Program>, init: Option<Long>) returns (r: Config)
    requires |list| > 0
    requires Halts(list[0])
    ensures !r.Running?
    ensures forall n: nat :: n > |list[0]| ==> Steps(list[0], Start(init), n) == r
  {
    hide Step, Steps, Halts, Transfer;
    var p := list[0];
    var opStack := new Stack();
    if init.Some? {
      opStack.DoPush(init.value);
    }
    var frameRel := false;
    var i: nat := 0;
    ghost var n: nat := 0;
    StepsZero(p, Start(init));
    while i < |p|
      invariant opStack.Valid() && fresh(opStack) && fresh(opStack.data)
      invariant Steps(p, Start(init), n) == Running(PcOf(p, i), opStack.Contents(), frameRel)
      invariant n <= |p|
      decreases |p| - n
    {
      StillRunning(p, init, n);
      StepsNext(p, Start(init), n);
      var result: Option<Config>;
      result, i, frameRel := Iterate(p, i, frameRel, opStack);
      n := n + 1;
      if result.Some? {
        StopsForGood(p, init, n);
        return result.value;
      }
    }
    var top := opStack.ReadTop();
    r := Finished(top, frameRel, false);
    FinishesAtEnd(p, Start(init), n);
    StopsForGood(p, init, n + 1);
  }

  lemma StepsZero(p: Program, c: Config)
    ensures Steps(p, c, 0) == c
  {
  }

  lemma StillRunning(p: Program, init: Option<Long>, n: nat)
    requires Halts(p) && AtOp(p, Steps(p, Start(init), n))
    ensures n < |p|
  {
    hide Step;
    if n >= |p| {
      HaltingRunStops(p, init);
      var c := Steps(p, Start(init), |p|);
      if n > |p| {
        StepsStay(p, Start(init), |p| + 1, n);
      }
    }
  }

  lemma StopsForGood(p: Program, init: Option<Long>, m: nat)
    requires !Steps(p, Start(init), m).Running? && m <= |p| + 1
    ensures forall n: nat :: n > |p| ==> Steps(p, Start(init), n) == Steps(p, Start(init), m)
  {
    hide Step;
    forall n: nat | n > |p| ensures Steps(p, Start(init), n) == Steps(p, Start(init), m) {
      StepsStay(p, Start(init), m, n);
    }
  }
}
