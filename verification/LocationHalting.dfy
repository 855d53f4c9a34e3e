/** When the decode loop ends. Jumps do not depend on the stack, so the sequence of operation
    indices is a walk through a fixed successor map. */
module LocationHalting {
  import opened Arith
  import opened BoundedStack
  import opened Orbits
  import opened Location
  import opened Options

  /** Successor of every operation index; |p| stands for having left the loop. */
  function Successors(p: Program): (next: map<nat, nat>)
    ensures forall i: nat :: i in next <==> i < |p|
    ensures forall i: nat :: i in next ==> next[i] <= |p|
  {
    map i: nat | 0 <= i < |p| :: if GivesUp(p[i].atom) then |p| else NextIndex(p, i)
  }

  /** The indices below n, as a set. */
  function Indices(n: nat): (s: set<nat>)
    ensures |s| == n
    ensures forall i: nat :: i in s <==> i < n
  {
    if n == 0 then {} else Indices(n - 1) + {n - 1}
  }

  lemma SuccessorCount(p: Program)
    ensures |Successors(p)| == |p|
  {
    assert Successors(p).Keys == Indices(|p|);
  }

  /** Operation index after n operations, as long as the loop goes on. */
  function PathAt(p: Program, n: nat): nat {
    Walk<nat>(Successors(p), 0, n)
  }

  /** The decode loop ends for this expression, whatever the initial value. */
  ghost predicate Halts(p: Program) {
    Leaves<nat>(Successors(p), 0)
  }

  /** No step of the run is one that C leaves undefined, a division by zero for instance. */
  ghost predicate DivisionSafe(p: Program, init: Option<Long>) {
    forall n: nat :: !Steps(p, Start(init), n).Undef?
  }

  ghost predicate RunFinishes(p: Program, init: Option<Long>) {
    exists n: nat :: Steps(p, Start(init), n).Finished?
  }

  predicate AtOp(p: Program, c: Config) {
    c.Running? && c.pc < |p|
  }

  /** The run is about to execute one operation at two different times. */
  ghost predicate RunRevisits(p: Program, init: Option<Long>) {
    exists m: nat, n: nat :: m < n && AtOp(p, Steps(p, Start(init), m)) && AtOp(p, Steps(p, Start(init), n))
      && Steps(p, Start(init), m).pc == Steps(p, Start(init), n).pc
  }

  lemma PreviousRunning(p: Program, c: Config, n: nat)
    requires n > 0 && Steps(p, c, n).Running?
    ensures AtOp(p, Steps(p, c, n - 1))
  {
    StepsNext(p, c, n - 1);
  }

  lemma {:induction false} RunFollowsWalk(p: Program, init: Option<Long>, n: nat)
    requires Steps(p, Start(init), n).Running?
    ensures Steps(p, Start(init), n).pc == PathAt(p, n)
  {
    hide Step;
    if n > 0 {
      StepsNext(p, Start(init), n - 1);
      PreviousRunning(p, Start(init), n);
      RunFollowsWalk(p, init, n - 1);
      WalkStep<nat>(Successors(p), 0, n - 1);
      StepShape(p, Steps(p, Start(init), n - 1));
    }
  }

  lemma {:induction false} InsideKeepsRunning(p: Program, init: Option<Long>, n: nat)
    requires DivisionSafe(p, init)
    requires forall k: nat :: k <= n ==> PathAt(p, k) in Successors(p)
    ensures Steps(p, Start(init), n).Running?
  {
    hide Step;
    if n > 0 {
      InsideKeepsRunning(p, init, n - 1);
      RunFollowsWalk(p, init, n - 1);
      StepsNext(p, Start(init), n - 1);
      WalkStep<nat>(Successors(p), 0, n - 1);
      assert PathAt(p, n - 1) in Successors(p);
      assert PathAt(p, n) in Successors(p);
      StepShape(p, Steps(p, Start(init), n - 1));
    }
  }

  /** Once the walk has left, one more step finishes the run. */
  lemma OutsideFinishes(p: Program, init: Option<Long>, n: nat)
    requires PathAt(p, n) !in Successors(p)
    ensures !Steps(p, Start(init), n + 1).Running?
    ensures !AtOp(p, Steps(p, Start(init), n))
  {
    StepsNext(p, Start(init), n);
    if Steps(p, Start(init), n).Running? {
      RunFollowsWalk(p, init, n);
    } else {
      StepsStay(p, Start(init), n, n + 1);
    }
  }

  /** A run of a halting expression stops: after |p| operations it has no operation left. */
  lemma HaltingRunStops(p: Program, init: Option<Long>)
    requires Halts(p)
    ensures !Steps(p, Start(init), |p| + 1).Running?
    ensures !AtOp(p, Steps(p, Start(init), |p|))
  {
    hide Step;
    SuccessorCount(p);
    LeavesExactly<nat>(Successors(p), 0);
    OutsideFinishes(p, init, |p|);
  }

  /** Exact halting: a division-safe run ends if and only if it never comes back to an operation,
      and a run that ends executes at most ld_cents operations. */
  lemma HaltsExactly(p: Program, init: Option<Long>)
    requires DivisionSafe(p, init)
    ensures RunFinishes(p, init) <==> !RunRevisits(p, init)
    ensures RunFinishes(p, init) <==> Halts(p)
    ensures RunFinishes(p, init) ==> !AtOp(p, Steps(p, Start(init), |p|))
  {
    hide Step;
    var next := Successors(p);
    LeavesExactly<nat>(next, 0);
    if Halts(p) {
      HaltingRunStops(p, init);
      assert Steps(p, Start(init), |p| + 1).Finished?;
      forall m: nat, n: nat | m < n && AtOp(p, Steps(p, Start(init), m)) && AtOp(p, Steps(p, Start(init), n))
        ensures Steps(p, Start(init), m).pc != Steps(p, Start(init), n).pc
      {
        RunFollowsWalk(p, init, m);
        RunFollowsWalk(p, init, n);
      }
    } else {
      forall n: nat ensures Steps(p, Start(init), n).Running? && AtOp(p, Steps(p, Start(init), n)) {
        InsideKeepsRunning(p, init, n);
        RunFollowsWalk(p, init, n);
        assert PathAt(p, n) in next;
      }
      assert Revisits<nat>(next, 0);
      var m: nat, n: nat :|
        m < n && Walk<nat>(next, 0, m) == Walk<nat>(next, 0, n) && Walk<nat>(next, 0, n) in next;
      RunFollowsWalk(p, init, m);
      RunFollowsWalk(p, init, n);
      assert AtOp(p, Steps(p, Start(init), m)) && AtOp(p, Steps(p, Start(init), n));
    }
  }

  /** A run seen to finish after any number of steps belongs to a halting expression, and what it
      finished with is what the decode loop returns. */
  lemma FinishedIsFinal(p: Program, init: Option<Long>, n: nat)
    requires Steps(p, Start(init), n).Finished?
    ensures Halts(p) && Steps(p, Start(init), |p| + 1) == Steps(p, Start(init), n)
  {
    hide Step;
    forall m: nat ensures !Steps(p, Start(init), m).Undef? {
      if m <= n { StepsMeet(p, init, m, n); } else { StepsStay(p, Start(init), n, m); }
    }
    HaltsExactly(p, init);
    HaltingRunStops(p, init);
    if n <= |p| + 1 { StepsStay(p, Start(init), n, |p| + 1); } else { StepsStay(p, Start(init), |p| + 1, n); }
  }

  lemma StepsMeet(p: Program, init: Option<Long>, m: nat, n: nat)
    requires m <= n && Steps(p, Start(init), n).Finished?
    ensures !Steps(p, Start(init), m).Undef?
  {
    if !Steps(p, Start(init), m).Running? { StepsStay(p, Start(init), m, n); }
  }

  lemma {:induction false} ForwardWalkGrows(p: Program, n: nat)
    requires forall i :: 0 <= i < |p| && p[i].atom == Skip ==> Displacement(p[i].number) >= 0
    ensures n <= PathAt(p, n) <= |p| || PathAt(p, n) == |p|
  {
    if n > 0 {
      ForwardWalkGrows(p, n - 1);
      WalkStep<nat>(Successors(p), 0, n - 1);
      var y := PathAt(p, n - 1);
      if y in Successors(p) {
        assert y < |p|;
        assert Successors(p)[y] == if GivesUp(p[y].atom) then |p| else NextIndex(p, y);
        SkipIsDisplacement(p[y]);
        assert NextIndex(p, y) > y;
      }
    }
  }

  /** Expressions without a backward skip always halt. */
  lemma ForwardSkipsHalt(p: Program)
    requires forall i :: 0 <= i < |p| && p[i].atom == Skip ==> Displacement(p[i].number) >= 0
    ensures Halts(p)
  {
    ForwardWalkGrows(p, |p|);
    assert PathAt(p, |p|) !in Successors(p);
  }

  /** A skip ends the run, keeping the top as the result, exactly when no operation on the searched
      side has the target offset. */
  lemma UnmatchedSkipEnds(p: Program, i: nat, s: Cells, frameRel: bool)
    requires i < |p| && p[i].atom == Skip
    ensures Steps(p, Running(i, s, frameRel), 2) == Finished(Top(s), frameRel, false)
       <==> forall j :: 0 <= j < |p| && (if Displacement(p[i].number) < 0 then j < i else j > i)
              ==> p[j].offset != (p[i].offset + Displacement(p[i].number)) % 0x1_0000_0000
  {
    var c := Running(i, s, frameRel);
    var d := Step(p, c);
    assert Steps(p, c, 2) == Steps(p, d, 1) == Step(p, d);
    assert d == Running(NextIndex(p, i), s, frameRel);
    SkipLands(p, i, |p|);
  }

  lemma SkipStep(p: Program, i: nat, k: nat, s: Cells)
    requires i < |p| && p[i].atom == Skip
    requires var d := Displacement(p[i].number); Nearest(p, i, d < 0, (p[i].offset + d) % 0x1_0000_0000, k)
    ensures Step(p, Running(i, s, false)) == Running(k, s, false)
  {
    SkipLands(p, i, k);
  }

  lemma PushStep(p: Program, i: nat, k: Literal)
    requires i < |p| && p[i].atom == Lit(k)
    ensures Step(p, Running(i, [], false)) == Running(i + 1, [k], false)
  {
  }

  lemma EndStep(p: Program, s: Cells, top: CInt)
    requires s == [top]
    ensures Step(p, Running(|p|, s, false)) == Finished(top, false, false)
  {
  }

  /** An expression whose last operation skips back to its second, and whose third skips out. */
  function BackwardSkip(): Program {
    [Loc(Skip, 7, 0), Loc(Lit(7), 0, 3), Loc(Skip, 100, 4), Loc(Skip, 0xffff_ffff_ffff_fffc, 7)]
  }

  lemma BackwardSkipRun()
    ensures Steps(BackwardSkip(), Start(None), 5) == Finished(7, false, false)
  {
    hide Step;
    var p := BackwardSkip();
    var c0, c1, c2 := Start(None), Running(3, [], false), Running(1, [], false);
    var c3, c4, c5 := Running(2, [7], false), Running(4, [7], false), Finished(7, false, false);
    SkipStep(p, 0, 3, []);
    SkipStep(p, 3, 1, []);
    PushStep(p, 1, 7);
    SkipStep(p, 2, 4, [7]);
    EndStep(p, [7], 7);
    assert Steps(p, c5, 0) == c5;
    assert Steps(p, c4, 1) == c5;
    assert Steps(p, c3, 2) == c5;
    assert Steps(p, c2, 3) == c5;
    assert Steps(p, c1, 4) == c5;
  }

  /** It halts, and decodes to 7. */
  lemma BackwardSkipDecodes()
    ensures NextIndex(BackwardSkip(), 3) == 1 && Halts(BackwardSkip())
    ensures forall n: nat :: n > 4 ==> Steps(BackwardSkip(), Start(None), n) == Finished(7, false, false)
  {
    hide Step;
    SkipLands(BackwardSkip(), 3, 1);
    BackwardSkipRun();
    FinishedIsFinal(BackwardSkip(), None, 5);
    forall n: nat | n > 4 ensures Steps(BackwardSkip(), Start(None), n) == Finished(7, false, false) {
      StepsStay(BackwardSkip(), Start(None), 5, n);
    }
  }
}
