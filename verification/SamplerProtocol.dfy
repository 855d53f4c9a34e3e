/** The sampling protocol as small steps: the monitor pokes one slot at a time, threads register
    and leave one slot at a time, a mutex serialises them, and signal handlers run at any moment. */
module SamplerProtocol {
  import opened SamplerTable
  import opened Options

  /** A thread registers once, deregisters once, and only then exits. */
  datatype Life = Fresh | Active | Retired | Exited

  /** on is samplingState and slot is threadId. The rest is history: pending counts pokes sent and
      not yet delivered, lost those merged into a pending one, sent all pokes to this thread;
      calls lists the states passed to the client handler, and since is the phase at registration. */
  datatype Thread = Thread(
    life: Life, on: bool, slot: Option<nat>, pending: nat, lost: nat, sent: nat, calls: seq<bool>, since: bool)

  /** Who holds threadListLock, and how far it has got. */
  datatype Lock =
    | Idle
    | Passing(next: nat)
    | Scanning(who: Tid, next: nat)
    | Syncing(who: Tid)
    | Clearing(who: Tid, next: nat)
    | Leaving(who: Tid)

  datatype State = State(slots: seq<Tid>, active: bool, lock: Lock, threads: map<Tid, Thread>)

  /** Poke(true) merges the signal into one that is still pending, as POSIX allows. */
  datatype Label =
    | BeginPass | Poke(merged: bool) | FlipPhase
    | BeginRegister(t: Tid) | ScanSlot | Sync
    | BeginDeregister(t: Tid) | ClearSlot
    | Release
    | Deliver(t: Tid) | Exit(t: Tid)

  const NewThread := Thread(Fresh, true, None, 0, 0, 0, [], false)

  function Init(tids: set<Tid>): State {
    State(seq(MAX_NUM_THREADS, _ => 0), false, Idle, map t | t in tids && t != 0 :: NewThread)
  }

  predicate Enabled(s: State, l: Label) {
    match l
    case BeginPass => s.lock.Idle?
    case Poke(merged) =>
      && s.lock.Passing? && s.lock.next < |s.slots|
      && var t := s.slots[s.lock.next];
         if t == 0 then !merged else t in s.threads && (merged ==> s.threads[t].pending > 0)
    case FlipPhase => s.lock.Passing? && s.lock.next == |s.slots|
    case BeginRegister(t) => s.lock.Idle? && t in s.threads && s.threads[t].life.Fresh?
    case ScanSlot => s.lock.Scanning? && s.lock.next <= |s.slots| && s.lock.who in s.threads
    case Sync => s.lock.Syncing? && s.lock.who in s.threads
    case BeginDeregister(t) => s.lock.Idle? && t in s.threads && s.threads[t].life.Active?
    case ClearSlot => s.lock.Clearing? && s.lock.next <= |s.slots| && s.lock.who in s.threads
    case Release => s.lock.Leaving?
    case Deliver(t) => t in s.threads && !s.threads[t].life.Exited? && s.threads[t].pending > 0
    case Exit(t) => t in s.threads && s.threads[t].life.Retired? && s.lock != Leaving(t)
  }

  function Poked(th: Thread, merged: bool): Thread {
    if merged then th.(lost := th.lost + 1, sent := th.sent + 1)
    else th.(pending := th.pending + 1, sent := th.sent + 1)
  }

  /** handlePoke, on the thread's own state. */
  function Delivered(th: Thread): Thread
    requires th.pending > 0
  {
    th.(pending := th.pending - 1, on := !th.on, calls := th.calls + [!th.on])
  }

  function Synced(th: Thread, phase: bool): Thread {
    th.(life := Active, on := phase, since := phase)
  }

  function Next(s: State, l: Label): State
    requires Enabled(s, l)
  {
    match l
    case BeginPass => s.(lock := Passing(0))
    case Poke(merged) =>
      var i, t := s.lock.next, s.slots[s.lock.next];
      if t == 0 then s.(lock := Passing(i + 1))
      else s.(lock := Passing(i + 1), threads := s.threads[t := Poked(s.threads[t], merged)])
    case FlipPhase => s.(active := !s.active, lock := Leaving(0))
    case BeginRegister(t) => s.(lock := Scanning(t, 0))
    case ScanSlot =>
      var t, i := s.lock.who, s.lock.next;
      if i == |s.slots| then s.(lock := Syncing(t))
      else if s.slots[i] != 0 then s.(lock := Scanning(t, i + 1))
      else s.(lock := Syncing(t), slots := s.slots[i := t],
              threads := s.threads[t := s.threads[t].(slot := Some(i))])
    case Sync =>
      var t := s.lock.who;
      s.(lock := Leaving(t), threads := s.threads[t := Synced(s.threads[t], s.active)])
    case BeginDeregister(t) => s.(lock := Clearing(t, 0))
    case ClearSlot =>
      var t, i := s.lock.who, s.lock.next;
      if i == |s.slots| then s.(lock := Leaving(t), threads := s.threads[t := s.threads[t].(life := Retired)])
      else s.(lock := Clearing(t, i + 1), slots := if s.slots[i] == t then s.slots[i := 0] else s.slots)
    case Release => s.(lock := Idle)
    case Deliver(t) => s.(threads := s.threads[t := Delivered(s.threads[t])])
    case Exit(t) => s.(threads := s.threads[t := s.threads[t].(life := Exited)])
  }

  // ---------------------------------------------------------------- runs

  predicate Legal(s: State, ls: seq<Label>)
    decreases |ls|
  {
    ls == [] || (Enabled(s, ls[0]) && Legal(Next(s, ls[0]), ls[1..]))
  }

  function Exec(s: State, ls: seq<Label>): State
    requires Legal(s, ls)
    decreases |ls|
  {
    if ls == [] then s else Exec(Next(s, ls[0]), ls[1..])
  }

  /** Reachable from an empty table by some interleaving. */
  ghost predicate Reachable(s: State) {
    exists tids, ls :: Legal(Init(tids), ls) && Exec(Init(tids), ls) == s
  }

  // ---------------------------------------------------------------- invariant

  /** b after n toggles. */
  function Toggled(b: bool, n: nat): bool {
    if n % 2 == 0 then b else !b
  }

  /** Slot i has been passed by a monitor pass that has not yet flipped the phase. */
  predicate Passed(s: State, i: nat) {
    s.lock.Passing? && i < s.lock.next
  }

  /** The phase a slot's occupant is heading for. */
  predicate PhaseAt(s: State, i: nat) {
    if Passed(s, i) then !s.active else s.active
  }

  /** Every occupant sits at its own threadId and has registered, except that the thread whose
      registration is in progress may already be in its slot. */
  ghost predicate SlotsOk(s: State) {
    && |s.slots| == MAX_NUM_THREADS
    && 0 !in s.threads
    && forall i :: 0 <= i < |s.slots| && s.slots[i] != 0 ==>
         && s.slots[i] in s.threads
         && s.threads[s.slots[i]].slot == Some(i)
         && (s.lock != Syncing(s.slots[i]) ==> s.threads[s.slots[i]].life.Active?)
  }

  ghost predicate LockOk(s: State) {
    match s.lock
    case Idle => true
    case Passing(i) => i <= |s.slots|
    case Scanning(t, i) =>
      && i <= |s.slots| && t in s.threads && s.threads[t].life.Fresh?
      && forall k :: 0 <= k < i ==> s.slots[k] != 0
    case Syncing(t) => t in s.threads && s.threads[t].life.Fresh?
    case Clearing(t, i) =>
      && i <= |s.slots| && t in s.threads && s.threads[t].life.Active?
      && forall k :: 0 <= k < i ==> s.slots[k] != t
    case Leaving(_) => true
  }

  /** The callbacks alternate, starting opposite to the registration phase, and account for the
      pokes: every poke sent was delivered, is pending, or was merged away. */
  ghost predicate HistoryOk(th: Thread) {
    && |th.calls| + th.pending + th.lost == th.sent
    && (forall j :: 0 <= j < |th.calls| ==> th.calls[j] == Toggled(th.since, j + 1))
    && (th.life.Fresh? ==> th.sent == 0)
    && (!th.life.Fresh? ==> th.on == Toggled(th.since, |th.calls|))
  }

  /** Each listed thread has been poked exactly as often as the phase has changed for it. */
  ghost predicate PhasesOk(s: State) {
    forall i :: 0 <= i < |s.slots| && s.slots[i] != 0 && s.slots[i] in s.threads && s.lock != Syncing(s.slots[i]) ==>
      Toggled(s.threads[s.slots[i]].since, s.threads[s.slots[i]].sent) == PhaseAt(s, i)
  }

  ghost predicate Inv(s: State) {
    && SlotsOk(s)
    && LockOk(s)
    && (forall t :: t in s.threads ==> HistoryOk(s.threads[t]))
    && PhasesOk(s)
  }

  lemma InitInv(tids: set<Tid>)
    ensures Inv(Init(tids))
  {
  }

  lemma ToggledNext(b: bool, n: nat)
    ensures Toggled(b, n + 1) == !Toggled(b, n)
  {
  }

  lemma PokedHistory(th: Thread, merged: bool)
    requires HistoryOk(th) && !th.life.Fresh?
    ensures HistoryOk(Poked(th, merged))
    ensures Toggled(th.since, Poked(th, merged).sent) == !Toggled(th.since, th.sent)
  {
    ToggledNext(th.since, th.sent);
  }

  lemma DeliveredHistory(th: Thread)
    requires HistoryOk(th) && th.pending > 0
    ensures HistoryOk(Delivered(th))
  {
    ToggledNext(th.since, |th.calls|);
  }

  lemma PassStep(s: State, l: Label)
    requires Inv(s) && Enabled(s, l) && (l.BeginPass? || l.FlipPhase? || l.Release?)
    ensures Inv(Next(s, l))
  {
    hide HistoryOk;
  }

  lemma PokeStep(s: State, merged: bool)
    requires Inv(s) && Enabled(s, Poke(merged))
    ensures Inv(Next(s, Poke(merged)))
  {
    hide HistoryOk, Toggled;
    var t := s.slots[s.lock.next];
    if t != 0 {
      PokedHistory(s.threads[t], merged);
    }
  }

  lemma ScanStep(s: State, l: Label)
    requires Inv(s) && Enabled(s, l) && (l.BeginRegister? || l.ScanSlot?)
    ensures Inv(Next(s, l))
  {
    hide Toggled;
    if l.ScanSlot? && s.lock.next < |s.slots| && s.slots[s.lock.next] == 0 {
      assert forall k :: 0 <= k < |s.slots| ==> s.slots[k] != s.lock.who;
    }
  }

  lemma SyncStep(s: State)
    requires Inv(s) && Enabled(s, Sync)
    ensures Inv(Next(s, Sync))
  {
    var t := s.lock.who;
    assert HistoryOk(Synced(s.threads[t], s.active));
    hide HistoryOk;
  }

  lemma ClearStep(s: State)
    requires Inv(s) && Enabled(s, ClearSlot)
    ensures Inv(Next(s, ClearSlot))
  {
    hide Toggled;
  }

  lemma LifeStep(s: State, l: Label)
    requires Inv(s) && Enabled(s, l) && (l.BeginDeregister? || l.Exit?)
    ensures Inv(Next(s, l))
  {
    hide Toggled;
  }

  lemma DeliverStep(s: State, t: Tid)
    requires Inv(s) && Enabled(s, Deliver(t))
    ensures Inv(Next(s, Deliver(t)))
  {
    hide HistoryOk, Toggled;
    DeliveredHistory(s.threads[t]);
  }

  /** Every step of every party keeps the invariant. */
  lemma StepInv(s: State, l: Label)
    requires Inv(s) && Enabled(s, l)
    ensures Inv(Next(s, l))
  {
    match l {
      case Deliver(t) => DeliverStep(s, t);
      case BeginRegister(_) => ScanStep(s, l);
      case ScanSlot => ScanStep(s, l);
      case Sync => SyncStep(s);
      case BeginDeregister(_) => LifeStep(s, l);
      case ClearSlot => ClearStep(s);
      case Exit(_) => LifeStep(s, l);
      case Poke(merged) => PokeStep(s, merged);
      case _ => PassStep(s, l);
    }
  }

  lemma {:induction false} ExecInv(s: State, ls: seq<Label>)
    requires Inv(s) && Legal(s, ls)
    ensures Inv(Exec(s, ls))
    decreases |ls|
  {
    if ls != [] {
      StepInv(s, ls[0]);
      ExecInv(Next(s, ls[0]), ls[1..]);
    }
  }

  lemma ReachableInv(s: State)
    requires Reachable(s)
    ensures Inv(s)
  {
    var tids, ls :| Legal(Init(tids), ls) && Exec(Init(tids), ls) == s;
    InitInv(tids);
    ExecInv(Init(tids), ls);
  }

  // ---------------------------------------------------------------- what holds in every reachable state

  lemma ToggledTwice(b: bool, m: nat, n: nat)
    ensures Toggled(Toggled(b, m), n) == Toggled(b, m + n)
  {
  }

  /** Phase agreement: a listed thread's sampling state, toggled once for each poke that is pending
      or was merged away, is the phase, flipped for slots an unfinished pass has already visited. */
  lemma PhaseAgreement(s: State, i: nat)
    requires Reachable(s) && i < |s.slots| && s.slots[i] != 0 && s.lock != Syncing(s.slots[i])
    ensures s.slots[i] in s.threads
    ensures var th := s.threads[s.slots[i]];
      Toggled(th.on, th.pending + th.lost) == if Passed(s, i) then !s.active else s.active
  {
    ReachableInv(s);
    var th := s.threads[s.slots[i]];
    ToggledTwice(th.since, |th.calls|, th.pending + th.lost);
  }

  /** When nothing is in flight, a listed thread agrees with the monitor exactly when an even number
      of its pokes were merged away. */
  lemma QuietAgreement(s: State, i: nat)
    requires Reachable(s) && i < |s.slots| && s.slots[i] != 0 && s.lock.Idle?
    ensures s.slots[i] in s.threads
    ensures var th := s.threads[s.slots[i]];
      th.pending == 0 ==> (th.on == s.active <==> th.lost % 2 == 0)
  {
    PhaseAgreement(s, i);
  }

  /** The assumption under which pokes are a reliable message: no signal is merged. */
  predicate NoPokeLost(ls: seq<Label>) {
    forall k :: 0 <= k < |ls| ==> ls[k] != Poke(true)
  }

  lemma {:induction false} LosslessExec(s: State, ls: seq<Label>)
    requires Legal(s, ls) && NoPokeLost(ls)
    requires forall t :: t in s.threads ==> s.threads[t].lost == 0
    ensures forall t :: t in Exec(s, ls).threads ==> Exec(s, ls).threads[t].lost == 0
    decreases |ls|
  {
    if ls != [] {
      assert ls[0] != Poke(true);
      assert forall k :: 0 <= k < |ls[1..]| ==> ls[1..][k] == ls[k + 1];
      LosslessExec(Next(s, ls[0]), ls[1..]);
    }
  }

  /** Without lost pokes: at rest, all listed threads agree with the phase. */
  lemma AllAgree(tids: set<Tid>, ls: seq<Label>)
    requires Legal(Init(tids), ls) && NoPokeLost(ls)
    ensures var s := Exec(Init(tids), ls);
      s.lock.Idle? && (forall t :: t in s.threads ==> s.threads[t].pending == 0)
      ==> forall i :: 0 <= i < |s.slots| && s.slots[i] != 0 ==>
            s.slots[i] in s.threads && s.threads[s.slots[i]].on == s.active
  {
    var s := Exec(Init(tids), ls);
    LosslessExec(Init(tids), ls);
    if s.lock.Idle? && (forall t :: t in s.threads ==> s.threads[t].pending == 0) {
      forall i | 0 <= i < |s.slots| && s.slots[i] != 0
        ensures s.slots[i] in s.threads && s.threads[s.slots[i]].on == s.active
      {
        QuietAgreement(s, i);
      }
    }
  }

  /** The set of listed threads. */
  function Listed(slots: seq<Tid>): (r: set<Tid>)
    ensures |r| <= |slots|
    ensures forall t :: t in r <==> t in slots && t != 0
  {
    if slots == [] then {}
    else Listed(slots[1..]) + if slots[0] == 0 then {} else {slots[0]}
  }

  /** Slot table safety: no thread holds two slots, every listed thread sits at its recorded
      threadId, at most 512 are listed, and whatever the monitor pokes is registered, not exited. */
  lemma SlotSafety(s: State)
    requires Reachable(s)
    ensures forall i, j :: 0 <= i < |s.slots| && 0 <= j < |s.slots| && s.slots[i] != 0 && s.slots[i] == s.slots[j] ==>
              i == j
    ensures forall i :: 0 <= i < |s.slots| && s.slots[i] != 0 ==>
              s.slots[i] in s.threads && s.threads[s.slots[i]].slot == Some(i)
    ensures |Listed(s.slots)| <= |s.slots| == 512
    ensures forall i :: 0 <= i < |s.slots| && s.slots[i] != 0 && s.lock.Passing? ==>
              s.slots[i] in s.threads && s.threads[s.slots[i]].life.Active?
  {
    ReachableInv(s);
  }

  /** Callback alternation: the states passed to the client strictly alternate, starting from the
      opposite of the registration phase, and callbacks, pending and merged pokes add up to the
      pokes sent since registration. */
  lemma CallbackAlternation(s: State, t: Tid)
    requires Reachable(s) && t in s.threads
    ensures var th := s.threads[t];
      && (th.calls != [] ==> th.calls[0] == !th.since)
      && (forall j :: 0 < j < |th.calls| ==> th.calls[j] == !th.calls[j - 1])
      && |th.calls| + th.pending + th.lost == th.sent
  {
    ReachableInv(s);
    var th := s.threads[t];
    forall j | 0 < j < |th.calls| ensures th.calls[j] == !th.calls[j - 1] {
      ToggledNext(th.since, j);
      assert th.calls[j - 1] == Toggled(th.since, j - 1 + 1);
    }
  }

  // ---------------------------------------------------------------- what the histories record

  /** Passes completed. */
  function Flips(ls: seq<Label>): nat {
    if ls == [] then 0 else (if ls[0].FlipPhase? then 1 else 0) + Flips(ls[1..])
  }

  /** Pokes of the slot that t is in, and the merged ones among them. */
  function PokesOf(s: State, ls: seq<Label>, t: Tid, mergedOnly: bool): nat
    requires Legal(s, ls)
    decreases |ls|
  {
    if ls == [] then 0
    else
      (if ls[0].Poke? && s.slots[s.lock.next] == t && (mergedOnly ==> ls[0].merged) then 1 else 0)
        + PokesOf(Next(s, ls[0]), ls[1..], t, mergedOnly)
  }

  /** Handlers that ran in t. */
  function DeliveriesTo(ls: seq<Label>, t: Tid): nat {
    if ls == [] then 0 else (if ls[0] == Deliver(t) then 1 else 0) + DeliveriesTo(ls[1..], t)
  }

  /** One step counts one poke, one handler or one pass, or none. */
  lemma HistoryStep(s: State, l: Label, t: Tid)
    requires Enabled(s, l) && t in s.threads && t != 0
    ensures t in Next(s, l).threads
    ensures var before, after := s.threads[t], Next(s, l).threads[t];
      var hit := l.Poke? && s.slots[s.lock.next] == t;
      && after.sent == before.sent + (if hit then 1 else 0)
      && after.lost == before.lost + (if hit && l.merged then 1 else 0)
      && |after.calls| == |before.calls| + (if l == Deliver(t) then 1 else 0)
    ensures Next(s, l).active == if l.FlipPhase? then !s.active else s.active
  {
  }

  lemma {:induction false} HistoryGrows(s: State, ls: seq<Label>, t: Tid)
    requires Legal(s, ls) && t in s.threads && t != 0
    ensures t in Exec(s, ls).threads
    ensures var before, after := s.threads[t], Exec(s, ls).threads[t];
      && after.sent == before.sent + PokesOf(s, ls, t, false)
      && after.lost == before.lost + PokesOf(s, ls, t, true)
      && |after.calls| == |before.calls| + DeliveriesTo(ls, t)
    ensures Exec(s, ls).active == if Flips(ls) % 2 == 0 then s.active else !s.active
    decreases |ls|
  {
    hide Next;
    if ls != [] {
      HistoryStep(s, ls[0], t);
      HistoryGrows(Next(s, ls[0]), ls[1..], t);
    }
  }

  /** The history counters are counts over the run: a thread's pokes are those of the slots it was
      in, its calls are its handlers, and the phase is on exactly after an odd number of passes. */
  lemma HistoryCounts(tids: set<Tid>, ls: seq<Label>, t: Tid)
    requires Legal(Init(tids), ls) && t in tids && t != 0
    ensures var s := Exec(Init(tids), ls);
      && t in s.threads
      && s.threads[t].sent == PokesOf(Init(tids), ls, t, false)
      && s.threads[t].lost == PokesOf(Init(tids), ls, t, true)
      && |s.threads[t].calls| == DeliveriesTo(ls, t)
      && (s.active <==> Flips(ls) % 2 == 1)
  {
    HistoryGrows(Init(tids), ls, t);
  }

  ghost predicate SinceOff(s: State) {
    !s.active && forall t :: t in s.threads ==> !s.threads[t].since
  }

  lemma SinceOffStep(s: State, l: Label)
    requires Enabled(s, l) && SinceOff(s) && !l.FlipPhase?
    ensures SinceOff(Next(s, l))
  {
  }

  lemma {:induction false} NoFlipYet(s: State, ls: seq<Label>)
    requires Legal(s, ls) && SinceOff(s) && Flips(ls) == 0
    ensures SinceOff(Exec(s, ls))
    decreases |ls|
  {
    hide SinceOff, Next, Enabled;
    if ls != [] {
      assert !ls[0].FlipPhase?;
      SinceOffStep(s, ls[0]);
      NoFlipYet(Next(s, ls[0]), ls[1..]);
    }
  }

  /** A thread that registers before the first pass ends starts unsampled, and whatever happens
      later, its first callback switches sampling on. */
  lemma {:induction false} FirstCallbackOn(tids: set<Tid>, early: seq<Label>, late: seq<Label>, t: Tid)
    requires Legal(Init(tids), early) && Flips(early) == 0 && Legal(Exec(Init(tids), early), late)
    requires t in tids && t != 0 && t in Exec(Init(tids), early).threads
    requires Exec(Init(tids), early).threads[t].life != Fresh
    ensures t in Exec(Exec(Init(tids), early), late).threads
    ensures var calls := Exec(Exec(Init(tids), early), late).threads[t].calls; calls != [] ==> calls[0]
  {
    var s := Exec(Init(tids), early);
    NoFlipYet(Init(tids), early);
    InitInv(tids);
    ExecInv(Init(tids), early);
    SinceStays(s, late, t);
    Append(Init(tids), early, late);
    assert Reachable(Exec(s, late));
    CallbackAlternation(Exec(s, late), t);
  }

  lemma SinceStep(s: State, l: Label, t: Tid)
    requires Enabled(s, l) && t in s.threads && s.threads[t].life != Fresh && LockOk(s)
    ensures t in Next(s, l).threads && Next(s, l).threads[t].since == s.threads[t].since
    ensures Next(s, l).threads[t].life != Fresh
  {
  }

  lemma {:induction false} SinceStays(s: State, ls: seq<Label>, t: Tid)
    requires Legal(s, ls) && t in s.threads && s.threads[t].life != Fresh && Inv(s)
    ensures t in Exec(s, ls).threads && Exec(s, ls).threads[t].since == s.threads[t].since
    ensures Exec(s, ls).threads[t].life != Fresh
    decreases |ls|
  {
    hide Next, Enabled, SlotsOk, LockOk, HistoryOk, PhasesOk;
    if ls != [] {
      StepInv(s, ls[0]);
      SinceStep(s, ls[0], t);
      SinceStays(Next(s, ls[0]), ls[1..], t);
    }
  }

  // ---------------------------------------------------------------- losing a poke

  function Repeat(n: nat): seq<Label> {
    if n == 0 then [] else [Poke(false)] + Repeat(n - 1)
  }

  lemma {:induction false} Append(s: State, xs: seq<Label>, ys: seq<Label>)
    requires Legal(s, xs) && Legal(Exec(s, xs), ys)
    ensures Legal(s, xs + ys) && Exec(s, xs + ys) == Exec(Exec(s, xs), ys)
    decreases |xs|
  {
    if xs == [] {
      assert xs + ys == ys;
    } else {
      Append(Next(s, xs[0]), xs[1..], ys);
      assert (xs + ys)[1..] == xs[1..] + ys;
    }
  }

  /** The rest of a pass over empty slots changes nothing but the position. */
  lemma {:induction false} EmptyTail(s: State, n: nat)
    requires s.lock.Passing? && s.lock.next + n == |s.slots|
    requires forall k :: s.lock.next <= k < |s.slots| ==> s.slots[k] == 0
    ensures Legal(s, Repeat(n)) && Exec(s, Repeat(n)) == s.(lock := Passing(|s.slots|))
    decreases n
  {
    if n > 0 {
      var s' := Next(s, Poke(false));
      EmptyTail(s', n - 1);
      assert Repeat(n)[1..] == Repeat(n - 1);
    }
  }

  /** One whole pass over a table whose only occupant, t, sits in slot 0. */
  lemma OnePass(s: State, t: Tid, merged: bool) returns (ls: seq<Label>)
    requires s.lock.Idle? && |s.slots| == MAX_NUM_THREADS && t != 0 && t in s.threads
    requires s.slots[0] == t && forall k :: 0 < k < |s.slots| ==> s.slots[k] == 0
    requires merged ==> s.threads[t].pending > 0
    ensures Legal(s, ls)
    ensures Exec(s, ls) == s.(active := !s.active, threads := s.threads[t := Poked(s.threads[t], merged)])
  {
    var s1 := Next(s, BeginPass);
    var s2 := Next(s1, Poke(merged));
    EmptyTail(s2, MAX_NUM_THREADS - 1);
    var s3 := s2.(lock := Passing(|s.slots|));
    var s4 := Next(s3, FlipPhase);
    var s5 := Next(s4, Release);
    OneLabel(s, BeginPass);
    OneLabel(s1, Poke(merged));
    OneLabel(s3, FlipPhase);
    OneLabel(s4, Release);
    Append(s, [BeginPass], [Poke(merged)]);
    Append(s, [BeginPass] + [Poke(merged)], Repeat(MAX_NUM_THREADS - 1));
    Append(s, [BeginPass] + [Poke(merged)] + Repeat(MAX_NUM_THREADS - 1), [FlipPhase]);
    Append(s, [BeginPass] + [Poke(merged)] + Repeat(MAX_NUM_THREADS - 1) + [FlipPhase], [Release]);
    ls := [BeginPass] + [Poke(merged)] + Repeat(MAX_NUM_THREADS - 1) + [FlipPhase] + [Release];
  }

  lemma OneLabel(s: State, l: Label)
    requires Enabled(s, l)
    ensures Legal(s, [l]) && Exec(s, [l]) == Next(s, l)
  {
    assert [l][1..] == [];
    assert Legal(Next(s, l), []);
  }

  /** The assumption is needed: one thread, two passes, the second poke merged into the first; at
      rest the thread then samples while the monitor's phase is off. */
  lemma MergedPokeBreaksAgreement() returns (tids: set<Tid>, ls: seq<Label>)
    ensures Legal(Init(tids), ls)
    ensures var s := Exec(Init(tids), ls);
      s.lock.Idle? && 1 in s.slots && 1 in s.threads && s.threads[1].pending == 0 && s.threads[1].on != s.active
  {
    tids := {1};
    var s0 := Init(tids);
    var s1 := Next(s0, BeginRegister(1));
    var s2 := Next(s1, ScanSlot);
    var s3 := Next(s2, Sync);
    var s4 := Next(s3, Release);
    OneLabel(s0, BeginRegister(1));
    OneLabel(s1, ScanSlot);
    OneLabel(s2, Sync);
    OneLabel(s3, Release);
    Append(s0, [BeginRegister(1)], [ScanSlot]);
    Append(s0, [BeginRegister(1)] + [ScanSlot], [Sync]);
    Append(s0, [BeginRegister(1)] + [ScanSlot] + [Sync], [Release]);
    var register := [BeginRegister(1)] + [ScanSlot] + [Sync] + [Release];
    var first := OnePass(s4, 1, false);
    var s5 := Exec(s4, first);
    var second := OnePass(s5, 1, true);
    var s6 := Exec(s5, second);
    OneLabel(s6, Deliver(1));
    Append(s0, register, first);
    Append(s0, register + first, second);
    Append(s0, register + first + second, [Deliver(1)]);
    ls := register + first + second + [Deliver(1)];
  }
}
