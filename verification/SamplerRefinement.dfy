/** The fine-grained protocol refines one in which every critical section is a single step. */
module SamplerRefinement {
  import opened SamplerTable
  import opened SamplerProtocol
  import opened Options

  datatype Atomic =
    | PokeEveryone
    | Register(t: Tid)
    | Deregister(t: Tid)
    | Handle(t: Tid)
    | Die(t: Tid)

  /** Every thread listed from slot i on gets one poke. */
  function PokeFrom(threads: map<Tid, Thread>, slots: seq<Tid>, i: nat): map<Tid, Thread>
    requires i <= |slots|
  {
    map t | t in threads :: if t != 0 && t in slots[i..] then Poked(threads[t], false) else threads[t]
  }

  function RegisterNow(s: State, t: Tid): State
    requires t in s.threads
  {
    var free := FreeFrom(s.slots, 0);
    var th := s.threads[t].(slot := if free.Some? then free else s.threads[t].slot);
    s.(slots := Registered(s.slots, t), threads := s.threads[t := Synced(th, s.active)], lock := Idle)
  }

  function DeregisterNow(s: State, t: Tid): State
    requires t in s.threads
  {
    s.(slots := Removed(s.slots, t), threads := s.threads[t := s.threads[t].(life := Retired)], lock := Idle)
  }

  function PassNow(s: State, i: nat): State
    requires i <= |s.slots|
  {
    s.(threads := PokeFrom(s.threads, s.slots, i), active := !s.active, lock := Idle)
  }

  predicate AtomicEnabled(s: State, a: Atomic) {
    match a
    case PokeEveryone => true
    case Register(t) => t in s.threads && s.threads[t].life.Fresh?
    case Deregister(t) => t in s.threads && s.threads[t].life.Active?
    case Handle(t) => t in s.threads && !s.threads[t].life.Exited? && s.threads[t].pending > 0
    case Die(t) => t in s.threads && s.threads[t].life.Retired?
  }

  function AtomicNext(s: State, a: Atomic): State
    requires AtomicEnabled(s, a)
  {
    match a
    case PokeEveryone => PassNow(s, 0)
    case Register(t) => RegisterNow(s, t)
    case Deregister(t) => DeregisterNow(s, t)
    case Handle(t) => s.(threads := s.threads[t := Delivered(s.threads[t])])
    case Die(t) => s.(threads := s.threads[t := s.threads[t].(life := Exited)])
  }

  /** The state once the critical section in progress has been completed. */
  function Finish(s: State): State
    requires s.lock.Passing? ==> s.lock.next <= |s.slots|
    requires s.lock.Scanning? || s.lock.Syncing? || s.lock.Clearing? ==> s.lock.who in s.threads
  {
    match s.lock
    case Idle => s
    case Passing(i) => PassNow(s, i)
    case Scanning(t, _) => RegisterNow(s, t)
    case Syncing(t) => s.(threads := s.threads[t := Synced(s.threads[t], s.active)], lock := Idle)
    case Clearing(t, _) => DeregisterNow(s, t)
    case Leaving(_) => s.(lock := Idle)
  }

  /** The atomic step a label stands for: acquiring the lock stands for the whole critical
      section, the steps inside it for nothing. */
  function Meaning(l: Label): seq<Atomic> {
    match l
    case BeginPass => [PokeEveryone]
    case BeginRegister(t) => [Register(t)]
    case BeginDeregister(t) => [Deregister(t)]
    case Deliver(t) => [Handle(t)]
    case Exit(t) => [Die(t)]
    case _ => []
  }

  predicate AtomicLegal(s: State, acts: seq<Atomic>)
    decreases |acts|
  {
    acts == [] || (AtomicEnabled(s, acts[0]) && AtomicLegal(AtomicNext(s, acts[0]), acts[1..]))
  }

  function AtomicExec(s: State, acts: seq<Atomic>): State
    requires AtomicLegal(s, acts)
    decreases |acts|
  {
    if acts == [] then s else AtomicExec(AtomicNext(s, acts[0]), acts[1..])
  }

  function Meanings(ls: seq<Label>): seq<Atomic> {
    if ls == [] then [] else Meaning(ls[0]) + Meanings(ls[1..])
  }

  lemma PokeFromSplit(threads: map<Tid, Thread>, slots: seq<Tid>, i: nat)
    requires i < |slots| && slots[i] !in slots[i + 1..]
    requires slots[i] != 0 && slots[i] in threads
    ensures PokeFrom(threads[slots[i] := Poked(threads[slots[i]], false)], slots, i + 1) == PokeFrom(threads, slots, i)
  {
    assert slots[i..] == [slots[i]] + slots[i + 1..];
  }

  lemma PokeFromEmpty(threads: map<Tid, Thread>, slots: seq<Tid>, i: nat)
    requires i < |slots| && slots[i] == 0
    ensures PokeFrom(threads, slots, i + 1) == PokeFrom(threads, slots, i)
  {
    assert slots[i..] == [slots[i]] + slots[i + 1..];
  }

  lemma OccupantOnce(s: State, i: nat)
    requires SlotsOk(s) && i < |s.slots| && s.slots[i] != 0
    ensures s.slots[i] !in s.slots[i + 1..]
  {
    var rest := s.slots[i + 1..];
    forall k | 0 <= k < |rest| ensures rest[k] != s.slots[i] {
      assert rest[k] == s.slots[i + 1 + k];
      if s.slots[i + 1 + k] != 0 {
        assert s.threads[s.slots[i + 1 + k]].slot == Some(i + 1 + k);
        assert s.threads[s.slots[i]].slot == Some(i);
      }
    }
  }

  lemma PokeOneThenRest(s: State)
    requires Inv(s) && Enabled(s, Poke(false))
    ensures Finish(Next(s, Poke(false))) == Finish(s)
  {
    hide HistoryOk, PhasesOk, PokeFrom;
    var i := s.lock.next;
    if s.slots[i] == 0 {
      PokeFromEmpty(s.threads, s.slots, i);
    } else {
      OccupantOnce(s, i);
      PokeFromSplit(s.threads, s.slots, i);
    }
  }

  lemma ScanOne(s: State)
    requires Inv(s) && Enabled(s, ScanSlot)
    ensures Finish(Next(s, ScanSlot)) == Finish(s)
  {
    var t, i := s.lock.who, s.lock.next;
    var free := FreeFrom(s.slots, 0);
    if i < |s.slots| && s.slots[i] == 0 {
      assert free == Some(i);
      var th := s.threads[t].(slot := free);
      assert s.threads[t := th][t := Synced(th, s.active)] == s.threads[t := Synced(th, s.active)];
    } else if i == |s.slots| {
      assert free == None;
      assert s.threads[t].(slot := s.threads[t].slot) == s.threads[t];
    }
  }

  lemma ClearOne(s: State)
    requires Inv(s) && Enabled(s, ClearSlot)
    ensures Finish(Next(s, ClearSlot)) == Finish(s)
  {
    var t, i := s.lock.who, s.lock.next;
    var s' := Next(s, ClearSlot);
    if i == |s.slots| {
      assert Removed(s.slots, t) == s.slots;
    } else {
      assert Removed(s'.slots, t) == Removed(s.slots, t);
    }
  }

  lemma FlipOne(s: State)
    requires Inv(s) && Enabled(s, FlipPhase)
    ensures Finish(Next(s, FlipPhase)) == Finish(s)
  {
    assert PokeFrom(s.threads, s.slots, |s.slots|) == s.threads;
  }

  /** What a handler or an exit does to its own thread. */
  function Handled(th: Thread, l: Label): Thread
    requires l.Deliver? ==> th.pending > 0
  {
    if l.Deliver? then Delivered(th) else th.(life := Exited)
  }

  lemma PokesCommute(threads: map<Tid, Thread>, slots: seq<Tid>, i: nat, t: Tid, l: Label)
    requires i <= |slots| && t in threads && (l.Deliver? ==> threads[t].pending > 0)
    ensures PokeFrom(threads, slots, i)[t].pending >= threads[t].pending
    ensures PokeFrom(threads, slots, i)[t].life == threads[t].life
    ensures PokeFrom(threads[t := Handled(threads[t], l)], slots, i)
         == PokeFrom(threads, slots, i)[t := Handled(PokeFrom(threads, slots, i)[t], l)]
  {
  }

  lemma UpdatesCommute(threads: map<Tid, Thread>, t: Tid, a: Thread, u: Tid, b: Thread)
    requires t != u
    ensures threads[t := a][u := b] == threads[u := b][t := a]
  {
  }

  lemma HandlerCommutes(s: State, l: Label)
    requires Inv(s) && Enabled(s, l) && (l.Deliver? || l.Exit?)
    ensures AtomicEnabled(Finish(s), Meaning(l)[0])
    ensures Finish(Next(s, l)) == AtomicNext(Finish(s), Meaning(l)[0])
  {
    if s.lock.Passing? {
      PassingCommutes(s, l);
    } else if s.lock.Scanning? || s.lock.Syncing? {
      RegisteringCommutes(s, l);
    } else if s.lock.Clearing? {
      ClearingCommutes(s, l);
    }
  }

  lemma RegisteringCommutes(s: State, l: Label)
    requires Inv(s) && Enabled(s, l) && (l.Deliver? || l.Exit?) && (s.lock.Scanning? || s.lock.Syncing?)
    ensures AtomicEnabled(Finish(s), Meaning(l)[0])
    ensures Finish(Next(s, l)) == AtomicNext(Finish(s), Meaning(l)[0])
  {
    hide PhasesOk, SlotsOk, Toggled;
    var t, u := l.t, s.lock.who;
    assert t != u;
    UpdatesCommute(s.threads, t, Handled(s.threads[t], l), u, Finish(s).threads[u]);
  }

  lemma ClearingCommutes(s: State, l: Label)
    requires Inv(s) && Enabled(s, l) && (l.Deliver? || l.Exit?) && s.lock.Clearing?
    ensures AtomicEnabled(Finish(s), Meaning(l)[0])
    ensures Finish(Next(s, l)) == AtomicNext(Finish(s), Meaning(l)[0])
  {
    hide PhasesOk, SlotsOk, HistoryOk, Toggled;
    var t, u := l.t, s.lock.who;
    var th := s.threads[t];
    if t != u {
      UpdatesCommute(s.threads, t, Handled(th, l), u, s.threads[u].(life := Retired));
    } else {
      assert l.Deliver?;
      assert s.threads[t := Delivered(th)][t := Delivered(th).(life := Retired)]
          == s.threads[t := th.(life := Retired)][t := Delivered(th.(life := Retired))];
    }
  }

  lemma PassingCommutes(s: State, l: Label)
    requires s.lock.Passing? && s.lock.next <= |s.slots| && Enabled(s, l) && (l.Deliver? || l.Exit?)
    ensures Next(s, l).lock == s.lock && Next(s, l).slots == s.slots
    ensures AtomicEnabled(Finish(s), Meaning(l)[0])
    ensures Finish(Next(s, l)) == AtomicNext(Finish(s), Meaning(l)[0])
  {
    PokesCommute(s.threads, s.slots, s.lock.next, l.t, l);
  }

  /** Every step either completes nothing new, or is one atomic step on the finished state. */
  lemma StepRefines(s: State, l: Label)
    requires Inv(s) && Enabled(s, l) && l != Poke(true)
    ensures Inv(Next(s, l))
    ensures AtomicLegal(Finish(s), Meaning(l)) && Finish(Next(s, l)) == AtomicExec(Finish(s), Meaning(l))
  {
    StepInv(s, l);
    if Meaning(l) != [] {
      assert Meaning(l)[1..] == [];
    }
    match l {
      case Poke(_) => PokeOneThenRest(s);
      case ScanSlot => ScanOne(s);
      case ClearSlot => ClearOne(s);
      case FlipPhase => FlipOne(s);
      case Deliver(t) => HandlerCommutes(s, l);
      case Exit(t) => HandlerCommutes(s, l);
      case _ =>
    }
  }

  lemma {:induction false} AtomicAppend(s: State, acts: seq<Atomic>, bs: seq<Atomic>)
    requires AtomicLegal(s, acts) && AtomicLegal(AtomicExec(s, acts), bs)
    ensures AtomicLegal(s, acts + bs) && AtomicExec(s, acts + bs) == AtomicExec(AtomicExec(s, acts), bs)
    decreases |acts|
  {
    if acts == [] {
      assert acts + bs == bs;
    } else {
      AtomicAppend(AtomicNext(s, acts[0]), acts[1..], bs);
      assert (acts + bs)[1..] == acts[1..] + bs;
    }
  }

  /** Refinement: a run in which no poke is lost, with every critical section cut into small steps
      and handlers delivered anywhere between them, is a run of the atomic protocol. */
  lemma {:induction false} RunRefines(s: State, ls: seq<Label>)
    requires Inv(s) && Legal(s, ls) && NoPokeLost(ls)
    ensures Inv(Exec(s, ls))
    ensures AtomicLegal(Finish(s), Meanings(ls))
    ensures Finish(Exec(s, ls)) == AtomicExec(Finish(s), Meanings(ls))
    decreases |ls|
  {
    if ls != [] {
      assert ls[0] != Poke(true);
      assert forall k :: 0 <= k < |ls[1..]| ==> ls[1..][k] == ls[k + 1];
      StepRefines(s, ls[0]);
      RunRefines(Next(s, ls[0]), ls[1..]);
      AtomicAppend(Finish(s), Meaning(ls[0]), Meanings(ls[1..]));
    }
  }

  /** The handler deliveries and thread exits of a run. */
  function Handlers(ls: seq<Label>): (r: seq<Atomic>)
    ensures forall k :: 0 <= k < |r| ==> r[k].Handle? || r[k].Die?
  {
    if ls == [] then []
    else (match ls[0] case Deliver(t) => [Handle(t)] case Exit(t) => [Die(t)] case _ => []) + Handlers(ls[1..])
  }

  lemma {:induction false} LockExcludes(s: State, ls: seq<Label>)
    requires Legal(s, ls + [Release]) && !s.lock.Idle? && Release !in ls
    ensures Meanings(ls + [Release]) == Handlers(ls) && Exec(s, ls + [Release]).lock.Idle?
    decreases |ls|
  {
    if ls == [] {
      assert (ls + [Release])[1..] == [];
      assert Meanings(ls + [Release]) == Meaning(Release) + Meanings([]);
    } else {
      assert (ls + [Release])[0] == ls[0] && (ls + [Release])[1..] == ls[1..] + [Release];
      assert ls[0] in ls;
      LockExcludes(Next(s, ls[0]), ls[1..]);
    }
  }

  /** Only a pass pokes: none happens while another critical section holds the lock. */
  lemma {:induction false} NoPokesElsewhere(s: State, ls: seq<Label>)
    requires Legal(s, ls + [Release]) && !s.lock.Idle? && !s.lock.Passing? && Release !in ls
    ensures NoPokeLost(ls)
    decreases |ls|
  {
    if ls != [] {
      assert (ls + [Release])[0] == ls[0] && (ls + [Release])[1..] == ls[1..] + [Release];
      assert ls[0] in ls;
      NoPokesElsewhere(Next(s, ls[0]), ls[1..]);
      assert forall k :: 0 < k < |ls| ==> ls[k] == ls[1..][k - 1];
    }
  }

  predicate Begins(l: Label) {
    l.BeginPass? || l.BeginRegister? || l.BeginDeregister?
  }

  /** Any critical section, step by step and interleaved with any handlers, is one atomic step,
      followed by those handlers: nothing else can happen before the lock is released. */
  lemma SectionIsAtomic(s: State, first: Label, mid: seq<Label>)
    requires Inv(s) && s.lock.Idle? && Begins(first) && Release !in mid
    requires Legal(s, [first] + (mid + [Release])) && (first.BeginPass? ==> NoPokeLost(mid))
    ensures AtomicEnabled(s, Meaning(first)[0])
    ensures var s' := AtomicNext(s, Meaning(first)[0]);
      AtomicLegal(s', Handlers(mid)) && Exec(s, [first] + (mid + [Release])) == AtomicExec(s', Handlers(mid))
  {
    var ls := [first] + (mid + [Release]);
    assert ls[0] == first && ls[1..] == mid + [Release];
    LockExcludes(Next(s, first), mid);
    if !first.BeginPass? {
      NoPokesElsewhere(Next(s, first), mid);
    }
    RunRefines(s, ls);
    assert Meanings(ls) == Meaning(first) + Handlers(mid);
    assert Meanings(ls)[0] == Meaning(first)[0] && Meanings(ls)[1..] == Handlers(mid);
  }

  /** A monitor pass, slot by slot, is one step that pokes every listed thread once and flips the
      phase, followed by the handlers delivered meanwhile. */
  lemma PassIsAtomic(s: State, mid: seq<Label>)
    requires Inv(s) && s.lock.Idle? && NoPokeLost(mid) && Release !in mid
    requires Legal(s, [BeginPass] + (mid + [Release]))
    ensures AtomicLegal(PassNow(s, 0), Handlers(mid))
    ensures Exec(s, [BeginPass] + (mid + [Release])) == AtomicExec(PassNow(s, 0), Handlers(mid))
  {
    SectionIsAtomic(s, BeginPass, mid);
  }

  /** Handlers and exits leave the table, the phase and the lock alone, and an active thread with
      nothing in flight. */
  lemma {:induction false} HandlersSpare(s: State, acts: seq<Atomic>, t: Tid)
    requires AtomicLegal(s, acts) && forall k :: 0 <= k < |acts| ==> acts[k].Handle? || acts[k].Die?
    requires t in s.threads && s.threads[t].life.Active? && s.threads[t].pending == 0
    ensures var r := AtomicExec(s, acts);
      r.slots == s.slots && r.active == s.active && t in r.threads && r.threads[t] == s.threads[t]
    decreases |acts|
  {
    if acts != [] {
      assert acts[0].Handle? || acts[0].Die?;
      HandlersSpare(AtomicNext(s, acts[0]), acts[1..], t);
    }
  }

  /** They never touch the table, the phase, or what was sent to anyone. */
  lemma {:induction false} HandlersKeep(s: State, acts: seq<Atomic>)
    requires AtomicLegal(s, acts) && forall k :: 0 <= k < |acts| ==> acts[k].Handle? || acts[k].Die?
    ensures var r := AtomicExec(s, acts);
      && r.slots == s.slots && r.active == s.active && r.lock == s.lock && r.threads.Keys == s.threads.Keys
      && forall t :: t in s.threads ==> r.threads[t].sent == s.threads[t].sent
    decreases |acts|
  {
    if acts != [] {
      assert acts[0].Handle? || acts[0].Die?;
      HandlersKeep(AtomicNext(s, acts[0]), acts[1..]);
    }
  }

  /** A pass that ran to its end has poked every listed thread exactly once and nobody else, has
      flipped the phase, and has left the table alone. */
  lemma PassPokesOnce(s: State, mid: seq<Label>)
    requires Inv(s) && s.lock.Idle? && NoPokeLost(mid) && Release !in mid
    requires Legal(s, [BeginPass] + (mid + [Release]))
    ensures var r := Exec(s, [BeginPass] + (mid + [Release]));
      && r.slots == s.slots && r.active == !s.active && r.lock.Idle? && r.threads.Keys == s.threads.Keys
      && forall t :: t in s.threads ==>
           r.threads[t].sent == s.threads[t].sent + if t in s.slots then 1 else 0
  {
    PassIsAtomic(s, mid);
    HandlersKeep(PassNow(s, 0), Handlers(mid));
    assert s.slots[0..] == s.slots;
  }

  /** A deregistration that ran to its end has emptied the thread's slots and no others. */
  lemma DeregistrationSucceeds(s: State, t: Tid, mid: seq<Label>)
    requires Inv(s) && s.lock.Idle? && Release !in mid
    requires Legal(s, [BeginDeregister(t)] + (mid + [Release]))
    ensures var r := Exec(s, [BeginDeregister(t)] + (mid + [Release]));
      && |r.slots| == |s.slots| && r.active == s.active && r.lock.Idle?
      && forall k :: 0 <= k < |s.slots| ==> r.slots[k] == if s.slots[k] == t then 0 else s.slots[k]
  {
    SectionIsAtomic(s, BeginDeregister(t), mid);
    HandlersKeep(DeregisterNow(s, t), Handlers(mid));
  }

  /** A registration that ran to its end, slot by slot and interleaved with any handlers, has listed
      the thread exactly when a slot was free, in the lowest one, which it recorded; the thread is in
      the current phase with nothing in flight, and nobody was displaced. */
  lemma RegistrationSucceeds(s: State, t: Tid, mid: seq<Label>)
    requires Inv(s) && s.lock.Idle? && Release !in mid
    requires Legal(s, [BeginRegister(t)] + (mid + [Release]))
    ensures var r := Exec(s, [BeginRegister(t)] + (mid + [Release]));
      && (t in r.slots <==> 0 in s.slots)
      && (forall u :: u != 0 && u in s.slots ==> u in r.slots)
      && r.active == s.active && t in r.threads
      && r.threads[t].on == s.active && r.threads[t].pending == 0 && r.threads[t].life.Active?
      && (t in r.slots ==>
            exists k :: 0 <= k < |s.slots| && s.slots[k] == 0 && (forall j :: 0 <= j < k ==> s.slots[j] != 0)
              && r.slots == s.slots[k := t] && r.threads[t].slot == Some(k))
      && (t !in r.slots ==> r.slots == s.slots)
  {
    SectionIsAtomic(s, BeginRegister(t), mid);
    AtomicRegistration(s, t);
    HandlersSpare(RegisterNow(s, t), Handlers(mid), t);
  }

  lemma AtomicRegistration(s: State, t: Tid)
    requires Inv(s) && s.lock.Idle? && AtomicEnabled(s, Register(t))
    ensures var r := RegisterNow(s, t); var th := r.threads[t];
      && (t in r.slots <==> 0 in s.slots)
      && (t in r.slots ==>
            exists k :: 0 <= k < |s.slots| && s.slots[k] == 0 && (forall j :: 0 <= j < k ==> s.slots[j] != 0)
              && r.slots == s.slots[k := t] && th.slot == Some(k))
      && (t !in r.slots ==> r.slots == s.slots)
      && th.on == s.active && th.pending == 0 && th.life.Active?
      && (forall u :: u != 0 && u in s.slots ==> u in r.slots)
  {
    assert t !in s.slots;
    RegistersIffFree(s.slots, t);
  }

  /** Signals delivered to the threads in a list, one after the other. */
  function Signalled(threads: map<Tid, Thread>, pokes: seq<Tid>): map<Tid, Thread> {
    if pokes == [] then threads
    else
      var before := Signalled(threads, pokes[..|pokes| - 1]);
      var t := pokes[|pokes| - 1];
      if t in before then before[t := Poked(before[t], false)] else before
  }

  /** The last slot's occupant is poked on top of all others. */
  lemma PokeFromLast(threads: map<Tid, Thread>, front: seq<Tid>, t: Tid)
    requires t != 0 ==> t !in front
    ensures var before := PokeFrom(threads, front, 0);
      && before.Keys == threads.Keys
      && (t != 0 && t in threads ==> before[t] == threads[t])
      && PokeFrom(threads, front + [t], 0)
         == if t != 0 && t in threads then before[t := Poked(threads[t], false)] else before
  {
    assert (front + [t])[0..] == front + [t] && front[0..] == front;
  }

  /** The signals the imperative pass sends are exactly the atomic step's pokes. */
  lemma {:induction false} OccupantsPoked(threads: map<Tid, Thread>, slots: seq<Tid>)
    requires forall i, j :: 0 <= i < j < |slots| && slots[i] != 0 ==> slots[i] != slots[j]
    ensures Signalled(threads, Occupants(slots)) == PokeFrom(threads, slots, 0)
  {
    if slots == [] {
      assert PokeFrom(threads, slots, 0) == threads;
    } else {
      hide PokeFrom;
      var front, t := slots[..|slots| - 1], slots[|slots| - 1];
      OccupantsPoked(threads, front);
      PokeFromLast(threads, front, t);
      assert slots == front + [t];
      if t != 0 {
        assert Occupants(slots)[..|Occupants(slots)| - 1] == Occupants(front);
      } else {
        assert Occupants(slots) == Occupants(front);
      }
    }
  }
}
