/** The slot table of sampled_thread_monitor.c and the code that runs under its lock. */
module SamplerTable {
  import opened Options

  const MAX_NUM_THREADS: nat := 512

  /** A thread identity; zero marks an empty slot. */
  type Tid = nat

  /** Lowest empty slot from index i on. */
  function FreeFrom(slots: seq<Tid>, i: nat): (r: Option<nat>)
    requires i <= |slots|
    ensures r.Some? ==> i <= r.value < |slots| && slots[r.value] == 0
    ensures forall k :: i <= k < (if r.Some? then r.value else |slots|) ==> slots[k] != 0
    decreases |slots| - i
  {
    if i == |slots| then None
    else if slots[i] == 0 then Some(i)
    else FreeFrom(slots, i + 1)
  }

  predicate IsLowestFree(slots: seq<Tid>, k: int) {
    0 <= k < |slots| && slots[k] == 0 && forall j :: 0 <= j < k ==> slots[j] != 0
  }

  lemma LowestFree(slots: seq<Tid>)
    ensures forall k :: IsLowestFree(slots, k) <==> FreeFrom(slots, 0) == Some(k)
    ensures 0 !in slots ==> FreeFrom(slots, 0) == None
  {
  }

  function Registered(slots: seq<Tid>, t: Tid): (r: seq<Tid>)
    ensures |r| == |slots|
  {
    match FreeFrom(slots, 0)
    case None => slots
    case Some(k) => slots[k := t]
  }

  function Removed(slots: seq<Tid>, t: Tid): (r: seq<Tid>)
    ensures |r| == |slots|
  {
    seq(|slots|, k requires 0 <= k < |slots| => if slots[k] == t then 0 else slots[k])
  }

  /** The occupants in slot order. */
  function Occupants(slots: seq<Tid>): seq<Tid> {
    if slots == [] then []
    else Occupants(slots[..|slots| - 1]) + if slots[|slots| - 1] == 0 then [] else [slots[|slots| - 1]]
  }

  /** The occupants are signalled in slot order: an occupant comes after exactly as many others as
      there are occupied slots before its own. */
  lemma {:induction false} OccupantsInOrder(slots: seq<Tid>, i: nat)
    requires i < |slots| && slots[i] != 0
    ensures |Occupants(slots)| == |OccupiedBelow(slots, |slots|)|
    ensures |OccupiedBelow(slots, i)| < |Occupants(slots)|
    ensures Occupants(slots)[|OccupiedBelow(slots, i)|] == slots[i]
    decreases |slots|
  {
    var n := |slots| - 1;
    OccupantCount(slots[..n]);
    OneMoreSlot(slots, n);
    assert forall k :: 0 <= k < n ==> slots[..n][k] == slots[k];
    assert OccupiedBelow(slots[..n], n) == OccupiedBelow(slots, n);
    if i < n {
      OccupantsInOrder(slots[..n], i);
      assert OccupiedBelow(slots[..n], i) == OccupiedBelow(slots, i);
    }
  }

  /** The occupied slots below n. */
  function OccupiedBelow(slots: seq<Tid>, n: nat): set<nat>
    requires n <= |slots|
  {
    set k: nat | k < n && slots[k] != 0
  }

  lemma OneMoreSlot(slots: seq<Tid>, n: nat)
    requires n < |slots|
    ensures OccupiedBelow(slots, n + 1) == OccupiedBelow(slots, n) + if slots[n] != 0 then {n} else {}
  {
  }

  lemma {:induction false} OccupantCount(slots: seq<Tid>)
    ensures |Occupants(slots)| == |OccupiedBelow(slots, |slots|)|
    decreases |slots|
  {
    if slots != [] {
      var n := |slots| - 1;
      OccupantCount(slots[..n]);
      OneMoreSlot(slots, n);
      assert OccupiedBelow(slots[..n], n) == OccupiedBelow(slots, n);
    } else {
      assert OccupiedBelow(slots, 0) == {};
    }
  }

  /** A new thread enters the table exactly when some slot is free, and nobody is displaced. */
  lemma RegistersIffFree(slots: seq<Tid>, t: Tid)
    requires t != 0 && t !in slots
    ensures t in Registered(slots, t) <==> 0 in slots
    ensures forall u :: u != 0 && u in slots ==> u in Registered(slots, t)
    ensures Removed(Registered(slots, t), t) == slots
  {
    var r := FreeFrom(slots, 0);
    if r.Some? {
      assert Registered(slots, t)[r.value] == t;
    }
    forall u | u != 0 && u in slots ensures u in Registered(slots, t) {
      var k :| 0 <= k < |slots| && slots[k] == u;
      assert Registered(slots, t)[k] == u;
    }
    forall k | 0 <= k < |slots| ensures Removed(Registered(slots, t), t)[k] == slots[k] {
    }
  }

  /** The thread-local variables of one thread. */
  class Local {
    var samplingOn: bool
    var threadId: nat

    constructor ()
    {
      samplingOn := true;
      threadId := 0;
    }

    /** handlePoke: report the new state to the client handler, then switch to it. */
    method HandlePoke() returns (callback: bool)
      modifies this`samplingOn
      ensures callback == samplingOn == !old(samplingOn)
    {
      if !samplingOn {
        callback := true;
        samplingOn := true;
      } else {
        callback := false;
        samplingOn := false;
      }
    }
  }

  class SlotTable {
    const threadList: array<Tid>
    var active: bool

    ghost predicate Valid()
      reads this
    {
      threadList.Length == MAX_NUM_THREADS
    }

    constructor ()
      ensures Valid() && fresh(threadList) && !active
      ensures forall k :: 0 <= k < MAX_NUM_THREADS ==> threadList[k] == 0
    {
      threadList := new Tid[MAX_NUM_THREADS](_ => 0);
      active := false;
    }

    /** One critical section of the monitor loop: a signal for every occupant, then the phase
        flips. The signals sent are returned in order. */
    method Pass() returns (pokes: seq<Tid>)
      requires Valid()
      modifies this`active
      ensures Valid() && active == !old(active)
      ensures pokes == Occupants(threadList[..])
    {
      pokes := [];
      var i := 0;
      while i < MAX_NUM_THREADS
        invariant 0 <= i <= MAX_NUM_THREADS
        invariant pokes == Occupants(threadList[..i])
      {
        assert threadList[..i + 1][..i] == threadList[..i];
        if threadList[i] != 0 {
          pokes := pokes + [threadList[i]];
        }
        i := i + 1;
      }
      assert threadList[..MAX_NUM_THREADS] == threadList[..];
      active := !active;
    }

    /** sampled_thread_monitor_thread_init; the monitor thread itself is never registered. */
    method ThreadInit(self: Tid, isMonitor: bool, local: Local)
      requires Valid() && self != 0
      modifies threadList, local
      ensures Valid()
      ensures threadList[..] == if isMonitor then old(threadList[..]) else Registered(old(threadList[..]), self)
      ensures local.samplingOn == if isMonitor then old(local.samplingOn) else active
      ensures local.threadId == match FreeFrom(old(threadList[..]), 0)
                                case None => old(local.threadId)
                                case Some(k) => if isMonitor then old(local.threadId) else k
      ensures !isMonitor ==> forall k :: 0 <= k < 512 && IsLowestFree(old(threadList[..]), k) ==>
        threadList[..] == old(threadList[..])[k := self] && local.threadId == k
      ensures isMonitor || 0 !in old(threadList[..]) ==>
        threadList[..] == old(threadList[..]) && local.threadId == old(local.threadId)
    {
      if isMonitor {
        return;
      }
      var i := 0;
      while i < MAX_NUM_THREADS
        invariant 0 <= i <= MAX_NUM_THREADS
        invariant threadList[..] == old(threadList[..])
        invariant FreeFrom(threadList[..], 0) == FreeFrom(threadList[..], i)
        invariant local.threadId == old(local.threadId)
      {
        if threadList[i] == 0 {
          threadList[i] := self;
          local.threadId := i;
          break;
        }
        i := i + 1;
      }
      local.samplingOn := active;
      LowestFree(old(threadList[..]));
    }

    /** sampled_thread_monitor_deinit. */
    method ThreadDeinit(self: Tid)
      requires Valid()
      modifies threadList
      ensures Valid()
      ensures threadList[..] == Removed(old(threadList[..]), self)
      ensures forall k :: 0 <= k < 512 ==> threadList[k] == if old(threadList[k]) == self then 0 else old(threadList[k])
    {
      var i := 0;
      while i < MAX_NUM_THREADS
        invariant 0 <= i <= MAX_NUM_THREADS
        invariant forall k :: 0 <= k < i ==> threadList[k] == Removed(old(threadList[..]), self)[k]
        invariant forall k :: i <= k < MAX_NUM_THREADS ==> threadList[k] == old(threadList[k])
      {
        if threadList[i] == self {
          threadList[i] := 0;
        }
        i := i + 1;
      }
    }
  }
}
