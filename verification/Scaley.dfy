/** Scaley: live-byte accounting over malloc and free, and the ten-read window. */
module Scaley {
  const S_LEN: nat := 10

  type Addr = nat

  /** The contents of allocPerStreamHisto. */
  type Window = w: seq<int> | |w| == S_LEN witness [0, 0, 0, 0, 0, 0, 0, 0, 0, 0]

  /** The plugin's globals as one value. */
  datatype Account = Account(
    allocatedBytes: int, freedBytes: int, stdinBytes: int, sinceRead: int, lastRead: int,
    window: Window, sizes: map<Addr, nat>, inited: bool)

  /** Calls the plugin sees. The address malloc returns is the allocator's choice. */
  datatype Event = Load | Malloc(ret: Addr, sz: nat) | Free(ptr: Addr) | Read(fd: int, sz: nat)

  function Initial(): Account {
    Account(0, 0, 0, 0, 0, seq(S_LEN, _ => 0), map[], false)
  }

  /** Size on record; an absent block has size zero. */
  function SizeOf(a: Account, p: Addr): nat {
    if p in a.sizes then a.sizes[p] else 0
  }

  function Apply(a: Account, e: Event): Account {
    match e
    case Load => a.(sizes := map[], inited := true)
    case Malloc(ret, sz) =>
      if !a.inited then a
      else a.(allocatedBytes := a.allocatedBytes + sz, sinceRead := a.sinceRead + sz, sizes := a.sizes[ret := sz])
    case Free(ptr) =>
      if !a.inited || SizeOf(a, ptr) == 0 then a
      else a.(freedBytes := a.freedBytes + SizeOf(a, ptr), sinceRead := a.sinceRead - SizeOf(a, ptr),
              sizes := a.sizes - {ptr})
    case Read(fd, sz) =>
      a.(window := a.window[1..] + [a.sinceRead], sinceRead := 0, lastRead := sz,
         stdinBytes := a.stdinBytes + if fd == 0 then sz else 0)
  }

  function Sum(s: seq<int>): int {
    if s == [] then 0 else Sum(s[..|s| - 1]) + s[|s| - 1]
  }

  class Plugin {
    var numAllocatedBytes: int
    var numFreedBytes: int
    var numStdinBytes: int
    var bytesSinceLastRead: int
    var lastReadBytes: int
    const allocPerStreamHisto: array<int>
    var blockSizes: map<Addr, nat>
    var inited: bool

    ghost predicate Valid()
      reads this
    {
      allocPerStreamHisto.Length == S_LEN
    }

    ghost function State(): Account
      requires Valid()
      reads this, allocPerStreamHisto
    {
      Account(numAllocatedBytes, numFreedBytes, numStdinBytes, bytesSinceLastRead, lastReadBytes,
              allocPerStreamHisto[..], blockSizes, inited)
    }

    constructor ()
      ensures Valid() && fresh(allocPerStreamHisto) && State() == Initial()
    {
      numAllocatedBytes, numFreedBytes, numStdinBytes := 0, 0, 0;
      bytesSinceLastRead, lastReadBytes := 0, 0;
      allocPerStreamHisto := new int[S_LEN](_ => 0);
      blockSizes, inited := map[], false;
      new;
      assert allocPerStreamHisto[..] == seq(S_LEN, _ => 0);
    }

    method PluginInit()
      requires Valid()
      modifies this`blockSizes, this`inited
      ensures Valid() && State() == Apply(old(State()), Load)
    {
      blockSizes := map[];
      inited := true;
    }

    method DoMalloc(ret: Addr, sz: nat)
      requires Valid()
      modifies this
      ensures Valid() && State() == Apply(old(State()), Malloc(ret, sz))
    {
      if inited {
        blockSizes := blockSizes[ret := sz];
        numAllocatedBytes := numAllocatedBytes + sz;
        bytesSinceLastRead := bytesSinceLastRead + sz;
      }
    }

    method DoFree(ptr: Addr)
      requires Valid()
      modifies this
      ensures Valid() && State() == Apply(old(State()), Free(ptr))
    {
      if inited {
        var sz := if ptr in blockSizes then blockSizes[ptr] else 0;
        if sz != 0 {
          numFreedBytes := numFreedBytes + sz;
          blockSizes := blockSizes - {ptr};
        }
        bytesSinceLastRead := bytesSinceLastRead - sz;
      }
    }

    /** read: the shift of the histogram in place, the running sum, and the scaling warning, which
        is given when the average over the window is positive. */
    method DoRead(fd: int, sz: nat) returns (warned: bool)
      requires Valid()
      modifies this, allocPerStreamHisto
      ensures Valid() && State() == Apply(old(State()), Read(fd, sz))
      ensures warned <==> Sum(State().window) > 0
    {
      var i, sum := 0, 0;
      while i < S_LEN - 1
        invariant 0 <= i <= S_LEN - 1
        invariant forall k :: 0 <= k < i ==> allocPerStreamHisto[k] == old(allocPerStreamHisto[k + 1])
        invariant forall k :: i <= k < S_LEN ==> allocPerStreamHisto[k] == old(allocPerStreamHisto[k])
        invariant sum == Sum(allocPerStreamHisto[..i])
        invariant State() == old(State()).(window := allocPerStreamHisto[..])
      {
        allocPerStreamHisto[i] := allocPerStreamHisto[i + 1];
        sum := sum + allocPerStreamHisto[i];
        assert allocPerStreamHisto[..i + 1][..i] == allocPerStreamHisto[..i];
        i := i + 1;
      }
      allocPerStreamHisto[S_LEN - 1] := bytesSinceLastRead;
      sum := sum + allocPerStreamHisto[S_LEN - 1];
      assert allocPerStreamHisto[..][..S_LEN - 1] == allocPerStreamHisto[..S_LEN - 1];
      assert allocPerStreamHisto[..] == old(allocPerStreamHisto[..])[1..] + [old(bytesSinceLastRead)];
      var avg := sum as real / S_LEN as real;
      warned := avg > 0.0;
      if fd == 0 {
        numStdinBytes := numStdinBytes + sz;
      }
      lastReadBytes := sz;
      bytesSinceLastRead := 0;
    }
  }

  // ---------------------------------------------------------------- runs

  function Run(es: seq<Event>): Account {
    if es == [] then Initial() else Apply(Run(es[..|es| - 1]), es[|es| - 1])
  }

  /** What the k-th read puts into the window. */
  function Deposits(es: seq<Event>): seq<int> {
    if es == [] then []
    else Deposits(es[..|es| - 1]) + if es[|es| - 1].Read? then [Run(es[..|es| - 1]).sinceRead] else []
  }

  /** Live bytes, allocated minus freed, at each read. */
  function LiveAtReads(es: seq<Event>): seq<int> {
    if es == [] then []
    else
      var a := Run(es[..|es| - 1]);
      LiveAtReads(es[..|es| - 1]) + if es[|es| - 1].Read? then [a.allocatedBytes - a.freedBytes] else []
  }

  // ---------------------------------------------------------------- conservation

  ghost function Total(m: map<Addr, nat>): int {
    if m == map[] then 0
    else
      var k :| k in m;
      m[k] + Total(m - {k})
  }

  lemma {:induction false} TotalSplit(m: map<Addr, nat>, k: Addr)
    requires k in m
    ensures Total(m) == m[k] + Total(m - {k})
    decreases |m|
  {
    var j :| j in m && Total(m) == m[j] + Total(m - {j});
    if j != k {
      TotalSplit(m - {j}, k);
      TotalSplit(m - {k}, j);
      assert m - {j} - {k} == m - {k} - {j};
    }
  }

  lemma TotalUpdate(m: map<Addr, nat>, k: Addr, v: nat)
    ensures Total(m[k := v]) == Total(m) + v - if k in m then m[k] else 0
  {
    TotalSplit(m[k := v], k);
    assert m[k := v] - {k} == m - {k};
    if k in m {
      TotalSplit(m, k);
    } else {
      assert m - {k} == m;
    }
  }

  lemma {:induction false} TotalNonnegative(m: map<Addr, nat>)
    ensures Total(m) >= 0
    decreases |m|
  {
    if m != map[] {
      var k :| k in m;
      TotalSplit(m, k);
      TotalNonnegative(m - {k});
    }
  }

  /** Bytes whose record an event wipes out without a free: malloc returning a block still on
      record, or the plugin being loaded again. */
  ghost function Dropped(a: Account, e: Event): int {
    match e
    case Malloc(ret, _) => if a.inited then SizeOf(a, ret) else 0
    case Load => Total(a.sizes)
    case _ => 0
  }

  ghost function AllDropped(es: seq<Event>): int {
    if es == [] then 0 else AllDropped(es[..|es| - 1]) + Dropped(Run(es[..|es| - 1]), es[|es| - 1])
  }

  /** Allocated minus freed bytes is what the table holds plus what was dropped from it, and also
      the sum of all deposits plus the bytes since the last read. */
  lemma {:induction false} Balance(es: seq<Event>)
    ensures var a := Run(es);
      && a.allocatedBytes - a.freedBytes == Total(a.sizes) + AllDropped(es)
      && a.allocatedBytes - a.freedBytes == Sum(Deposits(es)) + a.sinceRead
    decreases |es|
  {
    if es != [] {
      var a, e := Run(es[..|es| - 1]), es[|es| - 1];
      Balance(es[..|es| - 1]);
      if !e.Read? { assert Deposits(es) == Deposits(es[..|es| - 1]); }
      match e {
        case Malloc(ret, sz) => TotalUpdate(a.sizes, ret, sz);
        case Free(ptr) => if ptr in a.sizes { TotalSplit(a.sizes, ptr); }
        case Read(_, _) =>
          var d := Deposits(es);
          assert d[..|d| - 1] == Deposits(es[..|es| - 1]);
        case Load => assert Total(map[]) == 0;
      }
    }
  }

  /** malloc only returns addresses that are untracked or tracked with size zero, and the plugin is
      not loaded again while it tracks bytes. */
  ghost predicate Clean(es: seq<Event>) {
    forall n :: 0 <= n < |es| ==> Dropped(Run(es[..n]), es[n]) == 0
  }

  lemma DropsNothingBack(a: Account, e: Event)
    ensures Dropped(a, e) >= 0
  {
    TotalNonnegative(a.sizes);
  }

  lemma CleanSplit(es: seq<Event>)
    requires es != []
    ensures Clean(es) <==> Clean(es[..|es| - 1]) && Dropped(Run(es[..|es| - 1]), es[|es| - 1]) == 0
  {
    hide Run, Dropped;
    var front := es[..|es| - 1];
    assert forall n :: 0 <= n < |front| ==> front[..n] == es[..n] && front[n] == es[n];
  }

  lemma {:induction false} DroppedNonnegative(es: seq<Event>)
    ensures AllDropped(es) >= 0
    ensures AllDropped(es) == 0 <==> Clean(es)
    decreases |es|
  {
    if es != [] {
      hide Run, Dropped, Clean;
      DroppedNonnegative(es[..|es| - 1]);
      DropsNothingBack(Run(es[..|es| - 1]), es[|es| - 1]);
      CleanSplit(es);
    }
  }

  /** Conservation, exactly: allocated minus freed bytes equals the sum of the block-size table
      after a run if and only if no event of the run wiped out a record. */
  lemma ConservedExactly(es: seq<Event>)
    ensures Run(es).allocatedBytes - Run(es).freedBytes == Total(Run(es).sizes) <==> Clean(es)
  {
    Balance(es);
    DroppedNonnegative(es);
  }

  // ---------------------------------------------------------------- the window

  /** Deposit i from the end of the window; zero before the first read. */
  function Padded(d: seq<int>, i: int): int {
    if 0 <= i < |d| then d[i] else 0
  }

  lemma {:induction false} WindowHolds(es: seq<Event>)
    ensures forall i :: 0 <= i < S_LEN ==> Run(es).window[i] == Padded(Deposits(es), |Deposits(es)| - S_LEN + i)
    decreases |es|
  {
    if es != [] {
      WindowHolds(es[..|es| - 1]);
    }
  }

  /** Live bytes at the k-th read from the start, counting from one; zero before the first. */
  function LiveAt(es: seq<Event>, k: int): int {
    if 1 <= k <= |LiveAtReads(es)| then LiveAtReads(es)[k - 1] else 0
  }

  lemma {:induction false} LiveIsSum(es: seq<Event>, k: nat)
    requires k <= |Deposits(es)|
    ensures |LiveAtReads(es)| == |Deposits(es)|
    ensures LiveAt(es, k) == Sum(Deposits(es)[..k])
    decreases |es|
  {
    if es != [] {
      var front := es[..|es| - 1];
      var d := Deposits(es);
      if k <= |Deposits(front)| {
        LiveIsSum(front, k);
        assert d[..k] == Deposits(front)[..k];
      } else {
        LiveIsSum(front, |Deposits(front)|);
        Balance(front);
        assert d[..k] == d && d[..|d| - 1] == Deposits(front);
      }
    }
  }

  lemma {:induction false} SumOfTail(w: seq<int>, d: seq<int>, m: int)
    requires forall i :: 0 <= i < |w| ==> w[i] == Padded(d, m + i)
    requires 0 <= m + |w| <= |d|
    ensures Sum(w) == Sum(d[..m + |w|]) - Sum(d[..if m < 0 then 0 else m])
    decreases |w|
  {
    if w != [] {
      var n := |w| - 1;
      if m + n >= 0 {
        SumOfTail(w[..n], d, m);
        assert d[..m + n + 1][..m + n] == d[..m + n];
      } else {
        assert m + |w| == 0;
        AllZero(w);
      }
    }
  }

  lemma {:induction false} AllZero(w: seq<int>)
    requires forall i :: 0 <= i < |w| ==> w[i] == 0
    ensures Sum(w) == 0
    decreases |w|
  {
    if w != [] {
      AllZero(w[..|w| - 1]);
    }
  }

  /** Window telescoping: after any run, the window holds the last ten deposits padded with zeros,
      and its sum is the live bytes at the latest read minus those ten reads earlier. */
  lemma WindowTelescopes(es: seq<Event>)
    ensures var w, k := Run(es).window, |LiveAtReads(es)|;
      && |w| == 10 && (forall i :: 0 <= i < 10 ==> w[i] == Padded(Deposits(es), |Deposits(es)| - 10 + i))
      && Sum(w) == LiveAt(es, k) - LiveAt(es, k - 10)
  {
    WindowHolds(es);
    var d := Deposits(es);
    LiveIsSum(es, |d|);
    SumOfTail(Run(es).window, d, |d| - S_LEN);
    if |d| >= S_LEN {
      LiveIsSum(es, |d| - S_LEN);
    }
  }

  // ---------------------------------------------------------------- the counters, read off the events

  /** The plugin has been loaded. */
  predicate Tracking(es: seq<Event>) {
    exists k :: 0 <= k < |es| && es[k] == Load
  }

  /** Bytes requested from malloc while tracking. */
  function Requested(es: seq<Event>): int {
    if es == [] then 0
    else
      var front, e := es[..|es| - 1], es[|es| - 1];
      Requested(front) + if e.Malloc? && Tracking(front) then e.sz else 0
  }

  /** Size of the latest malloc that returned p while tracking, unless p was freed or the plugin was
      loaded since. */
  function RecordOf(es: seq<Event>, p: Addr): nat {
    if es == [] then 0
    else
      var front, e := es[..|es| - 1], es[|es| - 1];
      if e == Load || e == Free(p) then 0
      else if e.Malloc? && e.ret == p && Tracking(front) then e.sz
      else RecordOf(front, p)
  }

  /** Bytes on record for the blocks that were freed, each at its free. */
  function Released(es: seq<Event>): int {
    if es == [] then 0
    else
      var front, e := es[..|es| - 1], es[|es| - 1];
      Released(front) + if e.Free? then RecordOf(front, e.ptr) else 0
  }

  /** Bytes requested from reads of descriptor 0. */
  function StreamedIn(es: seq<Event>): int {
    if es == [] then 0
    else
      var front, e := es[..|es| - 1], es[|es| - 1];
      StreamedIn(front) + if e.Read? && e.fd == 0 then e.sz else 0
  }

  function LatestRead(es: seq<Event>): int {
    if es == [] then 0
    else if es[|es| - 1].Read? then es[|es| - 1].sz
    else LatestRead(es[..|es| - 1])
  }

  /** After any run the counters are what the events say. */
  lemma {:induction false} CountersMatch(es: seq<Event>)
    ensures var a := Run(es);
      && a.inited == Tracking(es)
      && a.allocatedBytes == Requested(es) && a.freedBytes == Released(es)
      && a.stdinBytes == StreamedIn(es) && a.lastRead == LatestRead(es)
      && forall p: Addr :: SizeOf(a, p) == RecordOf(es, p)
    decreases |es|
  {
    if es != [] {
      var front, e := es[..|es| - 1], es[|es| - 1];
      CountersMatch(front);
      assert Tracking(es) <==> Tracking(front) || e == Load by {
        if Tracking(front) { var k :| 0 <= k < |front| && front[k] == Load; assert es[k] == Load; }
        if k :| 0 <= k < |es| && es[k] == Load && k < |front| { assert front[k] == Load; }
      }
      if !Tracking(front) {
        forall p ensures RecordOf(front, p) == 0 { NotTracked(front, p); }
      }
    }
  }

  lemma {:induction false} NotTracked(es: seq<Event>, p: Addr)
    requires !Tracking(es)
    ensures RecordOf(es, p) == 0
    decreases |es|
  {
    if es != [] {
      var front := es[..|es| - 1];
      assert forall k :: 0 <= k < |front| ==> front[k] == es[k];
      NotTracked(front, p);
    }
  }

  /** The record of p is the size of the n-th event's malloc as long as nothing has touched it. */
  lemma {:induction false} RecordStays(es: seq<Event>, n: nat, p: Addr, sz: nat)
    requires n < |es| && es[n] == Malloc(p, sz) && Tracking(es[..n])
    requires forall k :: n < k < |es| ==> es[k] != Load && es[k] != Free(p) && !(es[k].Malloc? && es[k].ret == p)
    ensures RecordOf(es, p) == SizeOf(Run(es), p) == sz
    decreases |es|
  {
    CountersMatch(es);
    if n < |es| - 1 {
      var front := es[..|es| - 1];
      assert front[..n] == es[..n];
      RecordStays(front, n, p, sz);
    }
  }
}
