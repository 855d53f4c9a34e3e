/** The compilation-unit cursor hidden in libdwarf's handle, and the queries that share it. */
module CuCursor {
  import opened Arith
  import opened DieStore
  import opened Options

  const NOT_FOUND: nat := 0xffff_ffff_ffff_ffff

  datatype Line = Line(file: string, number: nat, addr: nat)

  /** One entry at the top of a unit; range is present when both pc attributes are. */
  datatype Top = Top(range: Option<PcRange>, lines: seq<Line>)

  type Unit = seq<Top>

  /** Position of a top entry: unit and place in it. */
  datatype CuDie = CuDie(unit: nat, top: nat)

  predicate Covers(t: Top, addr: nat) {
    t.range.Some? && t.range.value.lo <= addr <= t.range.value.hi
  }

  function CoverIn(u: Unit, i: nat, addr: nat): (r: Option<nat>)
    requires i <= |u|
    ensures r.Some? ==> i <= r.value < |u| && Covers(u[r.value], addr)
    ensures forall k :: i <= k < (if r.Some? then r.value else |u|) ==> !Covers(u[k], addr)
    decreases |u| - i
  {
    if i == |u| then None else if Covers(u[i], addr) then Some(i) else CoverIn(u, i + 1, addr)
  }

  /** First covering entry of the units from index c on. */
  function CoverFrom(units: seq<Unit>, c: nat, addr: nat): (r: Option<CuDie>)
    requires c <= |units|
    ensures r.Some? ==> c <= r.value.unit < |units| && CoverIn(units[r.value.unit], 0, addr) == Some(r.value.top)
    ensures forall k :: c <= k < (if r.Some? then r.value.unit else |units|) ==> CoverIn(units[k], 0, addr) == None
    decreases |units| - c
  {
    if c == |units| then None
    else
      match CoverIn(units[c], 0, addr)
      case Some(i) => Some(CuDie(c, i))
      case None => CoverFrom(units, c + 1, addr)
  }

  /** A file name given in part, and a line number. */
  datatype Target = Target(file: string, line: nat)

  predicate HasSubstring(s: string, sub: string) {
    exists i {:trigger s[i..]} :: 0 <= i <= |s| && sub <= s[i..]
  }

  predicate Hits(l: Line, t: Target) {
    t.line == l.number && HasSubstring(l.file, t.file)
  }

  predicate NoneBefore(lines: seq<Line>, i: nat, k: nat, t: Target)
    requires k <= |lines|
  {
    forall j :: i <= j < k ==> !Hits(lines[j], t)
  }

  function LineIn(lines: seq<Line>, i: nat, t: Target): (r: Option<nat>)
    requires i <= |lines|
    ensures r.Some? ==>
      exists k :: i <= k < |lines| && Hits(lines[k], t) && lines[k].addr == r.value && NoneBefore(lines, i, k, t)
    ensures r.None? ==> forall k :: i <= k < |lines| ==> !Hits(lines[k], t)
    decreases |lines| - i
  {
    if i == |lines| then None else if Hits(lines[i], t) then Some(lines[i].addr) else LineIn(lines, i + 1, t)
  }

  function HitIn(u: Unit, i: nat, t: Target): Option<nat>
    requires i <= |u|
    decreases |u| - i
  {
    if i == |u| then None
    else
      match LineIn(u[i].lines, 0, t)
      case Some(a) => Some(a)
      case None => HitIn(u, i + 1, t)
  }

  /** First unit from c on with a hit, as its index and address. */
  function HitFrom(units: seq<Unit>, c: nat, t: Target): (r: Option<(nat, nat)>)
    requires c <= |units|
    ensures r.Some? ==> c <= r.value.0 < |units|
    decreases |units| - c
  {
    if c == |units| then None
    else
      match HitIn(units[c], 0, t)
      case Some(a) => Some((c, a))
      case None => HitFrom(units, c + 1, t)
  }

  // ---------------------------------------------------------------- rows of the line tables

  /** The row has the line number asked for, and a file name that contains the one given. */
  ghost predicate RowFor(l: Line, t: Target) {
    l.number == t.line && exists pre, post :: l.file == pre + t.file + post
  }

  lemma HitsAreRows(l: Line, t: Target)
    ensures Hits(l, t) <==> RowFor(l, t)
  {
    if i :| 0 <= i <= |l.file| && t.file <= l.file[i..] {
      assert l.file == l.file[..i] + t.file + l.file[i + |t.file|..];
    }
    if pre, post :| l.file == pre + t.file + post {
      assert l.file[|pre|..] == t.file + post;
    }
  }

  /** Row k of entry i is the unit's first row for the target. */
  ghost predicate FirstRow(u: Unit, t: Target, i: nat, k: nat) {
    && i < |u| && k < |u[i].lines| && RowFor(u[i].lines[k], t)
    && (forall m :: 0 <= m < k ==> !RowFor(u[i].lines[m], t))
    && (forall j, m :: 0 <= j < i && 0 <= m < |u[j].lines| ==> !RowFor(u[j].lines[m], t))
  }

  ghost predicate NoRow(u: Unit, t: Target) {
    forall j, m :: 0 <= j < |u| && 0 <= m < |u[j].lines| ==> !RowFor(u[j].lines[m], t)
  }

  /** The address in the unit's first row for the target. */
  ghost predicate FirstRowAt(u: Unit, t: Target, addr: nat) {
    exists i: nat, k: nat :: FirstRow(u, t, i, k) && u[i].lines[k].addr == addr
  }

  lemma LineInIsFirst(lines: seq<Line>, t: Target) returns (k: nat)
    ensures k <= |lines| && forall m :: 0 <= m < k ==> !RowFor(lines[m], t)
    ensures k < |lines| ==> RowFor(lines[k], t) && LineIn(lines, 0, t) == Some(lines[k].addr)
    ensures k == |lines| ==> LineIn(lines, 0, t) == None
  {
    forall m: nat | m < |lines| ensures Hits(lines[m], t) <==> RowFor(lines[m], t) {
      HitsAreRows(lines[m], t);
    }
    var r := LineIn(lines, 0, t);
    if r.Some? {
      k :| 0 <= k < |lines| && Hits(lines[k], t) && lines[k].addr == r.value && NoneBefore(lines, 0, k, t);
    } else {
      k := |lines|;
    }
  }

  lemma {:induction false} HitInIsFirst(u: Unit, i: nat, t: Target) returns (j: nat, k: nat)
    requires i <= |u|
    ensures i <= j <= |u|
    ensures forall n, m :: i <= n < j && 0 <= m < |u[n].lines| ==> !RowFor(u[n].lines[m], t)
    ensures j == |u| ==> HitIn(u, i, t) == None
    ensures j < |u| ==>
      && k < |u[j].lines| && RowFor(u[j].lines[k], t) && HitIn(u, i, t) == Some(u[j].lines[k].addr)
      && forall m :: 0 <= m < k ==> !RowFor(u[j].lines[m], t)
    decreases |u| - i
  {
    j, k := i, 0;
    if i < |u| {
      k := LineInIsFirst(u[i].lines, t);
      if k == |u[i].lines| {
        j, k := HitInIsFirst(u, i + 1, t);
      }
    }
  }

  /** A unit's hit is the address in its first row for the target; it has none when there is no row. */
  lemma HitIsFirstRow(u: Unit, t: Target, addr: nat)
    ensures HitIn(u, 0, t) == Some(addr) <==> FirstRowAt(u, t, addr)
    ensures HitIn(u, 0, t) == None <==> NoRow(u, t)
  {
    var j, k := HitInIsFirst(u, 0, t);
    if j < |u| {
      assert FirstRow(u, t, j, k);
      forall i: nat, m: nat | FirstRow(u, t, i, m) ensures i == j && m == k {
      }
    }
  }

  lemma {:induction false} HitFromSkips(units: seq<Unit>, c: nat, t: Target)
    requires c <= |units|
    ensures var hit := HitFrom(units, c, t);
      && (hit.Some? ==> HitIn(units[hit.value.0], 0, t) == Some(hit.value.1))
      && forall n :: c <= n < (if hit.Some? then hit.value.0 else |units|) ==> HitIn(units[n], 0, t) == None
    decreases |units| - c
  {
    if c < |units| {
      HitFromSkips(units, c + 1, t);
    }
  }

  /** No unit from c to n has a row for the target. */
  ghost predicate NoRows(units: seq<Unit>, c: nat, n: nat, t: Target)
    requires n <= |units|
  {
    forall m :: c <= m < n ==> NoRow(units[m], t)
  }

  /** The answer to a query from unit c on, and where it leaves the cursor. */
  ghost predicate AnswersFrom(units: seq<Unit>, c: nat, t: Target, addr: nat, cursor: nat) {
    if 0 < cursor <= |units|
    then c < cursor && FirstRowAt(units[cursor - 1], t, addr) && NoRows(units, c, cursor - 1, t)
    else cursor == 0 && addr == 0xffff_ffff_ffff_ffff && NoRows(units, c, |units|, t)
  }

  // ---------------------------------------------------------------- commands

  /** The cursor counts the headers read; dwarf_next_cu_header reads one more, or reports the end
      and starts over. */
  function NextHeader(units: seq<Unit>, c: nat): (bool, nat)
    requires c <= |units|
  {
    if c < |units| then (true, c + 1) else (false, 0)
  }

  /** Headers are read until the end is reported. */
  function ResetFrom(units: seq<Unit>, c: nat): (r: nat)
    requires c <= |units|
    ensures r <= |units|
    decreases |units| - c
  {
    var (ok, next) := NextHeader(units, c);
    if ok then ResetFrom(units, next) else next
  }

  /** Where a search that stopped at a unit, or found nothing, leaves the cursor. */
  function CursorAfter(stop: Option<nat>): nat {
    if stop.Some? then stop.value + 1 else 0
  }

  /** File-and-line queries do not reset the cursor; all address queries do, before and after;
      ScopesAt looks its address up first and then resets. */
  datatype Command = FileLine(t: Target) | AtAddress(addr: nat) | ScopesAt(t: Target)

  datatype Response = Address(addr: nat) | Cu(die: CuDie) | CannotFind

  function AddressOf(hit: Option<(nat, nat)>): nat {
    if hit.Some? then hit.value.1 else NOT_FOUND
  }

  function RespondFileLine(units: seq<Unit>, cursor: nat, t: Target): (r: (nat, Response))
    requires cursor <= |units|
    ensures r.0 <= |units|
  {
    var hit := HitFrom(units, cursor, t);
    (CursorAfter(if hit.Some? then Some(hit.value.0) else None), Address(AddressOf(hit)))
  }

  /** A file-and-line query answers with the first row from the cursor on. */
  lemma FileLineAnswers(units: seq<Unit>, cursor: nat, t: Target)
    requires cursor <= |units|
    ensures var (c, r) := RespondFileLine(units, cursor, t);
      r.Address? && AnswersFrom(units, cursor, t, r.addr, c)
  {
    HitFromSkips(units, cursor, t);
    var hit := HitFrom(units, cursor, t);
    forall n: nat | n < |units| ensures HitIn(units[n], 0, t) == None ==> NoRow(units[n], t) {
      HitIsFirstRow(units[n], t, 0);
    }
    if hit.Some? {
      HitIsFirstRow(units[hit.value.0], t, hit.value.1);
    }
  }

  /** Reset, search from where that leaves the cursor, reset. */
  function RespondAtAddress(units: seq<Unit>, cursor: nat, addr: nat): (r: (nat, Response))
    requires cursor <= |units|
    ensures r.0 <= |units|
  {
    var cu := CoverFrom(units, ResetFrom(units, cursor), addr);
    var stop := CursorAfter(if cu.Some? then Some(cu.value.unit) else None);
    (ResetFrom(units, stop), if addr != NOT_FOUND && cu.Some? then Cu(cu.value) else CannotFind)
  }

  /** Resetting reaches the start from everywhere. */
  lemma {:induction false} ResetStarts(units: seq<Unit>, c: nat)
    requires c <= |units|
    ensures ResetFrom(units, c) == 0
    decreases |units| - c
  {
    if c < |units| {
      ResetStarts(units, c + 1);
    }
  }

  /** The cursor after a command, and the response. */
  function Respond(units: seq<Unit>, cursor: nat, c: Command): (r: (nat, Response))
    requires cursor <= |units|
    ensures r.0 <= |units|
  {
    match c
    case AtAddress(addr) => RespondAtAddress(units, cursor, addr)
    case FileLine(t) => RespondFileLine(units, cursor, t)
    case ScopesAt(t) =>
      RespondAtAddress(units, RespondFileLine(units, cursor, t).0, AddressOf(HitFrom(units, cursor, t)))
  }

  class Session {
    const units: seq<Unit>
    var cursor: nat

    ghost predicate Valid()
      reads this
    {
      cursor <= |units|
    }

    constructor (units: seq<Unit>)
      ensures Valid() && this.units == units && cursor == 0
    {
      this.units := units;
      cursor := 0;
    }

    /** dwarf_next_cu_header: advance, or report the end and start over. */
    method NextCuHeader() returns (ok: bool)
      requires Valid()
      modifies this`cursor
      ensures Valid()
      ensures (ok, cursor) == NextHeader(units, old(cursor))
    {
      ok := cursor < |units|;
      cursor := if ok then cursor + 1 else 0;
    }

    /** reset_cu_header_info. */
    method Reset()
      requires Valid()
      modifies this`cursor
      ensures Valid() && cursor == ResetFrom(units, old(cursor)) == 0
    {
      ResetStarts(units, cursor);
      var ok := NextCuHeader();
      while ok
        invariant Valid() && (!ok ==> cursor == 0)
        decreases if ok then |units| + 1 - cursor else 0
      {
        ok := NextCuHeader();
      }
    }

    method GetCuByIaddr(addr: nat) returns (r: Option<CuDie>)
      requires Valid()
      modifies this`cursor
      ensures Valid() && r == CoverFrom(units, old(cursor), addr)
      ensures cursor == CursorAfter(if r.Some? then Some(r.value.unit) else None)
    {
      var ok := NextCuHeader();
      while ok
        invariant Valid() && (if ok then cursor > 0 else cursor == 0)
        invariant CoverFrom(units, old(cursor), addr) == if ok then CoverFrom(units, cursor - 1, addr) else None
        decreases if ok then |units| + 1 - cursor else 0
      {
        var u := units[cursor - 1];
        var i := 0;
        while i < |u|
          invariant i <= |u| && CoverIn(u, 0, addr) == CoverIn(u, i, addr)
        {
          if Covers(u[i], addr) {
            return Some(CuDie(cursor - 1, i));
          }
          i := i + 1;
        }
        ok := NextCuHeader();
      }
      r := None;
    }

    method GetIaddrOfFileLine(t: Target) returns (addr: nat)
      requires Valid()
      modifies this`cursor
      ensures Valid()
      ensures (cursor, Address(addr)) == Respond(units, old(cursor), FileLine(t))
      ensures AnswersFrom(units, old(cursor), t, addr, cursor)
    {
      hide AnswersFrom, HasSubstring, AnswersAddress;
      FileLineAnswers(units, cursor, t);
      var ok := NextCuHeader();
      while ok
        invariant Valid() && (if ok then cursor > 0 else cursor == 0)
        invariant HitFrom(units, old(cursor), t) == if ok then HitFrom(units, cursor - 1, t) else None
        decreases if ok then |units| + 1 - cursor else 0
      {
        var u := units[cursor - 1];
        var i := 0;
        while i < |u|
          invariant i <= |u| && HitIn(u, 0, t) == HitIn(u, i, t)
        {
          var j := 0;
          while j < |u[i].lines|
            invariant j <= |u[i].lines| && LineIn(u[i].lines, 0, t) == LineIn(u[i].lines, j, t)
          {
            if Hits(u[i].lines[j], t) {
              return u[i].lines[j].addr;
            }
            j := j + 1;
          }
          i := i + 1;
        }
        ok := NextCuHeader();
      }
      addr := NOT_FOUND;
    }

    /** The queries by address. */
    method QueryAddress(addr: nat) returns (r: Response)
      requires Valid()
      modifies this`cursor
      ensures Valid() && (cursor, r) == Respond(units, old(cursor), AtAddress(addr))
      ensures cursor == 0 && AnswersAddress(units, addr, r)
    {
      HistoryIndependence(units, cursor, [], addr);
      Reset();
      var cu := GetCuByIaddr(addr);
      Reset();
      r := if addr != NOT_FOUND && cu.Some? then Cu(cu.value) else CannotFind;
    }

    /** show_scopes_by_file_line. */
    method QueryScopes(t: Target) returns (r: Response)
      requires Valid()
      modifies this`cursor
      ensures Valid() && (cursor, r) == Respond(units, old(cursor), ScopesAt(t))
      ensures cursor == 0
      ensures exists addr, c :: AnswersFrom(units, old(cursor), t, addr, c) && AnswersAddress(units, addr, r)
    {
      var addr := GetIaddrOfFileLine(t);
      r := QueryAddress(addr);
    }

    /** One command of a session. */
    method Execute(c: Command) returns (r: Response)
      requires Valid()
      modifies this`cursor
      ensures Valid() && (cursor, r) == Respond(units, old(cursor), c)
    {
      match c {
        case AtAddress(addr) => r := QueryAddress(addr);
        case FileLine(t) =>
          var a := GetIaddrOfFileLine(t);
          r := Address(a);
        case ScopesAt(t) => r := QueryScopes(t);
      }
    }

    /** A session that has run any commands answers a query by address with the first covering unit
        of the whole file, exactly when there is one, and its cursor is back at the start. */
    method QueryAfter(history: seq<Command>, addr: nat) returns (earlier: seq<Response>, r: Response)
      requires Valid()
      modifies this`cursor
      ensures Valid() && cursor == 0
      ensures earlier == Replayed(units, old(cursor), history).1
      ensures AnswersAddress(units, addr, r)
    {
      earlier := [];
      var k := 0;
      while k < |history|
        invariant 0 <= k <= |history| && Valid()
        invariant (cursor, earlier) == Replayed(units, old(cursor), history[..k])
      {
        assert history[..k + 1][..k] == history[..k];
        var e := Execute(history[k]);
        earlier := earlier + [e];
        k := k + 1;
      }
      assert history[..|history|] == history;
      HistoryIndependence(units, old(cursor), history, addr);
      r := QueryAddress(addr);
    }

    /** The same file-and-line query over and over in a fresh session. */
    method RepeatQuery(t: Target, n: nat, ghost pos: seq<nat>) returns (addrs: seq<nat>)
      requires Valid() && cursor == 0 && RowUnits(units, t, pos)
      modifies this`cursor
      ensures Valid() && |addrs| == n
      ensures forall m :: 0 <= m < n ==> AnswerInTurn(units, t, pos, m, addrs[m])
    {
      hide AnswerInTurn, AnswersFrom, RowUnits, Respond;
      addrs := [];
      while |addrs| < n
        invariant Valid() && |addrs| <= n && cursor == AfterQueries(units, t, |addrs|)
        invariant forall m :: 0 <= m < |addrs| ==> AnswerInTurn(units, t, pos, m, addrs[m])
      {
        RepeatedQueries(units, t, pos, |addrs|);
        var a := GetIaddrOfFileLine(t);
        addrs := addrs + [a];
      }
    }
  }

  // ---------------------------------------------------------------- histories

  /** The cursor and the responses after a sequence of commands. */
  function Replayed(units: seq<Unit>, cursor: nat, history: seq<Command>): (r: (nat, seq<Response>))
    requires cursor <= |units|
    ensures r.0 <= |units|
    decreases |history|
  {
    if history == [] then (cursor, [])
    else
      var (c, rs) := Replayed(units, cursor, history[..|history| - 1]);
      var (c', r) := Respond(units, c, history[|history| - 1]);
      (c', rs + [r])
  }

  /** A stored low_pc and high_pc with the address between them, ends included. */
  ghost predicate Around(range: Option<PcRange>, addr: nat) {
    exists lo: nat, hi: nat :: range == Some(PcRange(lo, hi)) && lo <= addr && addr <= hi
  }

  lemma AroundIsCovered(t: Top, addr: nat)
    ensures Around(t.range, addr) <==> Covers(t, addr)
  {
    if t.range.Some? { assert t.range == Some(PcRange(t.range.value.lo, t.range.value.hi)); }
  }

  ghost predicate IsFirstCover(units: seq<Unit>, d: CuDie, addr: nat) {
    && d.unit < |units| && d.top < |units[d.unit]|
    && Around(units[d.unit][d.top].range, addr)
    && (forall j :: 0 <= j < d.top ==> !Around(units[d.unit][j].range, addr))
    && (forall i, j :: 0 <= i < d.unit && 0 <= j < |units[i]| ==> !Around(units[i][j].range, addr))
  }

  ghost predicate NothingCovers(units: seq<Unit>, addr: nat) {
    forall i, j :: 0 <= i < |units| && 0 <= j < |units[i]| ==> !Around(units[i][j].range, addr)
  }

  /** r is the first covering entry of the whole file, exactly when there is one; the not-found
      address is never found. */
  ghost predicate AnswersAddress(units: seq<Unit>, addr: nat, r: Response) {
    && (forall d :: r == Cu(d) <==> addr != 0xffff_ffff_ffff_ffff && IsFirstCover(units, d, addr))
    && (r == CannotFind <==> addr == 0xffff_ffff_ffff_ffff || NothingCovers(units, addr))
  }

  /** Cursor history independence: after any earlier commands from any position, a query by address
      finds the first covering unit of the whole file, exactly when there is one, and leaves the
      cursor at the start; the not-found address is never found. */
  lemma HistoryIndependence(units: seq<Unit>, cursor: nat, history: seq<Command>, addr: nat)
    requires cursor <= |units|
    ensures var (c, r) := Respond(units, Replayed(units, cursor, history).0, AtAddress(addr));
      c == 0 && AnswersAddress(units, addr, r)
  {
    var c := Replayed(units, cursor, history).0;
    ResetStarts(units, c);
    ResetStarts(units, CursorAfter(match CoverFrom(units, 0, addr) case Some(d) => Some(d.unit) case None => None));
    var r := CoverFrom(units, 0, addr);
    forall i: nat, j: nat | i < |units| && j < |units[i]|
      ensures Around(units[i][j].range, addr) <==> Covers(units[i][j], addr)
    {
      AroundIsCovered(units[i][j], addr);
    }
    forall k: nat | k < |units| && CoverIn(units[k], 0, addr) == None
      ensures forall j :: 0 <= j < |units[k]| ==> !Covers(units[k][j], addr)
    {
    }
    if r.Some? {
      assert IsFirstCover(units, r.value, addr);
      forall d | IsFirstCover(units, d, addr) ensures d == r.value {
      }
    }
  }

  /** One address per unit with a hit, in order. */
  function AllHits(units: seq<Unit>, t: Target): seq<nat> {
    if units == [] then []
    else (match HitIn(units[0], 0, t) case Some(a) => [a] case None => []) + AllHits(units[1..], t)
  }

  lemma {:induction false} AllHitsSplit(units: seq<Unit>, c: nat, t: Target)
    requires c <= |units|
    ensures AllHits(units, t) == AllHits(units[..c], t) + AllHits(units[c..], t)
    decreases |units|
  {
    if c == 0 {
      assert units[0..] == units;
    } else {
      AllHitsSplit(units[1..], c - 1, t);
      assert units[..c][1..] == units[1..][..c - 1] && units[c..] == units[1..][c - 1..];
    }
  }

  lemma {:induction false} HitFromIsNext(units: seq<Unit>, c: nat, t: Target)
    requires c <= |units|
    ensures var hit, rest := HitFrom(units, c, t), AllHits(units[c..], t);
      && (hit.None? <==> rest == [])
      && (hit.Some? ==> rest[0] == hit.value.1 && AllHits(units[hit.value.0 + 1..], t) == rest[1..])
    decreases |units| - c
  {
    if c < |units| {
      assert units[c..][1..] == units[c + 1..];
      HitFromIsNext(units, c + 1, t);
    }
  }

  /** n further queries for one target. */
  function AfterQueries(units: seq<Unit>, t: Target, n: nat): (r: nat)
    ensures r <= |units|
  {
    if n == 0 then 0 else Respond(units, AfterQueries(units, t, n - 1), FileLine(t)).0
  }

  /** One query sees one more hit, or has seen them all and starts over. */
  lemma NextQuery(units: seq<Unit>, c: nat, t: Target)
    requires c <= |units|
    ensures var c', seen, all := Respond(units, c, FileLine(t)).0, |AllHits(units[..c], t)|, |AllHits(units, t)|;
      |AllHits(units[..c'], t)| == if seen == all then 0 else seen + 1
    ensures |AllHits(units[..c], t)| <= |AllHits(units, t)|
  {
    var c' := Respond(units, c, FileLine(t)).0;
    HitFromIsNext(units, c, t);
    AllHitsSplit(units, c, t);
    AllHitsSplit(units, c', t);
    if c' == 0 { assert units[..0] == []; }
  }

  lemma {:induction false} QueriesSeen(units: seq<Unit>, t: Target, n: nat)
    ensures |AllHits(units[..AfterQueries(units, t, n)], t)| == n % (|AllHits(units, t)| + 1)
  {
    if n > 0 {
      QueriesSeen(units, t, n - 1);
      NextQuery(units, AfterQueries(units, t, n - 1), t);
      NextRemainder(n - 1, |AllHits(units, t)| + 1);
    } else {
      assert units[..0] == [];
    }
  }

  lemma NextRemainder(n: nat, m: nat)
    requires m > 0
    ensures (n + 1) % m == if n % m == m - 1 then 0 else n % m + 1
  {
    var q, r := n / m, if n % m == m - 1 then 0 else n % m + 1;
    var q' := if r == 0 then q + 1 else q;
    assert n == m * q + n % m;
    assert m * (q + 1) == m * q + m;
    assert n + 1 == m * ((n + 1) / m) + (n + 1) % m;
    var d := (n + 1) / m - q';
    assert m * d == m * ((n + 1) / m) - m * q' == r - (n + 1) % m;
    if d != 0 { MultipleAtLeast(m, d); }
  }

  lemma RepeatedHits(units: seq<Unit>, t: Target, n: nat)
    ensures var hits := AllHits(units, t); var k := n % (|hits| + 1);
      Respond(units, AfterQueries(units, t, n), FileLine(t)).1 == Address(if k < |hits| then hits[k] else NOT_FOUND)
  {
    var c := AfterQueries(units, t, n);
    QueriesSeen(units, t, n);
    HitFromIsNext(units, c, t);
    AllHitsSplit(units, c, t);
  }

  /** The units that have a row for the target, in order. */
  ghost predicate RowUnits(units: seq<Unit>, t: Target, pos: seq<nat>) {
    && (forall k :: 0 <= k < |pos| ==> pos[k] < |units|)
    && (forall j, k :: 0 <= j < k < |pos| ==> pos[j] < pos[k])
    && (forall n: nat :: n < |units| ==> (n in pos <==> !NoRow(units[n], t)))
  }

  /** One address per unit that has a row: the one in its first row. */
  ghost predicate FirstRows(units: seq<Unit>, t: Target, pos: seq<nat>, hits: seq<nat>) {
    && RowUnits(units, t, pos) && |hits| == |pos|
    && forall k :: 0 <= k < |pos| ==> FirstRowAt(units[pos[k]], t, hits[k])
  }

  lemma OneMoreUnit(front: seq<Unit>, u: Unit, t: Target, pos: seq<nat>, hits: seq<nat>, addr: nat)
    requires FirstRows(front, t, pos, hits)
    ensures NoRow(u, t) ==> FirstRows(front + [u], t, pos, hits)
    ensures !NoRow(u, t) && FirstRowAt(u, t, addr) ==> FirstRows(front + [u], t, pos + [|front|], hits + [addr])
  {
    hide NoRow, FirstRowAt;
    var n := |front|;
    assert forall m :: 0 <= m < n ==> (front + [u])[m] == front[m];
    assert n !in pos;
    forall m: nat | m < n ensures m in pos + [n] <==> m in pos {
    }
  }

  lemma {:induction false} AllHitsAreFirstRows(units: seq<Unit>, t: Target) returns (pos: seq<nat>)
    ensures FirstRows(units, t, pos, AllHits(units, t))
    decreases |units|
  {
    pos := [];
    if units != [] {
      hide FirstRows, NoRow, FirstRowAt, HitIn;
      var n := |units| - 1;
      var front, u := units[..n], units[n];
      pos := AllHitsAreFirstRows(front, t);
      AllHitsSplit(units, n, t);
      assert units[n..] == [u] && [u][1..] == [] && units == front + [u];
      var hit := HitIn(u, 0, t);
      var addr := if hit.Some? then hit.value else 0;
      HitIsFirstRow(u, t, addr);
      OneMoreUnit(front, u, t, pos, AllHits(front, t), addr);
      assert AllHits([u], t) == if hit.Some? then [addr] else [];
      if hit.Some? {
        pos := pos + [|front|];
      } else {
        assert AllHits(front, t) + [] == AllHits(front, t);
      }
    }
  }

  /** Query number n, from zero, among repeated ones answers with the first row of unit number n in
      pos, counted cyclically, with one not-found answer after each round. */
  ghost predicate AnswerInTurn(units: seq<Unit>, t: Target, pos: seq<nat>, n: nat, addr: nat) {
    var k := n % (|pos| + 1);
    if k < |pos| then pos[k] < |units| && FirstRowAt(units[pos[k]], t, addr) else addr == 0xffff_ffff_ffff_ffff
  }

  /** Repeated file-and-line queries for one target from the start: one hit per matching unit in
      order, then the not-found value, then all over again. */
  lemma RepeatedQueries(units: seq<Unit>, t: Target, pos: seq<nat>, n: nat)
    requires RowUnits(units, t, pos)
    ensures var r := Respond(units, AfterQueries(units, t, n), FileLine(t)).1;
      r.Address? && AnswerInTurn(units, t, pos, n, r.addr)
  {
    hide NoRow, FirstRowAt;
    var own := AllHitsAreFirstRows(units, t);
    SameUnits(units, t, pos, own);
    RepeatedHits(units, t, n);
  }

  /** There is only one such list. */
  lemma SameUnits(units: seq<Unit>, t: Target, a: seq<nat>, b: seq<nat>)
    requires RowUnits(units, t, a) && RowUnits(units, t, b)
    ensures a == b
  {
    hide NoRow;
    forall n: nat ensures n in a <==> n in b {
    }
    SameIncreasing(a, b);
  }

  lemma {:induction false} SameIncreasing(a: seq<nat>, b: seq<nat>)
    requires forall j, k :: 0 <= j < k < |a| ==> a[j] < a[k]
    requires forall j, k :: 0 <= j < k < |b| ==> b[j] < b[k]
    requires forall n :: n in a <==> n in b
    ensures a == b
    decreases |a|
  {
    if a == [] {
      HasFirst(b);
    } else {
      assert a[0] in b && b != [] && b[0] in a;
      var j :| 0 <= j < |b| && b[j] == a[0];
      var k :| 0 <= k < |a| && a[k] == b[0];
      assert a[0] == b[0];
      forall n ensures n in a[1..] <==> n in b[1..] {
        assert n in a[1..] <==> n in a && n != a[0] by { TailOf(a, n); }
        assert n in b[1..] <==> n in b && n != b[0] by { TailOf(b, n); }
      }
      SameIncreasing(a[1..], b[1..]);
      assert a == [a[0]] + a[1..] && b == [b[0]] + b[1..];
    }
  }

  lemma HasFirst(a: seq<nat>)
    ensures a == [] || a[0] in a
  {
  }

  lemma TailOf(a: seq<nat>, n: nat)
    requires a != [] && forall j, k :: 0 <= j < k < |a| ==> a[j] < a[k]
    ensures n in a[1..] <==> n in a && n != a[0]
  {
    assert a == [a[0]] + a[1..];
    if n in a[1..] {
      var k :| 0 <= k < |a[1..]| && a[1..][k] == n;
      assert a[0] < a[k + 1];
    }
  }
}
