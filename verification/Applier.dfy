/** applyToTokens over strtok_r, on the character buffer it rewrites. */
module Applier {
  import opened Options

  const NUL: char := '\0'

  /** First index from i on outside the delimiters, or the end. */
  function SkipDelims(s: string, i: nat, delims: set<char>): (r: nat)
    requires i <= |s|
    ensures i <= r <= |s|
    ensures r < |s| ==> s[r] !in delims
    ensures forall k :: i <= k < r ==> s[k] in delims
    decreases |s| - i
  {
    if i == |s| || s[i] !in delims then i else SkipDelims(s, i + 1, delims)
  }

  /** First delimiter from i on, or the end. */
  function TokenEnd(s: string, i: nat, delims: set<char>): (r: nat)
    requires i <= |s|
    ensures i <= r <= |s|
    ensures r < |s| ==> s[r] in delims
    ensures forall k :: i <= k < r ==> s[k] !in delims
    decreases |s| - i
  {
    if i == |s| || s[i] in delims then i else TokenEnd(s, i + 1, delims)
  }

  lemma {:induction false} SkipIs(s: string, i: nat, delims: set<char>, r: nat)
    requires i <= r <= |s| && (forall k :: i <= k < r ==> s[k] in delims) && (r < |s| ==> s[r] !in delims)
    ensures SkipDelims(s, i, delims) == r
    decreases r - i
  {
    if i < r {
      SkipIs(s, i + 1, delims, r);
    }
  }

  lemma {:induction false} TokenEndIs(s: string, i: nat, delims: set<char>, r: nat)
    requires i <= r <= |s| && (forall k :: i <= k < r ==> s[k] !in delims) && (r < |s| ==> s[r] in delims)
    ensures TokenEnd(s, i, delims) == r
    decreases r - i
  {
    if i < r {
      TokenEndIs(s, i + 1, delims, r);
    }
  }

  /** The start and end of every token from i on. */
  function Spans(s: string, i: nat, delims: set<char>): seq<(nat, nat)>
    requires i <= |s|
    decreases |s| - i
  {
    var a := SkipDelims(s, i, delims);
    if a == |s| then []
    else
      var b := TokenEnd(s, a, delims);
      [(a, b)] + Spans(s, if b < |s| then b + 1 else b, delims)
  }

  /** The tokens from i on, in order. */
  function TokensFrom(s: string, i: nat, delims: set<char>): seq<string>
    requires i <= |s|
    decreases |s| - i
  {
    var a := SkipDelims(s, i, delims);
    if a == |s| then []
    else
      var b := TokenEnd(s, a, delims);
      [s[a..b]] + TokensFrom(s, if b < |s| then b + 1 else b, delims)
  }

  function Tokens(s: string, delims: set<char>): seq<string> {
    TokensFrom(s, 0, delims)
  }

  /** The C string that starts at i: up to the next NUL. */
  function CString(s: string, i: nat): string
    requires i <= |s|
  {
    s[i..TokenEnd(s, i, {NUL})]
  }

  /** The buffer after tokenising up to index i: the delimiter right after each token is a NUL. */
  function CutAt(s: string, delims: set<char>, k: nat): char
    requires k < |s|
  {
    if s[k] in delims && k > 0 && s[k - 1] !in delims then NUL else s[k]
  }

  /** strtok_r from a save position. The string occupies all of buf but its last cell, which holds
      the terminator; characters from the save position on are as they were in text. */
  method StrTokR(buf: array<char>, from: nat, delims: set<char>, ghost text: string)
    returns (token: Option<nat>, save: nat)
    requires buf.Length == |text| + 1 && buf[|text|] == NUL && NUL !in text && NUL !in delims
    requires from <= |text| && forall k :: from <= k < |text| ==> buf[k] == text[k]
    modifies buf
    ensures save <= |text| && buf[|text|] == NUL
    ensures var a := SkipDelims(text, from, delims);
      if a == |text| then token == None && buf[..] == old(buf[..])
      else
        var b := TokenEnd(text, a, delims);
        && token == Some(a) && save == (if b < |text| then b + 1 else b)
        && buf[..] == if b < |text| then old(buf[..])[b := NUL] else old(buf[..])
  {
    var a := from;
    while buf[a] in delims
      invariant from <= a <= |text| && SkipDelims(text, a, delims) == SkipDelims(text, from, delims)
      decreases |text| - a
    {
      a := a + 1;
    }
    if buf[a] == NUL {
      return None, a;
    }
    var b := a;
    while buf[b] != NUL && buf[b] !in delims
      invariant a <= b <= |text| && TokenEnd(text, b, delims) == TokenEnd(text, a, delims)
      decreases |text| - b
    {
      b := b + 1;
    }
    token := Some(a);
    save := b;
    if buf[b] != NUL {
      buf[b] := NUL;
      save := b + 1;
    }
  }

  /** Read the C string at an index of the buffer. */
  method ReadCString(buf: array<char>, i: nat) returns (s: string)
    requires i < buf.Length && buf[buf.Length - 1] == NUL
    ensures s == CString(buf[..], i)
  {
    var j := i;
    while j < buf.Length && buf[j] != NUL
      invariant i <= j <= buf.Length && TokenEnd(buf[..], j, {NUL}) == TokenEnd(buf[..], i, {NUL})
    {
      j := j + 1;
    }
    s := buf[i..j];
  }

  /** The buffer is filled by one NUL-terminated string. */
  ghost predicate IsCString(buf: array<char>)
    reads buf
  {
    buf.Length > 0 && buf[buf.Length - 1] == NUL && NUL !in buf[..buf.Length - 1]
  }

  /** The buffer holds text, with the delimiters cut below index n. */
  predicate CutTo(buf: string, text: string, delims: set<char>, n: nat) {
    && |buf| == |text| + 1 && buf[|text|] == NUL
    && forall k :: 0 <= k < |text| ==> buf[k] == if k < n then CutAt(text, delims, k) else text[k]
  }

  /** A position where a scan starts: the beginning, the end, or right after a delimiter. */
  predicate ScanStart(text: string, delims: set<char>, from: nat) {
    from <= |text| && (from == 0 || from == |text| || text[from - 1] in delims)
  }

  lemma CutStep(before: string, after: string, text: string, delims: set<char>, from: nat)
    requires ScanStart(text, delims, from) && CutTo(before, text, delims, from) && NUL !in delims
    requires var b := TokenEnd(text, SkipDelims(text, from, delims), delims);
      after == if SkipDelims(text, from, delims) < b < |text| then before[b := NUL] else before
    ensures CutTo(after, text, delims, NextFrom(text, from, delims))
    ensures ScanStart(text, delims, NextFrom(text, from, delims))
  {
    var a := SkipDelims(text, from, delims);
    var b := TokenEnd(text, a, delims);
    forall k | from <= k < |text| && k <= b
      ensures CutAt(text, delims, k) == if k == b then NUL else text[k]
    {
      assert k < a ==> text[k] in delims && (k > 0 ==> text[k - 1] in delims);
      assert a <= k < b ==> text[k] !in delims;
      assert k == b ==> text[b] in delims && text[b - 1] !in delims;
    }
  }

  /** Start of the next token from a scan position. */
  function NextToken(text: string, from: nat, delims: set<char>): Option<nat>
    requires from <= |text|
  {
    var a := SkipDelims(text, from, delims);
    if a == |text| then None else Some(a)
  }

  /** strtok_r in the middle of a scan. */
  method Advance(buf: array<char>, from: nat, delims: set<char>, ghost text: string)
    returns (token: Option<nat>, save: nat)
    requires NUL !in text && NUL !in delims && buf.Length == |text| + 1
    requires ScanStart(text, delims, from) && CutTo(buf[..], text, delims, from)
    modifies buf
    ensures token == NextToken(text, from, delims)
    ensures token.Some? ==> save == NextFrom(text, from, delims)
    ensures ScanStart(text, delims, NextFrom(text, from, delims))
    ensures CutTo(buf[..], text, delims, NextFrom(text, from, delims))
  {
    ghost var before := buf[..];
    token, save := StrTokR(buf, from, delims, text);
    CutStep(before, buf[..], text, delims, from);
  }

  /** applyToTokens, with the strings handed to the processing function as result: exactly the
      tokens, while each token's closing delimiter is overwritten in the buffer. */
  method ApplyToTokens(buf: array<char>, delims: set<char>) returns (processed: seq<string>)
    requires IsCString(buf) && NUL !in delims
    modifies buf
    ensures processed == Tokens(old(buf[..buf.Length - 1]), delims)
    ensures CutTo(buf[..], old(buf[..buf.Length - 1]), delims, buf.Length - 1)
  {
    ghost var text := buf[..buf.Length - 1];
    processed := [];
    ghost var from := 0;
    var st, save := Advance(buf, 0, delims, text);
    while st.Some?
      invariant ScanStart(text, delims, from)
      invariant st == NextToken(text, from, delims)
      invariant st.Some? ==> save == NextFrom(text, from, delims)
      invariant CutTo(buf[..], text, delims, NextFrom(text, from, delims))
      invariant processed + TokensFrom(text, from, delims) == Tokens(text, delims)
      decreases |text| - from
    {
      var token := ReadCString(buf, st.value);
      StringIsToken(text, buf[..], delims, from);
      UnfoldTokens(text, from, delims);
      assert processed + ([token] + TokensFrom(text, save, delims))
          == processed + [token] + TokensFrom(text, save, delims);
      processed := processed + [token];
      from := save;
      st, save := Advance(buf, save, delims, text);
    }
    assert NextFrom(text, from, delims) == |text|;
  }

  lemma UnfoldTokens(text: string, from: nat, delims: set<char>)
    requires from <= |text|
    ensures NextToken(text, from, delims).None? ==> TokensFrom(text, from, delims) == []
    ensures NextToken(text, from, delims).Some? ==>
      var a := SkipDelims(text, from, delims);
      && from < NextFrom(text, from, delims) <= |text|
      && TokensFrom(text, from, delims)
         == [text[a..TokenEnd(text, a, delims)]] + TokensFrom(text, NextFrom(text, from, delims), delims)
  {
  }

  /** Where the scan after the next token resumes. */
  function NextFrom(s: string, i: nat, delims: set<char>): nat
    requires i <= |s|
  {
    var a := SkipDelims(s, i, delims);
    var b := TokenEnd(s, a, delims);
    if b < |s| then b + 1 else b
  }

  lemma StringIsToken(text: string, buf: string, delims: set<char>, from: nat)
    requires ScanStart(text, delims, from) && NUL !in text && SkipDelims(text, from, delims) < |text|
    requires CutTo(buf, text, delims, NextFrom(text, from, delims)) && NUL !in delims
    ensures var a := SkipDelims(text, from, delims);
      CString(buf, a) == text[a..TokenEnd(text, a, delims)]
    ensures ScanStart(text, delims, NextFrom(text, from, delims))
  {
    var a := SkipDelims(text, from, delims);
    var b := TokenEnd(text, a, delims);
    forall k | a <= k < b ensures buf[k] == text[k] && buf[k] != NUL {
      assert text[k] in text;
    }
    assert a < b;
    assert b < |text| ==> buf[b] == NUL by {
      if b < |text| { assert text[b] in delims && text[b - 1] !in delims; }
    }
    TokenEndIs(buf, a, {NUL}, b);
    assert buf[a..b] == text[a..b];
  }

  // ---------------------------------------------------------------- what the tokens are

  /** A maximal run of characters that are not delimiters. */
  ghost predicate IsRun(s: string, a: nat, b: nat, delims: set<char>) {
    && a < b <= |s|
    && (forall k :: a <= k < b ==> s[k] !in delims)
    && (a == 0 || s[a - 1] in delims)
    && (b == |s| || s[b] in delims)
  }

  /** Maximal runs from position i on, in order. */
  ghost predicate RunsFrom(s: string, i: nat, delims: set<char>, spans: seq<(nat, nat)>) {
    && (forall j :: 0 <= j < |spans| ==> i <= spans[j].0 && IsRun(s, spans[j].0, spans[j].1, delims))
    && (forall j, k :: 0 <= j < k < |spans| ==> spans[j].1 < spans[k].0)
  }

  lemma OneMoreRun(s: string, i: nat, delims: set<char>, a: nat, b: nat, next: nat, rest: seq<(nat, nat)>)
    requires i <= a && IsRun(s, a, b, delims) && RunsFrom(s, next, delims, rest) && (rest == [] || next > b)
    ensures RunsFrom(s, i, delims, [(a, b)] + rest)
  {
    var spans := [(a, b)] + rest;
    assert forall j :: 0 < j < |spans| ==> spans[j] == rest[j - 1];
  }

  lemma {:induction false} SpansAreRuns(s: string, i: nat, delims: set<char>)
    requires ScanStart(s, delims, i)
    ensures RunsFrom(s, i, delims, Spans(s, i, delims))
    decreases |s| - i
  {
    hide RunsFrom;
    var a := SkipDelims(s, i, delims);
    if a < |s| {
      var b := TokenEnd(s, a, delims);
      assert IsRun(s, a, b, delims);
      if b < |s| {
        SpansAreRuns(s, b + 1, delims);
        OneMoreRun(s, i, delims, a, b, b + 1, Spans(s, b + 1, delims));
      } else {
        NoRuns(s, b, delims);
        OneMoreRun(s, i, delims, a, b, b, Spans(s, b, delims));
      }
    } else {
      NoRuns(s, i, delims);
    }
  }

  lemma NoRuns(s: string, i: nat, delims: set<char>)
    requires i <= |s| && SkipDelims(s, i, delims) == |s|
    ensures i <= |s| && Spans(s, i, delims) == [] && RunsFrom(s, i, delims, [])
  {
  }

  lemma {:induction false} RunsAreSpans(s: string, i: nat, delims: set<char>, x: nat, y: nat)
    requires i <= x && IsRun(s, x, y, delims)
    ensures (x, y) in Spans(s, i, delims)
    decreases |s| - i
  {
    var a := SkipDelims(s, i, delims);
    assert s[x] !in delims;
    var b := TokenEnd(s, a, delims);
    if x < b {
      assert x == 0 || s[x - 1] in delims;
      TokenEndIs(s, x, delims, y);
    } else {
      assert x != b;
      RunsAreSpans(s, b + 1, delims, x, y);
    }
  }

  /** tokens are the parts of s between the spans. */
  predicate Spell(s: string, spans: seq<(nat, nat)>, tokens: seq<string>) {
    && |tokens| == |spans|
    && forall j :: 0 <= j < |spans| ==>
         spans[j].0 <= spans[j].1 <= |s| && tokens[j] == s[spans[j].0..spans[j].1]
  }

  lemma OneMoreToken(s: string, a: nat, b: nat, spans: seq<(nat, nat)>, tokens: seq<string>)
    requires a <= b <= |s| && Spell(s, spans, tokens)
    ensures Spell(s, [(a, b)] + spans, [s[a..b]] + tokens)
  {
    var more, parts := [(a, b)] + spans, [s[a..b]] + tokens;
    assert forall j :: 0 < j < |more| ==> more[j] == spans[j - 1] && parts[j] == tokens[j - 1];
  }

  lemma {:induction false} TokensAreSpans(s: string, i: nat, delims: set<char>)
    requires i <= |s|
    ensures Spell(s, Spans(s, i, delims), TokensFrom(s, i, delims))
    decreases |s| - i
  {
    var a := SkipDelims(s, i, delims);
    if a < |s| {
      hide Spell;
      var b := TokenEnd(s, a, delims);
      var next := if b < |s| then b + 1 else b;
      TokensAreSpans(s, next, delims);
      OneMoreToken(s, a, b, Spans(s, next, delims), TokensFrom(s, next, delims));
    }
  }

  /** The tokens are the maximal delimiter-free runs of the string, all of them, in order. */
  lemma TokensAreMaximalRuns(s: string, delims: set<char>)
    ensures var spans, tokens := Spans(s, 0, delims), Tokens(s, delims);
      && |tokens| == |spans|
      && (forall j :: 0 <= j < |spans| ==>
            spans[j].0 <= spans[j].1 <= |s| && tokens[j] == s[spans[j].0..spans[j].1])
      && (forall j, k :: 0 <= j < k < |spans| ==> spans[j].1 < spans[k].0)
      && (forall a: nat, b: nat :: IsRun(s, a, b, delims) <==> (a, b) in spans)
  {
    forall a: nat, b: nat | IsRun(s, a, b, delims) ensures (a, b) in Spans(s, 0, delims) {
      RunsAreSpans(s, 0, delims, a, b);
    }
    SpansAreRuns(s, 0, delims);
    TokensAreSpans(s, 0, delims);
  }

  /** A token that ends at a delimiter ends a run. */
  lemma {:induction false} RunBefore(s: string, k: nat, delims: set<char>, b: nat) returns (a: nat)
    requires k < b <= |s| && (b == |s| || s[b] in delims) && forall j :: k <= j < b ==> s[j] !in delims
    ensures IsRun(s, a, b, delims)
    decreases k
  {
    if k == 0 || s[k - 1] in delims {
      a := k;
    } else {
      a := RunBefore(s, k - 1, delims, b);
    }
  }

  /** The characters cut are exactly those right after a token. */
  lemma CutsCloseTokens(text: string, delims: set<char>, k: nat)
    requires k < |text|
    ensures CutAt(text, delims, k) == if exists a :: IsRun(text, a, k, delims) then NUL else text[k]
  {
    if text[k] in delims && k > 0 && text[k - 1] !in delims {
      var a := RunBefore(text, k - 1, delims, k);
    }
  }

  function Join(names: seq<string>, sep: char): string {
    if names == [] then ""
    else if |names| == 1 then names[0]
    else names[0] + [sep] + Join(names[1..], sep)
  }

  predicate DelimFree(s: string, delims: set<char>) {
    forall k :: 0 <= k < |s| ==> s[k] !in delims
  }

  lemma SkipShift(s: string, t: string, i: nat, delims: set<char>)
    requires i <= |t|
    ensures SkipDelims(s + t, |s| + i, delims) == |s| + SkipDelims(t, i, delims)
  {
    var u, a := s + t, SkipDelims(t, i, delims);
    assert forall k :: |s| <= k < |u| ==> u[k] == t[k - |s|];
    SkipIs(u, |s| + i, delims, |s| + a);
  }

  lemma TokenEndShift(s: string, t: string, i: nat, delims: set<char>)
    requires i <= |t|
    ensures TokenEnd(s + t, |s| + i, delims) == |s| + TokenEnd(t, i, delims)
  {
    var u, b := s + t, TokenEnd(t, i, delims);
    assert forall k :: |s| <= k < |u| ==> u[k] == t[k - |s|];
    TokenEndIs(u, |s| + i, delims, |s| + b);
  }

  /** Tokens of the rest of a string are the tokens of that rest on its own. */
  lemma {:induction false} TokensShift(s: string, t: string, i: nat, delims: set<char>)
    requires i <= |t|
    ensures TokensFrom(s + t, |s| + i, delims) == TokensFrom(t, i, delims)
    decreases |t| - i
  {
    hide TokensFrom, TokenEnd;
    SkipShift(s, t, i, delims);
    UnfoldTokens(t, i, delims);
    UnfoldTokens(s + t, |s| + i, delims);
    if NextToken(t, i, delims).Some? {
      var a := SkipDelims(t, i, delims);
      TokenEndShift(s, t, a, delims);
      SliceShift(s, t, a, TokenEnd(t, a, delims));
      TokensShift(s, t, NextFrom(t, i, delims), delims);
    }
  }

  lemma SliceShift(s: string, t: string, a: nat, b: nat)
    requires a <= b <= |t|
    ensures (s + t)[|s| + a..|s| + b] == t[a..b]
  {
  }

  /** Splitting a join of non-empty, delimiter-free names gives the names back. */
  lemma {:induction false} SplitJoin(names: seq<string>, sep: char, delims: set<char>)
    requires sep in delims
    requires forall j :: 0 <= j < |names| ==> names[j] != "" && DelimFree(names[j], delims)
    ensures Tokens(Join(names, sep), delims) == names
    decreases |names|
  {
    var s := Join(names, sep);
    if |names| > 0 {
      var n := names[0];
      assert DelimFree(n, delims);
      assert s[0] == n[0] && SkipDelims(s, 0, delims) == 0;
      if |names| == 1 {
        TokenEndIs(s, 0, delims, |s|);
        assert TokensFrom(s, |s|, delims) == [];
        assert s[0..|s|] == n;
      } else {
        var head, tail := n + [sep], Join(names[1..], sep);
        assert s == head + tail;
        assert forall k :: 0 <= k < |n| ==> s[k] == n[k];
        TokenEndIs(s, 0, delims, |n|);
        assert s[0..|n|] == n;
        TokensShift(head, tail, 0, delims);
        SplitJoin(names[1..], sep, delims);
      }
    }
  }
}
