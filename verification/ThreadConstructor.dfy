/** The TAP manager: loading the plugins named in LDM_TAPS and running their thread constructors. */
module ThreadConstructor {
  import opened Applier
  import opened Options

  const LDM_MAX_TCTRS: nat := 16
  const DELIMITERS: set<char> := {':', ','}

  /** A function pointer that is not null; null is zero. */
  type Fn = f: nat | f > 0 witness 1

  /** What dlsym finds through one handle. */
  datatype Library = Library(threadCtor: Option<Fn>, init: Option<Fn>)

  /** The dynamic loader. A plugin that dlopen cannot open yields the null handle, through which
      dlsym searches the global scope. */
  datatype Loader = Loader(libs: map<string, Library>, global: Library)

  function Resolve(loader: Loader, name: string): Library {
    if name in loader.libs then loader.libs[name] else loader.global
  }

  function ListOf(f: Option<Fn>): seq<Fn> {
    if f.Some? then [f.value] else []
  }

  /** The thread constructors found for a list of names, in order. */
  function Constructors(loader: Loader, names: seq<string>): seq<Fn> {
    if names == [] then []
    else Constructors(loader, names[..|names| - 1]) + ListOf(Resolve(loader, names[|names| - 1]).threadCtor)
  }

  /** The plugin initialisers found, in order. */
  function Initialisers(loader: Loader, names: seq<string>): seq<Fn> {
    if names == [] then []
    else Initialisers(loader, names[..|names| - 1]) + ListOf(Resolve(loader, names[|names| - 1]).init)
  }

  /** A call made in a new thread. */
  datatype Call = Construct(f: nat, arg: nat, start: Fn) | Run(start: Fn, arg: nat)

  /** threadInitData. */
  datatype ThreadInitData = ThreadInitData(start: Fn, arg: nat)

  function ConstructAll(fs: seq<nat>, start: Fn, arg: nat): seq<Call> {
    seq(|fs|, i requires 0 <= i < |fs| => Construct(fs[i], arg, start))
  }

  /** The calls of a thread: every constructor, in table order and with the thread's argument, then
      the start routine. */
  function ThreadCalls(fs: seq<nat>, start: Fn, arg: nat): seq<Call> {
    ConstructAll(fs, start, arg) + [Run(start, arg)]
  }

  /** The calls of a thread with the table fs: call k is constructor k, and the last one is the start
      routine. */
  predicate RunsInOrder(calls: seq<Call>, fs: seq<nat>, start: Fn, arg: nat) {
    && |calls| == |fs| + 1
    && (forall k :: 0 <= k < |fs| ==> calls[k] == Construct(fs[k], arg, start))
    && calls[|fs|] == Run(start, arg)
  }

  lemma {:induction false} ConstructorsConcat(loader: Loader, a: seq<string>, b: seq<string>)
    ensures Constructors(loader, a + b) == Constructors(loader, a) + Constructors(loader, b)
    decreases |b|
  {
    hide Resolve, ListOf;
    if b == [] {
      assert a + b == a;
    } else {
      var n := |b| - 1;
      assert (a + b)[..|a + b| - 1] == a + b[..n] && (a + b)[|a + b| - 1] == b[n];
      ConstructorsConcat(loader, a, b[..n]);
      Regroup(Constructors(loader, a), Constructors(loader, b[..n]), ListOf(Resolve(loader, b[n]).threadCtor));
    }
  }

  lemma {:induction false} InitialisersConcat(loader: Loader, a: seq<string>, b: seq<string>)
    ensures Initialisers(loader, a + b) == Initialisers(loader, a) + Initialisers(loader, b)
    decreases |b|
  {
    hide Resolve, ListOf;
    if b == [] {
      assert a + b == a;
    } else {
      var n := |b| - 1;
      assert (a + b)[..|a + b| - 1] == a + b[..n] && (a + b)[|a + b| - 1] == b[n];
      InitialisersConcat(loader, a, b[..n]);
      Regroup(Initialisers(loader, a), Initialisers(loader, b[..n]), ListOf(Resolve(loader, b[n]).init));
    }
  }

  lemma Regroup(a: seq<Fn>, b: seq<Fn>, c: seq<Fn>)
    ensures a + b + c == a + (b + c)
  {
  }

  /** The constructors and initialisers of a list of names are found name by name, in order. */
  lemma FoundInOrder(loader: Loader, a: seq<string>, b: seq<string>)
    ensures Constructors(loader, a + b) == Constructors(loader, a) + Constructors(loader, b)
    ensures Initialisers(loader, a + b) == Initialisers(loader, a) + Initialisers(loader, b)
  {
    ConstructorsConcat(loader, a, b);
    InitialisersConcat(loader, a, b);
  }

  /** One name: what its library exports, or what the global scope does when it cannot be opened. */
  lemma FoundForOne(loader: Loader, name: string)
    ensures var lib := if name in loader.libs.Keys then loader.libs[name] else loader.global;
      && Constructors(loader, [name]) == (match lib.threadCtor case Some(f) => [f] case None => [])
      && Initialisers(loader, [name]) == (match lib.init case Some(f) => [f] case None => [])
  {
    assert [name][..0] == [];
    assert Constructors(loader, []) == [] && Initialisers(loader, []) == [];
  }

  class TapManager {
    const ctrs: array<nat>
    var numCtrs: nat
    var initCalls: seq<Fn>

    ghost predicate Valid()
      reads this, ctrs
    {
      && ctrs.Length == LDM_MAX_TCTRS && numCtrs <= LDM_MAX_TCTRS
      && forall i :: 0 <= i < numCtrs ==> ctrs[i] > 0
    }

    /** LDM_thd_ctr up to LDM_numCtrs. */
    ghost function Table(): seq<nat>
      requires Valid()
      reads this, ctrs
    {
      ctrs[..numCtrs]
    }

    constructor ()
      ensures Valid() && fresh(ctrs) && Table() == [] && initCalls == []
    {
      ctrs := new nat[LDM_MAX_TCTRS](_ => 0);
      numCtrs := 0;
      initCalls := [];
    }

    /** loadConstructor. A constructor found when the table is full is written past its end, after
        which nothing is promised. */
    method LoadConstructor(loader: Loader, name: string) returns (fits: bool)
      requires Valid()
      modifies this`numCtrs, this`initCalls, ctrs
      ensures Valid()
      ensures fits <==> Resolve(loader, name).threadCtor.None? || |old(Table())| < LDM_MAX_TCTRS
      ensures fits ==> Table() == old(Table()) + ListOf(Resolve(loader, name).threadCtor)
      ensures fits ==> initCalls == old(initCalls) + ListOf(Resolve(loader, name).init)
    {
      var plugin := Resolve(loader, name);
      if plugin.threadCtor.Some? {
        if numCtrs == LDM_MAX_TCTRS {
          return false;
        }
        ctrs[numCtrs] := plugin.threadCtor.value;
        numCtrs := numCtrs + 1;
      }
      if plugin.init.Some? {
        initCalls := initCalls + [plugin.init.value];
      }
      fits := true;
    }

    method LoadAll(loader: Loader, names: seq<string>) returns (fits: bool)
      requires Valid() && Table() == [] && initCalls == []
      modifies this`numCtrs, this`initCalls, ctrs
      ensures Valid() && (fits <==> |Constructors(loader, names)| <= LDM_MAX_TCTRS)
      ensures fits ==> Table() == Constructors(loader, names) && initCalls == Initialisers(loader, names)
    {
      var i := 0;
      fits := true;
      while i < |names|
        invariant 0 <= i <= |names| && Valid()
        invariant Table() == Constructors(loader, names[..i]) && initCalls == Initialisers(loader, names[..i])
        invariant fits
      {
        assert names[..i + 1][..i] == names[..i];
        PrefixFits(loader, names, i + 1);
        fits := LoadConstructor(loader, names[i]);
        if !fits {
          return;
        }
        i := i + 1;
      }
      assert names[..|names|] == names;
    }

    /** The library constructor: every token of LDM_TAPS is loaded, in order. */
    method Init(taps: array<char>, loader: Loader) returns (fits: bool)
      requires Valid() && Table() == [] && initCalls == [] && IsCString(taps)
      modifies this`numCtrs, this`initCalls, ctrs, taps
      ensures Valid()
      ensures var names := Tokens(old(taps[..taps.Length - 1]), DELIMITERS);
        && (fits <==> |Constructors(loader, names)| <= LDM_MAX_TCTRS)
        && (fits ==> Table() == Constructors(loader, names) && initCalls == Initialisers(loader, names))
    {
      var names := ApplyToTokens(taps, DELIMITERS);
      fits := LoadAll(loader, names);
    }

    /** threadStartFunc. */
    method ThreadStartFunc(tid: ThreadInitData) returns (calls: seq<Call>)
      requires Valid()
      ensures calls == ThreadCalls(Table(), tid.start, tid.arg)
      ensures RunsInOrder(calls, Table(), tid.start, tid.arg)
    {
      calls := [];
      for i := 0 to numCtrs
        invariant calls == ConstructAll(ctrs[..i], tid.start, tid.arg)
      {
        assert ConstructAll(ctrs[..i + 1], tid.start, tid.arg)
            == ConstructAll(ctrs[..i], tid.start, tid.arg) + [Construct(ctrs[i], tid.arg, tid.start)];
        if ctrs[i] != 0 {
          calls := calls + [Construct(ctrs[i], tid.arg, tid.start)];
        }
      }
      calls := calls + [Run(tid.start, tid.arg)];
    }

    /** pthread_create: the original function starts a thread in threadStartFunc with both
        arguments packed; the calls are the ones made in that thread. */
    method PthreadCreate(start: Fn, arg: nat) returns (calls: seq<Call>)
      requires Valid()
      ensures calls == ThreadCalls(Table(), start, arg)
      ensures RunsInOrder(calls, Table(), start, arg)
    {
      calls := ThreadStartFunc(ThreadInitData(start, arg));
    }

    /** A whole process: the library is initialised from LDM_TAPS, then threads are created. Each
        runs every plugin's constructor once, in the order of LDM_TAPS, and then its own routine. */
    method Process(taps: array<char>, loader: Loader, creations: seq<(Fn, nat)>)
      returns (fits: bool, threads: seq<seq<Call>>)
      requires Valid() && Table() == [] && initCalls == [] && IsCString(taps)
      modifies this`numCtrs, this`initCalls, ctrs, taps
      ensures var found := Constructors(loader, Tokens(old(taps[..taps.Length - 1]), {':', ','}));
        && (fits <==> |found| <= 16)
        && (fits ==> |threads| == |creations| && forall k :: 0 <= k < |threads| ==>
              RunsInOrder(threads[k], found, creations[k].0, creations[k].1))
    {
      threads := [];
      fits := Init(taps, loader);
      if fits {
        ghost var found := Table();
        for k := 0 to |creations|
          invariant Valid() && Table() == found && |threads| == k
          invariant forall j :: 0 <= j < k ==> RunsInOrder(threads[j], found, creations[j].0, creations[j].1)
        {
          var calls := PthreadCreate(creations[k].0, creations[k].1);
          threads := threads + [calls];
        }
      }
    }
  }

  lemma {:induction false} PrefixFits(loader: Loader, names: seq<string>, n: nat)
    requires n <= |names|
    ensures |Constructors(loader, names[..n])| <= |Constructors(loader, names)|
    decreases |names|
  {
    if n == |names| {
      assert names[..n] == names;
    } else {
      var front := names[..|names| - 1];
      PrefixFits(loader, front, n);
      assert front[..n] == names[..n];
    }
  }

  /** The plugin can be opened and exports a thread constructor. */
  predicate Exports(loader: Loader, name: string) {
    name in loader.libs && loader.libs[name].threadCtor.Some?
  }

  function ExportingOnly(loader: Loader, names: seq<string>): seq<string> {
    if names == [] then []
    else
      ExportingOnly(loader, names[..|names| - 1])
        + if Exports(loader, names[|names| - 1]) then [names[|names| - 1]] else []
  }

  /** The constructors of the loadable plugins that export one, in the order they are named. */
  function Exported(loader: Loader, names: seq<string>): seq<Fn> {
    var exporting := ExportingOnly(loader, names);
    seq(|exporting|, i requires 0 <= i < |exporting| => CtorOf(loader, exporting[i]))
  }

  function CtorOf(loader: Loader, name: string): Fn {
    if Exports(loader, name) then loader.libs[name].threadCtor.value else 1
  }

  lemma {:induction false} ExportedGrows(loader: Loader, names: seq<string>)
    ensures |Constructors(loader, names)| >= |Exported(loader, names)|
    ensures Constructors(loader, names) == Exported(loader, names)
       <==> loader.global.threadCtor.None? || forall j :: 0 <= j < |names| ==> names[j] in loader.libs
    decreases |names|
  {
    if names != [] {
      var front, last := names[..|names| - 1], names[|names| - 1];
      ExportedGrows(loader, front);
      assert Exported(loader, names) == Exported(loader, front)
        + if Exports(loader, last) then [loader.libs[last].threadCtor.value] else [];
      assert forall j :: 0 <= j < |front| ==> front[j] == names[j];
      if last !in loader.libs && loader.global.threadCtor.Some? {
        assert |Constructors(loader, names)| > |Exported(loader, names)|;
      } else {
        var more := ListOf(Resolve(loader, last).threadCtor);
        assert Constructors(loader, names) == Constructors(loader, front) + more;
        assert Exported(loader, names) == Exported(loader, front) + more;
        SameTail(Constructors(loader, front), Exported(loader, front), more);
      }
    }
  }

  lemma SameTail(a: seq<Fn>, b: seq<Fn>, c: seq<Fn>)
    ensures a + c == b + c <==> a == b
  {
    if a + c == b + c {
      assert |a| == |b|;
      assert (a + c)[..|a|] == a && (b + c)[..|b|] == b;
    }
  }

  /** The constructors found for a list of names joined by a separator are those of the loadable
      plugins that export one, in order, exactly when none is picked up from the global scope for a
      plugin that cannot be opened. */
  lemma PipelineTable(loader: Loader, names: seq<string>, sep: char)
    requires sep in DELIMITERS
    requires forall j :: 0 <= j < |names| ==> names[j] != "" && DelimFree(names[j], DELIMITERS)
    ensures Constructors(loader, Tokens(Join(names, sep), DELIMITERS)) == Exported(loader, names)
       <==> loader.global.threadCtor.None? || forall j :: 0 <= j < |names| ==> names[j] in loader.libs
  {
    SplitJoin(names, sep, DELIMITERS);
    ExportedGrows(loader, names);
  }
}
