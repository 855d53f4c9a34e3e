# Legerdemain, verified models

Dafny models of the parts of Legerdemain where the behaviour is hardest to see from the code, and
proofs about them. `dafny verify dfyconfig.toml` checks everything.

| files | component |
|---|---|
| `Options`, `Arith`, `Orbits` | optional values; C integer arithmetic on 32 and 64 bits; walks through finite successor maps |
| `Stack`, `Location*` | the DWARF location-expression decoder and its array stack |
| `Sampler*` | the sampling monitor, its slot table and its signal protocol |
| `Die*`, `Scope*`, `TypeChain`, `CuCursor` | the debugging-information walkers and queries |
| `Scaley` | live-byte accounting and the ten-read window |
| `Applier`, `ThreadConstructor` | plugin names, loading, and thread constructors |

Code that updates state in place is a class or a method with loops, proved against functions on
values; the main results are lemmas about those functions. The functions themselves are pinned to the
data they work on: opcode by opcode in `LocationReference`, and for the walks, listings, rows, type
chains and counters by statements that speak of entries, numbers and positions alone.

**The decoder.** `DecodeLocation` is the source's loop on an array of 1000 longs. A value read back
from the stack is cut to an int. `Steps` runs the same operations on values, and every result about
runs is stated on it. The results: jumps ignore the stack, so a run ends exactly when it never comes
back to an operation; postfix code of an expression tree computes the tree; truncation is a ring
homomorphism over whole runs; runs that stay in range agree with an unbounded machine.

The code departs from DWARF Version 4 in four places. The model follows the code, and
`LocationDepartures` and `LocationShuffle` say exactly when the two agree:

* `le`, `ge`, `lt`, `gt` compare the top with the second entry (section 2.5.1.5 has it the other way
  round), so each computes its mirror image. The compiler in `LocationCompile` emits the mirrored opcode.
* `bra` never jumps and pops only a non-zero top.
* A skip is relative to the operation's own offset, not to the byte after its operand, and a skip that
  matches no operation ends the run.
* `pick` declares an inner `i` that hides the loop index, so its loop bound is read from operation 0,
  1, 2, and so on, never from its own operand. When the first operation has no operand it is a `dup`.

**The protocol.** A state machine takes one slot poke, one slot scan or one handler at a time, in any
interleaving the mutex allows. POSIX lets a second pending signal be merged into the first
(section 2.4.1 of the System Interfaces volume of POSIX.1-2008), so a poke step may merge, and a
history counter records it. The invariant covers merging runs too: at rest a thread agrees with the
phase exactly when an even number of its pokes were merged. "No poke is lost" is then a condition on
the run, and `MergedPokeBreaksAgreement` is a run that needs it. Each thread registers once and
deregisters before it exits.

**The walkers.** libdwarf is a store from offsets to entries whose child and sibling links go
forward. That links form a tree is not assumed: the walk meets every entry once exactly when it
follows no two links to one entry. Name matching is a parameter of a search, and so is the question
whether the end of a range is inside. As written a name matches when it is a prefix of the query, and
the pc test includes `high_pc`, which section 2.17.2 of DWARF Version 4 puts outside. So at the common
boundary of two blocks the lookup can answer from the block that has ended; `EndsAgree` says exactly
when it does not. Away from the ends of ranges, and with ranges disjoint in the standard's sense, it
answers from the innermost scope.

**The cursor.** Queries by address reset the shared cursor before and after their search; `QueryAfter`
runs them on a session with any history. Repeated file-and-line queries do not reset, and cycle.

**Scaley.** Conservation holds exactly on runs in which no event wipes out the record of a tracked
block; the bytes wiped out are counted, and the balance with them holds on all runs.

**Plugins.** `Process` is the whole pipeline: load the plugins named in LDM_TAPS, then create threads.
A name that `dlopen` rejects gives a null handle, through which `dlsym` searches the global scope; the
constructor table is the expected one exactly when that finds nothing.

## Model

| member | source | states |
|---|---|---|
| BoundedStack.Stack.constructor | stack.c:2-5 | a new stack is empty |
| BoundedStack.StackLaws | stack.c:7-30 | a thousand entries at most, a pop undoes a push that fits, -1 on an empty stack, otherwise the one int that agrees with the last entry modulo 2^32 |
| BoundedStack.Stack.ReadTop | stack.c:7-14 | the top cut to an int; -1 on an empty stack |
| BoundedStack.Stack.DoPush | stack.c:16-22 | appends, or leaves a full stack alone |
| BoundedStack.Stack.DoPop | stack.c:24-30 | removes the top, or leaves an empty stack alone |
| Arith.CongIffSameInt | stack.c:7-14 | two values read back as the same int exactly when they agree modulo 2^32 |
| Arith.IntConversion | stack.c:7-14 | conversion to int yields the one int that agrees modulo 2^32 |
| Arith.LongConversion | dwarfclient.c:63-72 | conversion to long yields the one long that agrees modulo 2^64 |
| Arith.TruncDivMod | dwarfclient.c:143-159 | quotient and remainder are the only pair that satisfies the C rule for division |
| Arith.BitwiseBits | dwarfclient.c:137-141 | bit k of and, or, xor is and, or, exclusive or of the operands' bits k, and the width is kept |
| Arith.BitsDetermine | dwarfclient.c:137-141 | bits up to the width fix a number |
| Arith.NotBits | dwarfclient.c:172-175 | complement flips every bit |
| LocationDecode.DoBinary | dwarfclient.c:137-252 | two pops and a push realise the operator; reports undefined results |
| LocationDecode.DoUnary | dwarfclient.c:132-175 | one pop and a push realise the operator; reports undefined results |
| LocationDecode.DoTransfer | dwarfclient.c:101-103 | one transfer loop between two array stacks moves n tops |
| LocationDecode.DoPick | dwarfclient.c:96-109 | both transfer loops with the bound the code reads |
| LocationDecode.DoShuffle | dwarfclient.c:82-122 | dup, drop, over, swap, rot as their push and pop sequences |
| LocationDecode.ExecOp | dwarfclient.c:33-288 | one operation on the array stack has its effect on the contents, gives up, or is undefined |
| LocationDecode.FindSkip | dwarfclient.c:258-275 | the two searches find the operation nearest to the skip, on the side of its sign, whose offset is the skip's plus its operand modulo 2^32, or none |
| LocationDecode.Iterate | dwarfclient.c:31-289 | one iteration, with the unsigned index wrapping at -1, is one step of the run |
| LocationDecode.DecodeLocation | dwarfclient.c:12-294 | on every halting expression the loop terminates and returns what all longer runs are in |
| LocationHalting.HaltsExactly | dwarfclient.c:31-275 | a division-safe run ends iff it never revisits an operation, and then executes at most ld_cents operations |
| LocationHalting.HaltingRunStops | dwarfclient.c:31-275 | any run of a halting expression has stopped after ld_cents operations |
| LocationHalting.FinishedIsFinal | dwarfclient.c:31-293 | a run that finishes at any step belongs to a halting expression and fixes the decoder's result |
| LocationHalting.ForwardSkipsHalt | dwarfclient.c:258-275 | expressions without a backward skip always halt |
| LocationHalting.UnmatchedSkipEnds | dwarfclient.c:262-274 | a skip ends the run with the current top iff no operation on the searched side has the target offset |
| LocationHalting.BackwardSkipDecodes | dwarfclient.c:262-273 | an expression with a backward skip that halts and decodes to 7 |
| LocationReference.ArithmeticReference | dwarfclient.c:149-187 | plus, minus, mul of the two entries read, on any stack |
| LocationReference.CompareReference | dwarfclient.c:218-252 | the six comparisons, top against second |
| LocationReference.DivisionReference | dwarfclient.c:143-159 | div and mod are C's pair, undefined on zero |
| LocationReference.BitReference | dwarfclient.c:137-216 | and, or, xor act on every bit of the two entries |
| LocationReference.ShiftReference | dwarfclient.c:194-210 | the shifts as product and quotients with a power of two, undefined outside counts 0 to 63 |
| LocationReference.UnaryReference | dwarfclient.c:132-175 | abs, neg and not of the entry read |
| LocationReference.ShuffleReference | dwarfclient.c:82-122 | dup, drop, over, swap, rot on any stack, shallow or full |
| LocationReference.PickPads | dwarfclient.c:96-109 | pick deeper than the stack brings it back on top of -1s and pushes -1 |
| LocationReference.PushReference | dwarfclient.c:34-79 | literals, constants and frame offsets as the operands modulo 2^64; only a frame offset sets the flag |
| LocationReference.PlusUconstReference | dwarfclient.c:189-192 | the operand is added to the top modulo 2^64 |
| LocationReference.BraReference | dwarfclient.c:254-257 | pops a top that is not zero, and goes on |
| LocationReference.GivesUpExactly | dwarfclient.c:41-287 | offset -1 on exactly the register, dereference and unlisted opcodes |
| LocationReference.UndefinedExactly | dwarfclient.c:96-213 | exactly the steps that C leaves undefined |
| LocationReference.EmptyDecodes | dwarfclient.c:22-293 | the empty expression decodes to its initial value cut to an int, or to -1 |
| LocationShuffle.ShuffleIsStandard | dwarfclient.c:82-122 | dup, drop, over, swap, rot rearrange as section 2.5.1.3 of DWARF 4 says iff the entries read are ints |
| LocationShuffle.PickCuts | dwarfclient.c:96-109 | pick with n transfers copies entry n and cuts the moved entries to ints |
| LocationShuffle.PickIsStandard | dwarfclient.c:96-109 | pick with n transfers is the standard's pick n iff the entries read are ints |
| LocationShuffle.PickAsWritten | dwarfclient.c:96-109 | as written, pick copies entry n on all deep int stacks iff the shadowed search stops at n |
| LocationShuffle.PickIsDup | dwarfclient.c:100-101 | pick is dup whenever the first operation has operand zero |
| LocationShuffle.PickFails | dwarfclient.c:96-109 | an expression whose pick 1 copies the wrong entry |
| LocationDepartures.ComparisonsMirrored | dwarfclient.c:218-252 | every comparison computes its mirror image; it is the standard one iff symmetric or on equal entries |
| LocationDepartures.LessThanFails | dwarfclient.c:236-240 | an expression that computes 1 < 2 as false |
| LocationDepartures.SkipReaches | dwarfclient.c:258-275 | a skip reaches operation k iff its operand and the distance between the two offsets agree modulo 2^32 |
| LocationDepartures.SkipAgrees | dwarfclient.c:258-275 | skip goes where the standard says iff both targets miss every operation |
| LocationDepartures.SkipFails | dwarfclient.c:258-275 | a skip over one operation that ends the run |
| LocationDepartures.BraAgrees | dwarfclient.c:254-257 | bra does what the standard says iff the top is non-zero and the target is the next operation |
| LocationDepartures.BraFails | dwarfclient.c:254-257 | a branch that is not taken on a non-zero top, and keeps a zero top on the stack |
| LocationIdeal.StepTracks | dwarfclient.c:31-289 | one tracked step keeps the array stack related to the ideal stack |
| LocationIdeal.RunTracks | dwarfclient.c:31-289 | simulation: same operation, same depth, entries equal modulo 2^32 |
| LocationIdeal.RingRunTruncates | dwarfclient.c:61-293 | ring programs without under- or overflow decode to the unbounded result reduced to an int |
| LocationIdeal.IdealRunIsExact | dwarfclient.c:15-293 | an ideal run that reads only ints is computed exactly |
| LocationIdeal.RunBounded | dwarfclient.c:15-293 | every run keeps the stack within 1000 cells, and completes with an int offset |
| LocationCompile.CodeComputes | dwarfclient.c:31-252 | postfix code of a tree pushes exactly its value, anywhere in an expression, and leaves the stack below alone |
| LocationCompile.CompiledDecodes | dwarfclient.c:12-294 | an expression that is the code of a tree halts and decodes to its value, frame-relative iff the tree has a frame offset |
| SamplerTable.RegistersIffFree | sampled_thread_monitor.c:154-165 | a new thread is listed iff a slot is free, nobody is displaced, and removal undoes it |
| SamplerTable.OccupantsInOrder | sampled_thread_monitor.c:69-77 | every occupant is signalled after exactly those in lower slots |
| SamplerTable.Local.HandlePoke | sampled_thread_monitor.c:90-114 | the client is told the new state and the thread switches to it |
| SamplerTable.SlotTable.Pass | sampled_thread_monitor.c:69-84 | one signal per occupant in slot order, and the phase flips |
| SamplerTable.SlotTable.ThreadInit | sampled_thread_monitor.c:138-176 | registration in the lowest free slot, threadId, and the current phase; nothing for the monitor thread |
| SamplerTable.SlotTable.ThreadDeinit | sampled_thread_monitor.c:116-136 | every slot of the thread is emptied and no other |
| SamplerProtocol.StepInv | sampled_thread_monitor.c:60-176 | every step of every party keeps the invariant |
| SamplerProtocol.ReachableInv | sampled_thread_monitor.c:60-176 | the invariant holds in every reachable state |
| SamplerProtocol.PhaseAgreement | sampled_thread_monitor.c:69-84 | a listed thread's state toggled per pending or merged poke is the phase, flipped for slots an unfinished pass has visited |
| SamplerProtocol.QuietAgreement | sampled_thread_monitor.c:69-114 | at rest a listed thread agrees with the phase iff an even number of its pokes were merged |
| SamplerProtocol.AllAgree | sampled_thread_monitor.c:69-114 | without lost pokes, at rest all listed threads agree with the phase |
| SamplerProtocol.MergedPokeBreaksAgreement | sampled_thread_monitor.c:69-114 | a run with one merged poke that ends at rest in disagreement |
| SamplerProtocol.SlotSafety | sampled_thread_monitor.c:69-77 | no thread in two slots, everyone at its threadId, at most 512 listed, no exited thread poked |
| SamplerProtocol.CallbackAlternation | sampled_thread_monitor.c:90-114 | callbacks alternate from the opposite of the registration phase and account for the pokes sent |
| SamplerProtocol.HistoryCounts | sampled_thread_monitor.c:69-114 | over any run: pokes sent are those of the thread's slot, callbacks are its handlers, and the phase is on after an odd number of passes |
| SamplerProtocol.FirstCallbackOn | sampled_thread_monitor.c:57-174 | a thread registered before the first pass starts unsampled, and its first callback switches sampling on |
| SamplerRefinement.StepRefines | sampled_thread_monitor.c:69-176 | each small step completes nothing new or is one atomic step |
| SamplerRefinement.RunRefines | sampled_thread_monitor.c:69-176 | every run without lost pokes is a run of the protocol with atomic critical sections |
| SamplerRefinement.SectionIsAtomic | sampled_thread_monitor.c:69-176 | a pass, registration or deregistration interleaved with handlers is one atomic step, then the handlers |
| SamplerRefinement.PassIsAtomic | sampled_thread_monitor.c:69-84 | a pass interleaved with handlers is one step that pokes every listed thread once, then the handlers |
| SamplerRefinement.OccupantsPoked | sampled_thread_monitor.c:69-77 | the signals of the imperative pass are exactly the pokes of the atomic step |
| SamplerRefinement.PassPokesOnce | sampled_thread_monitor.c:69-84 | a completed pass has poked every listed thread once and nobody else, and flipped the phase |
| SamplerRefinement.DeregistrationSucceeds | sampled_thread_monitor.c:121-133 | a completed deregistration has emptied the thread's slots and no others |
| SamplerRefinement.RegistrationSucceeds | sampled_thread_monitor.c:154-174 | a slot-by-slot registration that ran to its end, interleaved with handlers, listed the thread iff a slot was free, in the lowest one, at its threadId, in phase and with nothing in flight |
| DieTraversal.VisitDie | dwarfclient.c:535-558 | the recursion with the overwritten cursor calls the action in preorder with depth as level |
| DieOrder.VisitUnit | dwarfclient.c:535-558 | the calls are the reachable entries with their depth, each once iff none is linked to twice, and then every entry before all below it and its tree before its siblings |
| DieOnce.TraversalAgreement | dwarfclient.c:535-558 | exactly the entries reachable by child and sibling links, with their depth; each once iff no two followed links lead to the same entry |
| DieOnce.EachOnce | dwarfclient.c:535-558 | in a store where every entry is the target of at most one link, every walk calls the action once for each entry |
| ScopeLookup.FindVariable | dwarfclient.c:570-624 | the lookup recursion, overwriting the result on every match |
| ScopeLookup.ListVariables | dwarfclient.c:643-706 | the declarations shown for an address |
| ScopeLookup.ListSiblings | dwarfclient.c:691-703 | the child loop covers the whole sibling chain |
| ScopeReference.ShowVariables | dwarfclient.c:643-706 | the variables and parameters visited directly below a block or subprogram with lo <= address <= hi, in the order of the walk, and nothing else |
| ScopeReference.FindScoped | dwarfclient.c:570-624 | the last of those whose name is a prefix of the query |
| ScopeReference.ParentIsParent | dwarfclient.c:613-620 | the parent of a visit is the entry whose child chain holds it |
| ScopeReference.ParameterFound | dwarfclient.c:583-604 | the parameter of a function at [0, 10) is found at addresses 0 to 10 only |
| ScopeLookup.ListingFiltersPreorder | dwarfclient.c:643-706 | the listing is the preorder walk filtered by: declaration directly inside a scope around the address |
| ScopeLookup.LookupFindsListed | dwarfclient.c:586-620 | the lookup succeeds iff the listing has a match, and otherwise leaves the result alone |
| ScopeLookup.LookupIsLastListed | dwarfclient.c:586-620 | with leaf declarations the lookup returns the last match of the listing |
| ScopeLookup.PrefixMatching | dwarfclient.c:592 | prefix matching finds the intended entry iff every listed proper prefix is followed by the name itself |
| ScopeLookup.PrefixFails | dwarfclient.c:592 | a block declaring "x" and "y" answers a query for "xy" with "x" |
| ScopeInnermost.LookupIsInnermost | dwarfclient.c:570-624 | if at most one sibling subtree has scopes around the address, the lookup returns a matching declaration of the innermost scope around it that declares one |
| ScopeInnermost.InnermostOffEnds | dwarfclient.c:570-624 | so it does in any unit with ranges disjoint in the standard's sense, at every address that is not the end of a range |
| ScopeEnds.EndsAgree | dwarfclient.c:600-604 | the lookups with inclusive and with half-open ranges agree iff every match directly inside a scope that ends at the address is followed in the walk by a match inside a scope half-open around it |
| ScopeEnds.InnermostAtEnds | dwarfclient.c:570-624 | in that case the answer as written is the innermost in the standard's sense, at any address |
| ScopeEnds.AgreeOffEnds | dwarfclient.c:600-604 | the two lookups agree in every tree at an address that is no scope's high_pc |
| ScopeEnds.BoundaryAnswersFromEndedScope | dwarfclient.c:600-604 | at a boundary of adjacent blocks the lookup answers from the block that has ended |
| TypeChain.ResolveType | dwarfclient.c:892-951 | the loop terminates on resolvable chains; the result is the name and size of the entry that references, relative to the variable's unit, lead to, and the number of pointer and array entries before it |
| TypeChain.TerminatesExactly | dwarfclient.c:911-949 | the loop ends iff it reaches an untyped entry within as many hops as entries, iff no entry repeats |
| TypeChain.ResolveCounts | dwarfclient.c:915-941 | levels count exactly the pointer and array entries on the chain; name and size are those at its end |
| TypeChain.WrappersInvisible | dwarfclient.c:931-947 | any number of typedef or qualifier wrappers leaves every result unchanged |
| CuCursor.Session.NextCuHeader | dwarfclient.c:495-501 | the cursor advances, or reports the end and starts over |
| CuCursor.Session.Reset | dwarfclient.c:560-568 | the cursor is at the start |
| CuCursor.Session.GetCuByIaddr | dwarfclient.c:487-532 | first covering unit from the cursor on, cursor just after it |
| CuCursor.Session.GetIaddrOfFileLine | dwarfclient.c:771-812 | the address in the first row, of the first unit from the cursor on, with the line number and a file name containing the one given, cursor just after that unit; or the not-found value when no row has them |
| CuCursor.Session.QueryAddress | dwarfclient.c:866-890 | reset, search, reset: the first entry of the file with lo <= address <= hi, iff there is one |
| CuCursor.Session.QueryScopes | dwarfclient.c:853-864 | a file-and-line search from the current cursor, then a query by address |
| CuCursor.ResetStarts | dwarfclient.c:560-568 | reading headers until the end is reported reaches the start from everywhere |
| CuCursor.HistoryIndependence | dwarfclient.c:866-890 | reset, search and reset after any history find the first covering unit of the file, iff there is one, and leave the cursor at the start |
| CuCursor.Session.QueryAfter | dwarfclient.c:866-890 | the same for a session: whatever commands it has run, the next query by address answers with the first covering unit |
| CuCursor.RepeatedQueries | dwarfclient.c:771-812 | repeated queries answer with the first row of each unit that has one, in order, then not-found, then start over |
| CuCursor.Session.RepeatQuery | dwarfclient.c:771-812 | the same for a session |
| Scaley.Plugin.PluginInit | clientlibs/Scaley/Scaley.c:104-132 | tracking starts with an empty table |
| Scaley.Plugin.DoMalloc | clientlibs/Scaley/Scaley.c:48-65 | the block's size is recorded and counted, once tracking has started |
| Scaley.Plugin.DoFree | clientlibs/Scaley/Scaley.c:24-45 | a recorded non-zero size is counted as freed and forgotten |
| Scaley.Plugin.DoRead | clientlibs/Scaley/Scaley.c:68-93 | the window shifts in place; a warning iff its sum is positive |
| Scaley.Balance | clientlibs/Scaley/Scaley.c:24-89 | allocated minus freed is the table plus what was wiped out, and the deposits plus the bytes since the last read |
| Scaley.ConservedExactly | clientlibs/Scaley/Scaley.c:24-65 | allocated minus freed is the table's sum iff no event wiped out a record |
| Scaley.WindowTelescopes | clientlibs/Scaley/Scaley.c:68-93 | the window is the last ten deposits padded with zeros; its sum is live bytes now minus ten reads ago |
| Scaley.CountersMatch | clientlibs/Scaley/Scaley.c:24-91 | after any run: allocated is the bytes requested, freed the recorded sizes of the blocks freed, streamed in the bytes read from descriptor 0, and the record of a block that of its latest malloc |
| Applier.StrTokR | Applier.c:5-10 | one strtok_r call: the next token's start, the save position, one delimiter overwritten |
| Applier.ApplyToTokens | Applier.c:2-14 | exactly the tokens are processed in order, and exactly their closing delimiters are overwritten |
| Applier.TokensAreMaximalRuns | Applier.c:2-14 | the tokens are all maximal delimiter-free runs, in order |
| Applier.CutsCloseTokens | Applier.c:5-10 | the characters overwritten are exactly those right after a token |
| Applier.SplitJoin | Applier.c:2-14 | splitting a join of non-empty delimiter-free names gives the names back |
| ThreadConstructor.TapManager.LoadConstructor | thread_constructor.c:45-79 | a found constructor is appended to the table and a found initialiser is called; reports a constructor that does not fit |
| ThreadConstructor.FoundInOrder | thread_constructor.c:45-79 | constructors and initialisers are found name by name, in order |
| ThreadConstructor.FoundForOne | thread_constructor.c:51-70 | for one name: what its library exports, or what the global scope does |
| ThreadConstructor.TapManager.Init | thread_constructor.c:83-93 | the constructors fit iff at most 16 are found, and then the table and the initialiser calls are those of the tokens of LDM_TAPS, in order |
| ThreadConstructor.TapManager.PthreadCreate | thread_constructor.c:34-43 | the new thread starts in threadStartFunc: every constructor once in table order with the original argument, then the original routine |
| ThreadConstructor.TapManager.ThreadStartFunc | thread_constructor.c:19-32 | every constructor once in table order with the thread's argument, then the start routine |
| ThreadConstructor.TapManager.Process | thread_constructor.c:19-93 | after loading any LDM_TAPS with at most 16 constructors, every thread created runs exactly those of its tokens, in order, and then its own routine |
| ThreadConstructor.PipelineTable | thread_constructor.c:45-93 | for joined names the table is the loadable exporting plugins' constructors iff the global scope supplies none |

## Left out

- LocationDecode.DecodeLocation: requires a halting expression, because on the others the source returns nothing; warnings, the leaked stack and a null frameRel pointer are not modelled.
- Location.Compute: shifts of negative longs have the two's-complement meaning gcc gives them; shift counts outside 0..63, division by zero, abs of the least int and a shadowed pick bound past the last operation are an undefined outcome.
- LocationDepartures.SkipAgrees: assumes offsets increase and stay below 2^31.
- SamplerProtocol.AllAgree: assumes no poke is merged, as MergedPokeBreaksAgreement shows it must; a thread identity is not reused after its thread exits, and signals sent by others are not modelled.
- LDM_RATE of zero, where the monitor returns at once, is the empty run; sleep times are not modelled.
- Containment of nested ranges is not assumed for the innermost scope; it turned out not to be needed.
- TypeChain.ResolveType: assumes the variable has a type and references stay inside the store; libdwarf errors and missing names are not modelled.
- The query wrappers after a failed lookup: the source compares the result with -1 but initialises it to null, so it goes on with a null entry.
- CuCursor.Session.GetCuByIaddr: libdwarf's error return, which stops the searches like the end does but would not stop the reset loop, is not modelled.
- Scaley.Plugin.DoRead: counters and the window are unbounded integers, not longs and floats; calls from several threads are outside the plugin's contract.
- Scaley.Plugin.DoFree: calls before the original free is known, which only leak, are not modelled.
- ThreadConstructor.TapManager.LoadConstructor: when a constructor is found and the table already has 16, the source warns and writes past the table; the model reports this and promises nothing after it.
- Attribute printing, the debug shell, signal installation, addr2line and the counting-only plugins.
