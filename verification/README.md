# Models and proofs for the analyzer's core algorithms

The repository is a static analyzer over LLVM IR. Around LLVM sit a dozen self-contained algorithms:
interprocedural summaries computed by iteration, worklist searches over def-use graphs, interval and
layout arithmetic, small lattices and state machines, and some text processing. This project models
each of them on finite graphs, effect sequences, type trees and integers, keeps the loops, tables and
budgets that the code updates step by step, and proves what the results mean.

LLVM itself appears only through its shape: functions are numbers, an instruction is the part of it an
analysis looks at, and answers that come from elsewhere (demangling, escape analysis, file contents,
the compiler) are parameters. `Reachability.dfy` holds the one definition of a least fixpoint that the
interprocedural and the worklist results are compared against, and says what computing one in place, in
rounds, reaches.

| file | models |
|---|---|
| LifetimeRules.dfy | what one call site adds to its function's resource-lifetime summary: the code's tables, the rules they implement, and the addresses those speak of |
| LifetimeFixpoint.dfy | resource-lifetime summaries: the eight-round in-place iteration and one function's rebuild |
| EffectSummaries.dfy | the string key of an effect, canonical summaries, and merging and comparing summary indexes |
| HandleTracking.dfy | acquire and release counting for local handles, and what is reported |
| Determinism.dfy | the memoised search for deterministic functions |
| DefUse.dfy | def-use graphs: the backward steps of the pointer searches, and what values evaluate to |
| PointerProvenance.dfy | the two pointer/offset searches under one shared work budget |
| SubobjectBounds.dfy, LargestSubobject.dfy | the projection search in nested layouts, in 64-bit arithmetic, and which projections are accepted |
| SizeMinusK.dfy | propagation of size-minus-k sinks through wrappers |
| IntRanges.dfy | ranges from integer comparisons, their meets, and the refinement at an access |
| NeLoopGuard.dfy, NeLoopRuns.dfy, NeLoopBypass.dfy | the range heuristic for `i != bound` loops, the runs of such loops, and what a bypass of the guard does |
| OverflowBoxes.dfy | the signed-overflow and truncation checks |
| WriteState.dfy | the write state of a pointer parameter |
| StackPaths.dfy | stack totals over the call graph, and the greedy path that explains one |
| Glob.dfy, Decimal.dfy | the glob matcher, the rule matcher around it, and index parsing |
| CommandLine.dfy, CompileCommands.dfy | the command tokenizer, and the choice between duplicate entries |
| CompileCache.dfy, CacheReplay.dfy | the compiled-IR cache as a step system of edits, lookups and interrupted stores, and the replay of its runs with another tool |
| Options.dfy, MachineInt.dfy, Ordering.dfy, Sequences.dfy, Reachability.dfy | shared vocabulary |

Where the code does less than its design suggests, the exact condition is stated as a theorem:

- The eight-round cap on lifetime summaries can lose effects. The returned table is exactly the effects
  with a chain of at most seven calls against the visiting order (`LifetimeFixpoint.ComputeSummaries`),
  so it is the least fixpoint if and only if no effect needs more (`ResultIsExactWhen`);
  `RoundCapLosesEffects` names a program with an effect that does.
- The glob matcher compares characters before it looks at `*`, so a `*` in the text can consume a `*`
  of the pattern. It is right for all patterns exactly on texts without `*`, and on all texts exactly
  for patterns without `*` (`Glob.ExactlyOnTextsWithoutStar`, `ExactlyForPatternsWithoutStar`).
- The `i != bound` range holds in every run exactly when no path reaches the update around the guard
  (`NeLoopBypass.RangeHoldsExactlyWithoutBypass`); the code checks only that the update follows the
  guarded block, and `RangeCanBeWrong` is a recognised loop whose counter reaches 11 under a range
  that ends at 10.
- A cache hit is right for every tool that could have left the cache files (that has a run leaving
  them, from the same file versions) if and only if each stored text was compiled from what the files
  contain now (`CacheReplay.HitIsFreshExactlyWhen`). Over all runs that is ensured exactly when no file
  changes between compilation and stamp capture, no stamp comes back, and writes reported complete are
  complete (`CompileCache.EveryHitIsFreshExactlyWhen`). Stamps that merely never stand for two contents
  are not enough: `RestoredFileCanGoStale` puts a file back after a store that stopped before its
  metadata. Nor is a reported success: the code asks the stream before it is closed, and
  `LateFailureCanGoStale` loses the text after that.
- The truncation check is right for a known range exactly when its bounds settle the matter
  (`OverflowBoxes.TruncationCheckIsExact`): a non-negative lower bound alone, for example, does not.
- Reading a range that came from an unsigned comparison as a range of signed values is right only for
  the comparisons `IntRanges.ConstraintSoundExactlyWhen` lists.
- When the coarse and the edge range contradict each other the refinement falls back to the edge range
  (`IntRanges.RefinedRange`, `RefinementKeepsEdgeExactlyWhen`).
- Merging summary indexes commutes exactly when repeated effects agree
  (`EffectSummaries.MergeCommutesExactly`). The analyzer's own summaries never repeat an effect; only a
  summary cache edited by hand can (src/app/AnalyzerApp.cpp:1573-1637 reads one without removing repetitions).
- The subobject search is exact up to its depth limit, and one level further for elements of a struct's
  array member (`SubobjectBounds.SearchIsExact`).

Also noted while reading: in ConstParamAnalysis.cpp the branch for a pointer-to-integer conversion
comes after the branch for all casts, which already takes it, so it never runs and the model has no
such branch. The comparison table exists twice (IntRanges.cpp:39-229 and
StackBufferAnalysis.cpp:659-783) with the same entries and is modelled once.

## Model

| member | source | states |
|---|---|---|
| LifetimeRules.DirectEffectsAreRules | src/analysis/ResourceLifetimeAnalysis.cpp:2000-2090 | what the code adds for a matching model rule is exactly what the rule says about the call: a fresh handle if a non-void result, or what is acquired into, reaches the return; an acquisition named by the parameter memory the operand points to, else by the slot it was loaded from; a release of the operand's handle |
| LifetimeRules.MappedEffectsAreRules | src/analysis/ResourceLifetimeAnalysis.cpp:2131-2192 | what the code adds for an effect of the callee is exactly what the call makes of it: a returned handle is returned again, stored into parameter memory, or both, never through a void call; any other effect moves with its operand |
| LifetimeRules.MapToCallerMoves | src/analysis/ResourceLifetimeAnalysis.cpp:1910-1964 | an effect's memory in the caller is the known handle for a plain release at offset 0, and otherwise base offset plus effect offset within 64 bits, of a parameter or of the local copy of one at its own address, with the known pointee of a slot before the slot itself |
| LifetimeRules.SourceIsKnown | src/analysis/ResourceLifetimeAnalysis.cpp:2092-2130 | a callee's effects come from this module exactly when it is an analysed definition that is no constructor, destructor or library internal, and from the imported index exactly when it is not |
| LifetimeRules.RuleEffectsKeepAddress | src/analysis/ResourceLifetimeAnalysis.cpp:2000-2068 | if the answers about an operand are true of the address it evaluates to, what a rule adds speaks of exactly that address, through the pointer slot where it says so |
| LifetimeRules.MovedEffectsKeepAddress | src/analysis/ResourceLifetimeAnalysis.cpp:1910-1964 | if the answers about an operand are true, a mapped effect speaks in the caller of the address the callee's effect speaks of |
| LifetimeFixpoint.ConsequenceIsEmission | src/analysis/ResourceLifetimeAnalysis.cpp:1966-2199 | a fact follows from the current table (directly, or from a callee's fact through a call) if and only if some call site of the function emits it: the inference rules and the code's rule-then-callee branches agree |
| LifetimeFixpoint.AddRuleEffects | src/analysis/ResourceLifetimeAnalysis.cpp:2000-2090 | collecting a call site's rule effects adds exactly what its model rules say about the call, in terms of the call's own operands and result, with the key set kept in step and nothing twice |
| LifetimeFixpoint.AddCalleeEffects | src/analysis/ResourceLifetimeAnalysis.cpp:2095-2192 | mapping a callee's effects through the call adds exactly what the call makes of them, by the same rules, nothing twice |
| LifetimeFixpoint.BuildSummary | src/analysis/ResourceLifetimeAnalysis.cpp:1966-2199 | the rebuilt summary is canonical and contains exactly the consequences of the current table |
| LifetimeFixpoint.DerivableUnfolds | src/analysis/ResourceLifetimeAnalysis.cpp:2244-2264 | an effect is derivable within n rounds if and only if it is direct or comes through a call to an earlier function derivable within n, or to any other derivable within n - 1 |
| LifetimeFixpoint.ConsequenceIsNext | src/analysis/ResourceLifetimeAnalysis.cpp:2253-2258 | rebuilding a summary from the exact table of the round gives exactly the effects derivable within the round |
| LifetimeFixpoint.UpdateIsExact | src/analysis/ResourceLifetimeAnalysis.cpp:2253-2263 | overwriting one function's summary in place moves the exact table on by one function |
| LifetimeFixpoint.TableOnlyGrows | src/analysis/ResourceLifetimeAnalysis.cpp:2244-2264 | within a round the table only grows |
| LifetimeFixpoint.Revisit | src/analysis/ResourceLifetimeAnalysis.cpp:2248-2263 | one function's turn leaves the exact table for the next function; changed is set exactly when an effect was gained |
| LifetimeFixpoint.Sweep | src/analysis/ResourceLifetimeAnalysis.cpp:2244-2264 | after a round the table is the exact one at its end; it has grown, by at least one effect exactly when changed |
| LifetimeFixpoint.RoundIsComplete | src/analysis/ResourceLifetimeAnalysis.cpp:2239-2264 | the table at the end of round n + 1 is what is derivable within n, and the start of the next round |
| LifetimeFixpoint.Round | src/analysis/ResourceLifetimeAnalysis.cpp:2239-2264 | one more round of the loop; changed if and only if the round finds something no earlier one could |
| LifetimeFixpoint.ComputeSummaries | src/analysis/ResourceLifetimeAnalysis.cpp:2228-2266 | on every exit the table holds exactly the effects with a chain of at most seven calls to a function not visited earlier in the round, each link by the rules on the call's own fields, and changed tells whether the eighth round still found some; hence every effect through at most seven nested calls is there, each recorded one has a call chain, and stopping unchanged gives the least fixpoint |
| LifetimeFixpoint.ResultFollowsRules | src/analysis/ResourceLifetimeAnalysis.cpp:2228-2266 | the returned table contains every effect a call site has of its own, nothing beyond these but what calls make of effects in the table, and all of that too unless the eighth round was still finding some |
| LifetimeFixpoint.SettledStays | src/analysis/ResourceLifetimeAnalysis.cpp:2239-2241 | after a round that finds nothing new no further round would |
| LifetimeFixpoint.ResultIsExactWhen | src/analysis/ResourceLifetimeAnalysis.cpp:2228-2266 | the returned table is the least fixpoint if and only if every derivable effect has a chain with at most seven calls against the visiting order |
| LifetimeFixpoint.ResultBounds | src/analysis/ResourceLifetimeAnalysis.cpp:2228-2266 | bounds free of the visiting order: complete for seven nested calls, witnessed by fewer than 8 times the number of functions, and a gain in the last round means an effect needs more than six calls |
| LifetimeFixpoint.CalleesFirstIsExact | src/analysis/ResourceLifetimeAnalysis.cpp:2244-2264 | if every call goes to a function visited earlier, the result is the least fixpoint and nothing is found after the first round |
| Reachability.RoundsAreSteps | src/analysis/ResourceLifetimeAnalysis.cpp:2244-2264 | what in-place rounds over ordered owners reach is reachable, within a bounded number of steps |
| Reachability.StepsAreRounds | src/analysis/ResourceLifetimeAnalysis.cpp:2244-2264 | n steps never need more than n further rounds |
| Reachability.NothingLater | src/analysis/ResourceLifetimeAnalysis.cpp:2239-2241 | once a round gains nothing no later one does |
| LifetimeFixpoint.ExactTableUnique | src/analysis/ResourceLifetimeAnalysis.cpp:2228-2266 | two canonical tables holding the least fixpoint are equal as data, so the result does not depend on visiting order |
| LifetimeFixpoint.StrideDepth | src/analysis/ResourceLifetimeAnalysis.cpp:1910-1964 | in the stride program an effect derivable through n calls sits at an offset of at most 8 n |
| LifetimeFixpoint.RoundCapLosesEffects | src/analysis/ResourceLifetimeAnalysis.cpp:2239-2241 | a concrete program with a derivable effect that is not in the returned table |
| EffectSummaries.KeyInjective | src/analysis/ResourceLifetimeAnalysis.cpp:1162-1168 | effects with equal string keys are equal, although the key only joins fields with a separator |
| EffectSummaries.SortCanonicalises | src/analysis/ResourceLifetimeAnalysis.cpp:2194-2198 | sorting a duplicate-free summary by key gives its canonical form, with the keys strictly ascending |
| EffectSummaries.CanonicalUnique | src/analysis/ResourceLifetimeAnalysis.cpp:1855-1868 | a set of effects has one canonical sequence |
| EffectSummaries.SummaryEquals | src/analysis/ResourceLifetimeAnalysis.cpp:1855-1868 | position-wise key comparison decides equality, and on canonical summaries equality of the effect sets |
| EffectSummaries.MergeEffects | src/analysis/ResourceLifetimeAnalysis.cpp:2303-2332 | merging two effect vectors appends exactly the missing effects and reports growth exactly when src was not contained in dst |
| EffectSummaries.ResourceSummaryIndex.MergeFrom | src/analysis/ResourceLifetimeAnalysis.cpp:2292-2335 | the index becomes the merge of both, and the result is true exactly when dst did not already include src |
| EffectSummaries.MergedIsUnion | src/analysis/ResourceLifetimeAnalysis.cpp:2292-2335 | the merge has the union of the names and, name by name, the union of the effects, and includes both arguments |
| EffectSummaries.AppendMissingNoDuplicates | src/analysis/ResourceLifetimeAnalysis.cpp:2318-2331 | merging keeps a duplicate-free effect vector duplicate-free |
| EffectSummaries.MergeIdempotent | src/analysis/ResourceLifetimeAnalysis.cpp:2292-2335 | merging an index already included changes nothing, so merging twice is merging once |
| EffectSummaries.MergeAssociative | src/analysis/ResourceLifetimeAnalysis.cpp:2292-2335 | merging is associative up to index equality |
| EffectSummaries.MergeCommutesExactly | src/analysis/ResourceLifetimeAnalysis.cpp:2292-2380 | merging in either order gives equal indexes if and only if, for each shared name, repeated effects are repeated equally often |
| EffectSummaries.NoRepeatsAgree | src/analysis/ResourceLifetimeAnalysis.cpp:2303-2332 | duplicate-free vectors always meet that condition |
| EffectSummaries.MergeOrderCanMatter | src/analysis/ResourceLifetimeAnalysis.cpp:2303-2332 | two indexes whose merges in the two orders compare unequal |
| EffectSummaries.FunctionEqualsMeaning | src/analysis/ResourceLifetimeAnalysis.cpp:2382-2413 | comparing sorted key vectors decides equality of the effects as multisets |
| EffectSummaries.IndexEquals | src/analysis/ResourceLifetimeAnalysis.cpp:2337-2380 | true exactly when both indexes have the same names with the same effects as multisets |
| EffectSummaries.ChangedNames | src/analysis/ResourceLifetimeAnalysis.cpp:2415-2441 | exactly the names that are missing on one side or whose effects differ; empty if and only if the indexes are equal |
| HandleTracking.HandleTracker.TrackAcquire | src/analysis/ResourceLifetimeAnalysis.cpp:2481-2511 | after an acquisition every handle's counters, ownership and reports are those of its own event history with this event added |
| HandleTracking.HandleTracker.TrackRelease | src/analysis/ResourceLifetimeAnalysis.cpp:2622-2758 | the same for a release, including suppression, doubt and double-release reports; other handles are untouched |
| HandleTracking.HandleTracker.ReportSurplus | src/analysis/ResourceLifetimeAnalysis.cpp:2654-2750 | a surplus release is excused, doubted once per handle, or reported, with the alternatives tried in the program's order |
| HandleTracking.HandleTracker.MayEscape | src/analysis/ResourceLifetimeAnalysis.cpp:2704-2720 | the per-slot cache never changes the escape answer |
| HandleTracking.HandleTracker.EmitIncompleteInterproc | src/analysis/ResourceLifetimeAnalysis.cpp:2670-2694 | an incomplete-analysis report is added at most once per handle and only where worth reporting |
| HandleTracking.HandleTracker.ReportMissingReleases | src/analysis/ResourceLifetimeAnalysis.cpp:2981-3008 | exactly one missing-release report for each local, acquired, under-released, non-escaping handle, and no change to double-release reports |
| HandleTracking.CountsAreTracked | src/analysis/ResourceLifetimeAnalysis.cpp:2481-2640 | a local handle's counters are the numbers of its acquisitions and releases |
| HandleTracking.VerdictMeans | src/analysis/ResourceLifetimeAnalysis.cpp:2641-2758 | a release is a surplus one exactly if as many releases as acquisitions went before; with nothing acquired into its slot it is excused for an argument's slot, and otherwise doubted if the slot was stored to from outside, may escape, or the release comes from a summary; all other surplus releases are double releases |
| HandleTracking.HistoryDecides | src/analysis/ResourceLifetimeAnalysis.cpp:2641-2758 | in every history, suppressed releases included, the double-release reports are the surplus releases neither excused nor doubted, and the analysis is called incomplete if and only if some release is doubted and that is worth reporting |
| HandleTracking.MissingMeans | src/analysis/ResourceLifetimeAnalysis.cpp:2981-3008 | a release is reported missing if and only if there are more acquisitions than releases and the handle neither leaves by return nor may escape to unmodelled code |
| HandleTracking.SurplusReleasesAreReported | src/analysis/ResourceLifetimeAnalysis.cpp:2641-2758 | without suppression the double-release reports are exactly the releases met with more releases than acquisitions, and nothing is doubted |
| HandleTracking.SurplusIsReported | src/analysis/ResourceLifetimeAnalysis.cpp:2641-2758 | these reports cover the largest surplus of any prefix, and there are none exactly when no prefix has a surplus |
| HandleTracking.SilentExactlyWhenBalanced | src/analysis/ResourceLifetimeAnalysis.cpp:2641-3008 | without suppression or escape there is no incomplete-analysis report, and no other report if and only if every prefix has at most as many releases as acquisitions and the totals agree |
| HandleTracking.FinalSurplusIsReported | src/analysis/ResourceLifetimeAnalysis.cpp:2641-2758 | a final surplus of k releases gives at least k double-release reports |
| HandleTracking.AcquiredFirstIsNeverSuppressed | src/analysis/ResourceLifetimeAnalysis.cpp:2654-2740 | a handle whose first event is an acquisition never meets a suppression, so the results above apply |
| HandleTracking.TrackFunction | src/analysis/ResourceLifetimeAnalysis.cpp:2481-3008 | over any interleaving, each local handle's double-release, incomplete-analysis and missing-release reports are those its own projected history calls for, and other handles get none; a handle without suppression or escape has no report at all if and only if that history is balanced |
| Determinism.LocallyFine | src/analysis/DuplicateIfCondition.cpp:455-585 | an instruction is accepted if and only if it neither reads nor writes outside the function's own memory, touches no volatile memory and runs no unknown code |
| Determinism.DeterministicUnfolds | src/analysis/DuplicateIfCondition.cpp:439-594 | the least fixpoint satisfies its equation: body fine and every called function deterministic |
| Determinism.ReachesCallee | src/analysis/DuplicateIfCondition.cpp:441-446 | calling on from a function under v keeps v a caller up the chain: what is being visited always reaches the function at hand through calls |
| Determinism.CycleIsNotDeterministic | src/analysis/DuplicateIfCondition.cpp:441-446 | a function that reaches itself through calls is not in the least fixpoint, so answering false on a function still being visited is right |
| Determinism.DeterministicMeans | src/analysis/DuplicateIfCondition.cpp:439-594 | a function is deterministic if and only if every function it reaches, itself included, has an acceptable body and lies on no call cycle |
| Determinism.DeterminismCache.IsFunctionDeterministic | src/analysis/DuplicateIfCondition.cpp:439-594 | terminates on every call graph, returns exactly membership in the least fixpoint, leaves only right answers in the memo and restores the visiting set |
| Determinism.DeterminismCache.ScanBody | src/analysis/DuplicateIfCondition.cpp:455-585 | the body loop, with its early exits, decides exactly whether the body is fine and all callees deterministic |
| Determinism.AnswerQueries | src/analysis/DuplicateIfCondition.cpp:305-317 | queries through one shared cache are all answered right, whatever their order |
| PointerProvenance.WorkBudget.Consume | src/analysis/InvalidBaseReconstruction.cpp:28-49 | work is granted exactly while it fits; the total granted never exceeds 200000, and a refusal empties the budget for good |
| DefUse.SlotHopsAre | src/analysis/InvalidBaseReconstruction.cpp:315-377 | the steps out of an integer slot lead to its seeds, plain or shifted by an update the slot makes to itself, and to every stored value if there is no seed |
| DefUse.IntHopEvaluates | src/analysis/InvalidBaseReconstruction.cpp:243-379 | what the target of a step evaluates to, its source evaluates to with the step's delta added: x + c, c + x, x - c, merges and slot loads |
| DefUse.IntEvaluatesByHop | src/analysis/InvalidBaseReconstruction.cpp:243-379 | and every evaluation of an integer to an address goes through a step with the right delta, or starts at the conversion |
| DefUse.PtrHopEvaluates | src/analysis/InvalidBaseReconstruction.cpp:455-575 | the same for pointers: variables, casts, constant offsets, loads, merges and pointers made from integers |
| DefUse.PtrEvaluatesByHop | src/analysis/InvalidBaseReconstruction.cpp:455-575 | and every evaluation of a pointer to a stack object goes through such a step, or ends at the object |
| PointerProvenance.AfterOneMore | src/analysis/InvalidBaseReconstruction.cpp:226-370 | a walk's end state accumulates its deltas in 64-bit two's complement |
| PointerProvenance.WalkIsExplored | src/analysis/InvalidBaseReconstruction.cpp:209-382 | every def-use walk from the start is a derivation in the explored state space |
| PointerProvenance.ExploredIsWalk | src/analysis/InvalidBaseReconstruction.cpp:209-382 | and every explored state is the end of such a walk with the deltas summed |
| PointerProvenance.IntMatchMeans | src/analysis/InvalidBaseReconstruction.cpp:209-382 | some path justifies a pair if and only if the integer can evaluate to that pointer's address plus that offset, in 64-bit arithmetic |
| PointerProvenance.OriginMeans | src/analysis/InvalidBaseReconstruction.cpp:429-578 | some path justifies an origin if and only if the pointer can evaluate to that object's address plus that offset, in 64-bit arithmetic |
| PointerProvenance.MatchIsExplored | src/analysis/InvalidBaseReconstruction.cpp:209-382 | a pair is justified by a walk if and only if an explored state emits it |
| PointerProvenance.CollectPtrToIntMatches | src/analysis/InvalidBaseReconstruction.cpp:209-382 | on any graph, cyclic ones included: the integer can evaluate to each collected pointer plus its offset, and if the budget never refused, everything it can evaluate to is collected; each pop is paid for from the budget, so there are at most 200000 |
| PointerProvenance.OriginIsExplored | src/analysis/InvalidBaseReconstruction.cpp:429-578 | the same bridge for pointer origins |
| PointerProvenance.HopsFrom | src/analysis/InvalidBaseReconstruction.cpp:455-575 | the successors of one pointer value, including those found by the nested integer search, are sound, and complete if nothing was refused; nested pops are paid for too |
| PointerProvenance.CollectPointerOrigins | src/analysis/InvalidBaseReconstruction.cpp:429-578 | the pointer can evaluate to each collected object plus its offset; everything it can evaluate to is collected if the shared budget, nested searches included, never refused; all pops together, nested ones included, are exactly what the budget granted |
| SubobjectBounds.OccursInside | src/analysis/InvalidBaseReconstruction.cpp:776-897 | in a well-formed layout an occurrence at any depth lies inside the outer object |
| SubobjectBounds.ArraySearch | src/analysis/InvalidBaseReconstruction.cpp:807-837 | the array branch in exact arithmetic: no addition or multiplication wraps, and the element index is in range |
| SubobjectBounds.ElementsAreSound | src/analysis/InvalidBaseReconstruction.cpp:807-837 | what the array branch finds is a real subobject |
| SubobjectBounds.MembersAreSound | src/analysis/InvalidBaseReconstruction.cpp:839-895 | what the member loop finds is a real subobject, from any member on |
| SubobjectBounds.SearchIsSound | src/analysis/InvalidBaseReconstruction.cpp:776-897 | a successful search returns bounds containing the query and inside the enclosing object, which are those of a source-typed object at the query or of an array of source-typed elements with the query at an element boundary |
| SubobjectBounds.SearchIsComplete | src/analysis/InvalidBaseReconstruction.cpp:776-897 | every non-empty source-typed object at the query within the depth limit makes the search succeed |
| SubobjectBounds.FoundIsNear | src/analysis/InvalidBaseReconstruction.cpp:776-897 | whatever is found lies within the remaining depth, or one level deeper as an element of a struct's array member |
| SubobjectBounds.InArrayMemberIsFound | src/analysis/InvalidBaseReconstruction.cpp:839-895 | elements of an array member of a struct at the last searched depth are found |
| SubobjectBounds.SearchIsExact | src/analysis/InvalidBaseReconstruction.cpp:776-897 | in every well-formed layout the search succeeds if and only if a non-empty source-typed object lies at the query at most thirteen levels deep, or fourteen deep as an element of a struct's array member |
| SubobjectBounds.AcceptedProjectionsAreConfined | src/analysis/InvalidBaseReconstruction.cpp:899-922 | an accepted projection has origin and result in the same real subobject, inside the allocation |
| LargestSubobject.LiesInPart | src/analysis/InvalidBaseReconstruction.cpp:807-895 | a real subobject at the query other than the whole lies in one element or one member |
| LargestSubobject.FoundIsLargest | src/analysis/InvalidBaseReconstruction.cpp:776-897 | if members do not overlap, every real subobject at the query lies within the one the search returns |
| LargestSubobject.AcceptedExactlyWhen | src/analysis/InvalidBaseReconstruction.cpp:899-922 | if members do not overlap, a projection is accepted if and only if both offsets lie in the allocation, a non-empty source-typed object sits at the origin within the depth limit, and the largest subobject there ends inside the allocation and contains the result |
| SizeMinusK.AddSummarySink | src/analysis/SizeMinusKWrites.cpp:312-322 | adds the sink once, and returns true exactly when it was new |
| SizeMinusK.MapSink | src/analysis/SizeMinusKWrites.cpp:405-430 | a sink lands on exactly the caller's parameters handed on as its destination and as its length, and nowhere if either is not one |
| SizeMinusK.DirectPass | src/analysis/SizeMinusKWrites.cpp:329-393 | the first pass records exactly the direct sinks on a function's own arguments, without duplicates |
| SizeMinusK.PropagateCall | src/analysis/SizeMinusKWrites.cpp:405-430 | one call adds exactly the callee sinks whose arguments are the caller's own, and changed means the number of missing triples fell |
| SizeMinusK.PropagateFunction | src/analysis/SizeMinusKWrites.cpp:400-431 | a function's turn stays sound and grows; unchanged means all its calls are settled |
| SizeMinusK.PropagateOnce | src/analysis/SizeMinusKWrites.cpp:395-433 | a pass stays sound, grows, and either shrinks the missing triples or settles every function |
| SizeMinusK.SettledIsClosed | src/analysis/SizeMinusKWrites.cpp:395-433 | a table containing the direct sinks with every function settled contains the whole least fixpoint |
| SizeMinusK.BuildSummaries | src/analysis/SizeMinusKWrites.cpp:324-434 | the loop terminates on every program and yields exactly the least set closed under direct sinks and argument passing, without duplicates |
| SizeMinusK.VisitingOrderIsIrrelevant | src/analysis/SizeMinusKWrites.cpp:395-434 | two such results have the same sinks for each function, as multisets |
| IntRanges.OperandOrderIsMirrored | src/analysis/IntRanges.cpp:72-215 | the constant-on-the-left half of the table is the mirrored right half, in constraint and in meaning, and != alone gives no constraint |
| IntRanges.ConstraintSoundExactlyWhen | src/analysis/IntRanges.cpp:39-215 | a derived constraint contains every signed value that satisfies the comparison if and only if the comparison is one of a listed kind; all predicates, widths up to 64 and constants |
| IntRanges.SignedConstraintIsExact | src/analysis/IntRanges.cpp:72-137 | for signed comparisons the constraint contains exactly the satisfying values, if and only if a strict comparison is not against the 64-bit extreme it steps over; all widths and constants |
| IntRanges.UnsignedConstraintIsExact | src/analysis/IntRanges.cpp:138-205 | for unsigned comparisons, read as unsigned values, it does so if and only if the bound it gives fits the signed 64-bit field; all widths and constants |
| IntRanges.IntersectContains | src/analysis/StackBufferAnalysis.cpp:450-469 | intersecting keeps exactly the common values, missing bounds included |
| IntRanges.ComputeIntRanges | src/analysis/IntRanges.cpp:11-236 | each compared value, and each slot a compared value was loaded from, gets the meet of all its constraints, and nothing else gets an entry |
| IntRanges.MeetContains | src/analysis/IntRanges.cpp:17-37 | a meet contains exactly the values all constraints allow |
| IntRanges.MeetUnique | src/analysis/IntRanges.cpp:17-37 | the meet of a set of constraints is one range, unused bounds included |
| IntRanges.InstructionOrderIsIrrelevant | src/analysis/IntRanges.cpp:39-236 | two instruction lists with the same comparisons give the same table |
| IntRanges.EdgeRangeIsSound | src/analysis/StackBufferAnalysis.cpp:820-878 | on either branch the edge range contains every value that takes the branch, for the comparisons that can be read as signed |
| IntRanges.EdgeRangeIsExact | src/analysis/StackBufferAnalysis.cpp:820-878 | there is no edge range exactly where the edge rules out one value only, and on the true edge of != it is what the loop heuristic gives; for signed comparisons away from the 64-bit extremes it holds exactly the values that take the edge |
| IntRanges.RefinedRange | src/analysis/StackBufferAnalysis.cpp:880-898 | without an edge range nothing changes; with one the refined range is never wider than it, keeps every value both ranges allow, and is empty only if the edge range is |
| IntRanges.RefinementKeepsEdgeExactlyWhen | src/analysis/StackBufferAnalysis.cpp:880-898 | it loses nothing of the edge range if and only if the coarse range allows all of it or none of it |
| NeLoopGuard.ScanPredecessors | src/analysis/StackBufferAnalysis.cpp:583-610 | the predecessor scan gives up exactly on a second initialising or updating block, and otherwise finds the one of each kind there is |
| NeLoopGuard.StepsToBound | src/analysis/StackBufferAnalysis.cpp:630-656 | whenever the closing arithmetic gives a range, for positive and negative steps, a whole number of steps leads from the initial value exactly to the bound |
| NeLoopGuard.RangeExactlyWhenLanding | src/analysis/StackBufferAnalysis.cpp:630-656 | for every 64-bit non-zero step, positive or negative, whose distance to the bound fits 64 bits, the closing arithmetic gives a range if and only if some number of steps leads exactly to the bound |
| NeLoopGuard.DeriveBoundedRange | src/analysis/StackBufferAnalysis.cpp:562-657 | a range is derived for the true edge of a recognised loop on a stack slot, as long as the distance to the bound fits 64 bits, if and only if some number of steps, up or down, leads from the initial value exactly to the bound, and it spans the values on the way; unrecognised loops get none |
| NeLoopRuns.RecognisedLoopIsCounted | src/analysis/StackBufferAnalysis.cpp:562-657 | a loop of the recognised shape for which a range is derived is a counted loop with n steps to the bound, which the results on runs are about |
| NeLoopRuns.AlwaysControlled | src/analysis/StackBufferAnalysis.cpp:562-657 | without a bypass, in every run the guard sees only the counted values and the guarded block only those before the bound |
| NeLoopRuns.GuardLeavesAtTheBound | src/analysis/StackBufferAnalysis.cpp:562-657 | without a bypass the loop is left exactly at the bound, with a number of steps left that is zero exactly there |
| NeLoopRuns.UpdateStepsCloser | src/analysis/StackBufferAnalysis.cpp:562-657 | without a bypass each step out of the update lowers the number of steps left by one |
| NeLoopRuns.StepSpends | src/analysis/StackBufferAnalysis.cpp:562-657 | in any state the remaining guard visits never grow, and leaving the guard spends one |
| NeLoopRuns.GuardVisitedAtMost | src/analysis/StackBufferAnalysis.cpp:562-657 | termination: without a bypass any stretch of a run that does not come back to the initialisation visits the guard at most n + 1 times, n being the steps from the initial value to the bound |
| NeLoopRuns.StraightRun | src/analysis/StackBufferAnalysis.cpp:562-657 | and the run straight through the loop does visit it n + 1 times, reaching the bound exactly |
| NeLoopBypass.RangeHoldsExactlyWithoutBypass | src/analysis/StackBufferAnalysis.cpp:611-656 | the derived range contains the counter in every run if and only if the update cannot be reached from the entry, the exit or itself around guard and initialisation |
| NeLoopBypass.RangeCanBeWrong | src/analysis/StackBufferAnalysis.cpp:611-656 | a loop of the recognised shape with range 0 to 10 whose guarded block runs with 11 |
| OverflowBoxes.ProductWithinCorners | src/analysis/IntegerOverflowAnalysis.cpp:540-548 | every product of two values of the box lies between the smallest and largest corner product |
| OverflowBoxes.ExtremesAttained | src/analysis/IntegerOverflowAnalysis.cpp:530-552 | both ends of the computed result range are results of some pair in the box, for add, sub and mul |
| OverflowBoxes.SignedRangeMeans | src/analysis/IntegerOverflowAnalysis.cpp:481-503 | an operand is given two ends exactly if it is a constant of 1 to 63 bits, and then both are it, or a value with a bound on either side, and then they are those |
| OverflowBoxes.ProvenIsSound | src/analysis/IntegerOverflowAnalysis.cpp:505-557 | for every operation, width and pair of operands, known or not: a yes means an add, sub or mul of 1 to 63 bits with both operands known between two ends, and no pair of values they can take overflows |
| OverflowBoxes.OverflowCheckIsExact | src/analysis/IntegerOverflowAnalysis.cpp:505-557 | with both operands known between two ends and width 1 to 63 the check answers true if and only if no pair overflows, up to empty ranges |
| OverflowBoxes.IntermediatesFit128 | src/analysis/IntegerOverflowAnalysis.cpp:526-552 | no 128-bit intermediate leaves its range for any 64-bit bounds |
| OverflowBoxes.TruncationCheckIsExact | src/analysis/IntegerOverflowAnalysis.cpp:380-393 | for every known range, with one bound, both or none: the report agrees with whether some 64-bit value of the range does not survive the truncation, if and only if the range is of a listed kind; without a range nothing is reported |
| OverflowBoxes.ConstantTruncationIsExact | src/analysis/IntegerOverflowAnalysis.cpp:368-378 | a constant is reported exactly when truncating and widening it does not give it back |
| WriteState.MergeIsLeastUpperBound | src/analysis/ConstParamAnalysis.cpp:286-300 | merging is the least upper bound in the order no-write, unknown, may-write |
| WriteState.JoinArguments | src/analysis/ConstParamAnalysis.cpp:472-486 | a call's contribution over its arguments is their join, with the early stop exactly on may-write |
| WriteState.VisitUses | src/analysis/ConstParamAnalysis.cpp:425-525 | one value's uses contribute their join and push exactly the derived values |
| WriteState.ValueWriteState | src/analysis/ConstParamAnalysis.cpp:412-530 | the worklist terminates and returns the join over all uses reachable from the root, despite the early return |
| WriteState.JoinMeans | src/analysis/ConstParamAnalysis.cpp:412-530 | the answer is may-write exactly if some derived value is written through, here or by a callee, and no-write exactly if none is and none goes out of sight |
| WriteState.JoinUnique | src/analysis/ConstParamAnalysis.cpp:412-530 | that join is unique, so pop order cannot matter |
| StackPaths.AcyclicIsRanked | src/analysis/StackComputation.cpp:156-209 | no call chain returns to its start if and only if counting the reachable functions gives every call a lower callee: the measure behind the results on acyclic graphs |
| StackPaths.StackComputation.ComputeStack | src/analysis/StackComputation.cpp:156-209 | the memoised search terminates on cyclic graphs; each total is the cost of a real call chain, and on an acyclic graph no chain costs more |
| StackPaths.StackComputation.VisitCallees | src/analysis/StackComputation.cpp:188-202 | the callee loop computes the running maximum over finished callees |
| StackPaths.ComputeGlobalStackUsage | src/analysis/StackComputation.cpp:875-902 | the table covers every function with a frame; each total is the cost of a real chain, and if no call chain returns to its start no chain costs more |
| StackPaths.BestCallee | src/analysis/AnalyzerUtils.cpp:93-118 | the first callee of maximal total is picked |
| StackPaths.BuildMaxStackCallPath | src/analysis/AnalyzerUtils.cpp:77-123 | on any call graph the walk ends, starts at the given function, repeats nothing, follows real edges to maximal callees, and stops only where nothing costs more or a cycle closes |
| StackPaths.TotalThroughBestCallee | src/analysis/AnalyzerUtils.cpp:93-118 | with maximal totals a function's total is its frame plus its best callee's total |
| StackPaths.AcyclicWalkEndsAtTheBottom | src/analysis/AnalyzerUtils.cpp:77-123 | on an acyclic graph the walk stops only where all callees are free |
| StackPaths.PathExplainsTotal | src/analysis/AnalyzerUtils.cpp:77-123 | with maximal totals the frames along a greedy path that ends where all callees are free sum exactly to the start function's total |
| StackPaths.ExplainStack | src/analysis/AnalyzerUtils.cpp:77-123 | end to end, when no call chain returns to its start: the computed total is the largest chain cost and the reported path is a chain of exactly that cost |
| Glob.GlobMatches | src/analysis/BufferWriteModel.cpp:46-79 | the single-retry loop terminates and answers exactly the recursive meaning of its rules, for every pattern and text |
| Glob.CatchUp | src/analysis/BufferWriteModel.cpp:54-72 | a match found by restarting at the last star lets the current position catch up: forgetting earlier stars loses nothing |
| Glob.RetryCatchesUp | src/analysis/BufferWriteModel.cpp:64-70 | if some retry can succeed, so can the rest from an aligned position |
| Glob.LiteralStarIsSound | src/analysis/BufferWriteModel.cpp:46-79 | a true answer is always a real match of * and ? |
| Glob.CompleteWithoutStars | src/analysis/BufferWriteModel.cpp:46-79 | a real match is found whenever the text has no * |
| Glob.RefusedIsRefused | src/analysis/BufferWriteModel.cpp:54-60 | for each text with a * there is a pattern that matches it and is refused |
| Glob.ExactlyOnTextsWithoutStar | src/analysis/BufferWriteModel.cpp:46-79 | the matcher agrees with the meaning on all patterns if and only if the text has no * |
| Glob.OverlookedIsRefused | src/analysis/BufferWriteModel.cpp:54-60 | for each pattern with a * there is a text that it matches and that is refused |
| Glob.ExactlyForPatternsWithoutStar | src/analysis/BufferWriteModel.cpp:46-79 | the matcher agrees with the meaning on all texts if and only if the pattern has no * |
| Glob.PointerSignatureRefused | src/analysis/BufferWriteModel.cpp:202-216 | a demangled signature with a pointer parameter is such a text: f(int* does not match f(int**) |
| Glob.BufferWriteRuleMatcher.NamesFor | src/analysis/BufferWriteModel.cpp:184-200 | the cache always returns the name variants of the callee asked for |
| Glob.ShortcutIsMatching | src/analysis/BufferWriteModel.cpp:202-216 | comparing patterns without wildcards for equality changes nothing: a pattern names a function if and only if the matcher accepts one of its mangled, demangled and base names |
| Glob.VariantsOf | src/analysis/BufferWriteModel.cpp:184-200 | the base name is the demangled name up to its first parenthesis |
| Glob.BufferWriteRuleMatcher.RuleMatchesFunction | src/analysis/BufferWriteModel.cpp:202-216 | a rule matches if and only if its pattern accepts one of the callee's names |
| Glob.BufferWriteRuleMatcher.FindMatchingRule | src/analysis/BufferWriteModel.cpp:218-240 | returns the first applicable rule, or none exactly when none applies |
| Decimal.Render | src/analysis/BufferWriteModel.cpp:28-44 | decimal notation is non-empty digits with the number as value: the inverse of parsing |
| Decimal.ParseUnsignedIndex | src/analysis/BufferWriteModel.cpp:28-44 | accepts exactly the non-empty digit strings whose value fits an unsigned, and returns that value |
| CommandLine.IsSpace | src/analysis/CompileCommands.cpp:80-91 | separators are the space and the characters from tab to carriage return |
| CommandLine.TokenizeCommandLine | src/analysis/CompileCommands.cpp:66-139 | the state loop computes the recursive scan |
| CommandLine.TokensAreWordTexts | src/analysis/CompileCommands.cpp:66-139 | a line of words in any mix of plain, escaped, single- and double-quoted pieces, with any gaps, tokenizes to the words' texts |
| CommandLine.JoinedTokens | src/analysis/CompileCommands.cpp:66-139 | the same for words joined by single spaces |
| CommandLine.QuotingRoundTrip | src/analysis/CompileCommands.cpp:66-139 | quoting tokens in either style, joining and tokenizing gives them back if and only if none is empty; empty tokens are exactly what is lost |
| CompileCommands.WeightOfConcatenation | src/analysis/CompileCommands.cpp:243-278 | weights add up over concatenation, with one extra exactly where an option waiting for a value meets one |
| CompileCommands.WeightCountsOptions | src/analysis/CompileCommands.cpp:243-278 | only arguments that start with a dash count, each at least one and at most four |
| CompileCommands.WeightIgnoresOrder | src/analysis/CompileCommands.cpp:243-278 | the order of the arguments does not matter, apart from an option left without a value at the end |
| CompileCommands.SpellingWeighs | src/analysis/CompileCommands.cpp:243-278 | an include, definition or system path weighs four when its value follows and three when attached, a forced include four, the language standard and the system root three either way |
| CompileCommands.ShouldPreferCandidateCommand | src/analysis/CompileCommands.cpp:280-297 | the comparison cascade over weight, length, directory and arguments decides the preference relation |
| CompileCommands.PreferenceMeans | src/analysis/CompileCommands.cpp:280-297 | the candidate is preferred exactly when the existing command is not as good: more weight, else more arguments, else the smaller directory, else the smaller arguments |
| Ordering.StringLessMeans | src/analysis/CompileCommands.cpp:280-297 | strings are compared by their first difference, by character value, a prefix being smaller |
| CompileCommands.PreferenceIsStrictTotal | src/analysis/CompileCommands.cpp:280-297 | preference is irreflexive, transitive and connects any two different commands |
| CompileCommands.CompilationDatabase.AddEntry | src/analysis/CompileCommands.cpp:385-394 | an entry replaces the stored command exactly when there is none or the candidate is preferred |
| CompileCommands.BestStep | src/analysis/CompileCommands.cpp:385-394 | one more entry keeps each file's command the best of those seen |
| CompileCommands.CompilationDatabase.AddEntries | src/analysis/CompileCommands.cpp:348-394 | after all entries each file has one of its own commands, as good as any other: none has more weight, then more arguments, then a smaller directory, then smaller arguments |
| CompileCommands.EntryOrderIsIrrelevant | src/analysis/CompileCommands.cpp:348-394 | two entry lists with the same entries give the same database |
| CompileCache.CompileIRCache.LoadPayload | src/analysis/InputPipeline.cpp:467-520 | a load hits exactly when metadata is whole, every stamp is current and some output is present, and returns the files' contents |
| CompileCache.CompileIRCache.StorePayload | src/analysis/InputPipeline.cpp:522-558 | reports success exactly when there are dependencies and every write reports it; the files after each way it can end, in the order bitcode, IR, metadata: a file that cannot be opened keeps its old content, and a write may be lost after it was reported complete |
| CompileCache.StoreResultIsRun | src/analysis/InputPipeline.cpp:522-558 | every way a store can end is a run of the step system |
| CompileCache.CompileKeepsTrace | src/analysis/InputPipeline.cpp:1051-1076 | compiling ties the output to the file versions it was made from |
| CompileCache.StoreKeepsTrace | src/analysis/InputPipeline.cpp:550-557 | every single write, complete or cut short, keeps each complete stored text tied to the versions it was compiled from |
| CompileCache.EditKeepsTrace | src/analysis/InputPipeline.cpp:282-291 | editing a file, or putting an earlier version back with its old stamp, keeps all of that |
| CompileCache.CacheIsExplained | src/analysis/InputPipeline.cpp:467-558 | in every run of edits, restored files, deletions, loads and interrupted stores each complete stored text is what the tool makes of the versions it was compiled from |
| CacheReplay.ImageOfStep | src/analysis/InputPipeline.cpp:467-558 | every step of a run has a counterpart with a tool that gives the present contents another text in one part: misses stay misses, and writes store the changed text exactly where it was compiled |
| CacheReplay.ImageIsReached | src/analysis/InputPipeline.cpp:467-558 | hence every run can be replayed with that tool |
| CacheReplay.HitIsFreshExactlyWhen | src/analysis/InputPipeline.cpp:467-558 | in every such run a hit returns what compiling now would give, for every tool with a run that leaves these files from these versions, if and only if each stored text was compiled from what the files contain now |
| CompileCache.StepKeepsDiscipline | src/analysis/InputPipeline.cpp:467-558 | if nothing changes before stamp capture, no stamp comes back and writes reported complete are complete, current metadata always names the origin of all stored texts |
| CompileCache.HitsAreFresh | src/analysis/InputPipeline.cpp:467-558 | under these three rules every hit in every run returns what compiling now would give |
| CompileCache.EveryHitIsFreshExactlyWhen | src/analysis/InputPipeline.cpp:282-558 | every hit is fresh for every tool in every run if and only if all three rules hold |
| CompileCache.LateCaptureCanGoStale | src/analysis/InputPipeline.cpp:1077-1092 | if files may change between compiling and stamp capture, a stale hit is reachable |
| CompileCache.RestoredFileCanGoStale | src/analysis/InputPipeline.cpp:467-558 | if a file may be put back with its old stamp, a stale hit is reachable: the old metadata vouches for a newer output whose store stopped before its metadata |
| CompileCache.LateFailureCanGoStale | src/analysis/InputPipeline.cpp:330-337 | if a write may be lost after it was reported complete, a stale hit is reachable |
| CompileCache.StoreReaches | src/analysis/InputPipeline.cpp:1246-1260 | from any reachable miss an undisturbed compile and store is a run of the system |
| CompileCache.StoreThenHit | src/analysis/InputPipeline.cpp:467-558 | after it the next load hits and returns the stored output |
| CompileCache.MissingBitcodeCanGoStale | src/analysis/InputPipeline.cpp:550-557 | if outputs could come without bitcode, an old bitcode file next to new metadata would be served: why the callers serialise bitcode first |

## Left out

- LifetimeRules.MovedEffectsKeepAddress: takes a parameter's local copy, at its own address, for the parameter itself, as the analyzer does.
- LifetimeFixpoint.BuildSummary: how an operand is resolved to a parameter, a field or a global is an attribute of the call site, not computed from IR.
- EffectSummaries.SortCanonicalises: the library sort is modelled by insertion sort, which gives the same sequence on keys that are pairwise different; characters are ordered by code.
- HandleTracking.TrackFunction: a handle is identified by its storage and kind instead of the concatenated state key, counters are unbounded, and use-after-release, escapes to fields, destructor checks and message texts are not modelled.
- PointerProvenance.CollectPointerOrigins: offsets wrap in two's complement where the signed addition would be undefined; the search that decides whether a derived pointer is dereferenced, and the aggregation into reports, are not modelled; the order of the collected pairs is not specified.
- PointerProvenance.CollectPtrToIntMatches: offsets wrap in two's complement where the signed addition would be undefined.
- LargestSubobject.AcceptedExactlyWhen: assumes that struct members do not overlap, as LLVM lays them out; without that AcceptedProjectionsAreConfined still holds.
- SizeMinusK.BuildSummaries: iterates a snapshot of the callee's sinks; the C++ loop iterates a vector that a recursive call may extend while it runs.
- NeLoopBypass.RangeHoldsExactlyWithoutBypass: assumes that some run reaches the initialisation (a loop no run enters satisfies any range), that the guard block does not store to the slot, that the compared and incremented values are loaded just before use, that the slot is only written through its own name, and that bound minus init fits 64 bits; the counter itself is an unbounded integer.
- NeLoopGuard.DeriveBoundedRange: the difference of bound and initial value wraps instead of being undefined.
- OverflowBoxes.OverflowCheckIsExact: an operand range that is empty (lower above upper) admits no pair, and the check may still reject it; the lemma says so explicitly.
- StackPaths.ComputeGlobalStackUsage: sums are unbounded; the 64-bit wrap-around of frame sizes, and the recursion and infinite-recursion detection are not modelled.
- CompileCommands.CompilationDatabase.AddEntries: starts from entries whose paths and arguments are already normalised; JSON, path normalisation, the argument-stripping helpers and the suffix fallback when looking up a file are not modelled.
- CompileCache.HitsAreFresh: promises fresh hits only under three rules on the surroundings; EveryHitIsFreshExactlyWhen shows that each is needed.
- CacheReplay.HitIsFreshExactlyWhen: fresh means that all three stored texts are the current ones, while the analyzer goes on with one of bitcode and IR; it assumes that a stamp never stands for two contents of one path, that the source and the recorded dependencies determine the output (system headers, which the dependency file omits, are outside that assumption), that outputs come with bitcode that parses, and one writer at a time per cache key. A second compilation after stamp capture, hash collisions of cache keys, metadata encoding and directory creation are not modelled.
- WriteState.ValueWriteState: what one use contributes (store, call, metadata) is an attribute of the use; the tables of known library functions are not modelled.
- Glob.BufferWriteRuleMatcher.NamesFor: the demangler is a parameter.
- SMT encoders and back ends, the stack-pointer-escape solver, the uninitialised-variable analysis, the reporting front ends and the driver are not modelled.
- Name tables (allocators, library sinks, standard-library prefixes), message formatting and confidence scores would only add easy members.
