# Verification of the NPS protocol suite

This project models the stateful and arithmetic cores of the NPS protocol suite (a Rust workspace)
in Dafny 4.11 and proves what they promise. `dafny verify dfyconfig.toml` checks everything.

| files | core |
|---|---|
| `ContextModel`, `ContextStore`, `ContextInvariants`, `ContextRuns`, `ContextLifetime` | the two-phase LLM context store: transitions, the object that makes them in place, its invariant, whole runs replayed from a ghost log, and when contexts live, expire and are granted |
| `DependencyGraph`, `StableTopology`, `DagValidation` | the two sorters of task graphs, against closed walks and topological orders |
| `DagRun`, `DagResults`, `Orchestrator`, `Reachability`, `Aggregator` | the concurrent K-of-N scheduler as rounds with a free choice of which node finishes, what it records, its verdict, the aggregated value, and saga compensation |
| `PortableModel`, `PortableProfile`, `PortableTraces`, `PortableVisits`, `PortableAggregation`, `Leases` | the deterministic orchestration profile: loops, traces, retries, the account of every visit, compensation, aggregation of results, task leases |
| `Condition`, `ConditionParser`, `ConditionValues`, `ConditionLexing`, `ConditionPrinting`, `ConditionText` | the condition language: tokenizer, evaluator, layouts of text, an order on values and the decimals texts denote, printer, and the round trip through text |
| `CivilTime`, `IsoTime` | second counts to civil dates and back, against a day-by-day walk |
| `Json`, `JsonReading`, `JsonWriter`, `NdpAnnounce`, `NdpRegistryModel`, `NdpRegistry`, `NdpConvergence`, `NdpAdmission` | canonical announce bodies, a reader that gives them back, and the announce registry |
| `Bytes`, `BinaryVector`, `BinaryVectorCodec`, `FrameHeader`, `FrameCodec`, `NwpStream` | frame headers, the binary-vector payload, whole frames, and the client's splitting loop |
| `Merkle` | audit-path verification |
| `Cancellation`, `ActionStream` | the cancellation token under every interleaving; the stream writer and replay |
| `AnchorFence`, `ClusterDelegation` | the epoch fence and the failover cache |
| `Der`, `DerExtensions` | DER lengths, values, string sequences and the extension search |
| `NopModels`, `Collections`, `Text`, `Wrappers` | task graphs as data, and small shared helpers |

Objects that update their fields are classes whose methods equal a transition function of the old
contents; loops are methods proved against recursive functions; whole runs are sequences of calls.
Concurrent code is a state machine over its atomic steps.

What the code does and its documentation does not say:

* `run_dag` may report a completed task whose end node never ran (`Orchestrator.CompletedVerdictCanSkipTheEndNode`).
  `Orchestrator.CompletedCoversEndNodesWhen` says exactly when it does not; it never does when nodes wait
  only on nodes without inputs (`Orchestrator.FlatCompletedCoversEndNodes`).
* A boolean literal on the left of a comparison makes the rest of the condition unread
  (`ConditionText.BooleanOnTheLeftIgnoresTheRest`); `ConditionText.FaithfulWhen` says exactly when that matters.
* Of two bodies announced under one sequence the first to arrive stays, so registries converge exactly when
  the frames of the highest sequence agree (`NdpConvergence.OrderIsIrrelevantWhen`).
* `run_dag` merges end-node results in the order of a hash map, which does not matter exactly when results
  that are objects agree on shared keys (`Aggregator.MergeOrderIsIrrelevantWhen`).
* The delegation cache is documented as one that only moves forward, but a lookup that was under way
  during a failover can put the old owner back (`ClusterDelegation.LateLookupUndoesFailover`). An
  entry only moves forward, whatever the interleaving, exactly when no lookup for it is under way
  (`ClusterDelegation.EntryStaysNewestWhen`).
* A dictionary whose search vector is anything but an array of exact float32 numbers is encoded in the
  binary tier and then refused or changed by decoding (`FrameCodec.BinaryRoundTripsWhen`).
* DER lengths of 65536 and more are written modulo 65536 (`Der.LengthReadsBackWhen`).
* A context id may be drawn again once the tombstone of its previous holder has been swept, so versions
  and transcripts are counted from a context's latest birth (`LlmContextRuns.EveryVersionCountsCommits`).

## Model

| member | source | states |
|---|---|---|
| `LlmContextStore.InMemoryLlmContextStore.constructor` | nps-nwp/src/context_store.rs:123-150 | an empty store, with a default for every option that is zero |
| `LlmContextStore.InMemoryLlmContextStore.SweepLocked` | nps-nwp/src/context_store.rs:748-775 | drops exactly what has run out, tombstones what expired, and changes nothing else |
| `LlmContextStore.InMemoryLlmContextStore.EnsureAllocationAvailable` | nps-nwp/src/context_store.rs:685-714 | admits a creation or fork exactly while active contexts and pending allocations are below the owner's cap |
| `LlmContextStore.InMemoryLlmContextStore.Reserve` | nps-nwp/src/context_store.rs:249-356 | new state and answer of the first phase, error cases in the code's order |
| `LlmContextStore.InMemoryLlmContextStore.DrawContextId` | nps-nwp/src/context_store.rs:735-746 | an id that no context has, or failure after eight draws |
| `LlmContextStore.InMemoryLlmContextStore.Commit` | nps-nwp/src/context_store.rs:358-450 | new state and receipt of the second phase |
| `LlmContextStore.InMemoryLlmContextStore.DropReservation` | nps-nwp/src/context_store.rs:859-867 | an aborted reservation unpins its context and settles its outcome |
| `LlmContextStore.InMemoryLlmContextStore.Abort` | nps-nwp/src/context_store.rs:452-480 | new state and answer of an abort |
| `LlmContextStore.InMemoryLlmContextStore.Release` | nps-nwp/src/context_store.rs:482-549 | new state and receipt of a release, replays included |
| `LlmContextStore.InMemoryLlmContextStore.QueryStatus` | nps-nwp/src/context_store.rs:551-593 | the status of a key or a context after a sweep |
| `LlmContextInvariants.SweepKeeps` | nps-nwp/src/context_store.rs:748-775 | a sweep keeps the pins, the busy outcomes, the receipts and the caps |
| `LlmContextInvariants.AdmittedIsAdmissible` | nps-nwp/src/context_store.rs:249-320 | what admission grants fits the store: version, owner, transcript and cap agree |
| `LlmContextInvariants.ReserveKeeps` | nps-nwp/src/context_store.rs:249-356 | reserving keeps the invariant over all three maps |
| `LlmContextInvariants.CommitKeeps` | nps-nwp/src/context_store.rs:358-450 | committing keeps it |
| `LlmContextInvariants.AbortKeeps` | nps-nwp/src/context_store.rs:452-480 | aborting keeps it |
| `LlmContextInvariants.ReleaseKeeps` | nps-nwp/src/context_store.rs:482-549 | releasing keeps it |
| `LlmContextInvariants.DrawnIdIsFree` | nps-nwp/src/context_store.rs:735-746 | a drawn context id is valid and free |
| `LlmContextRuns.EveryReachableState` | nps-nwp/src/context_store.rs:249-549 | in every state of every run each context is the replay of its committed operations, every append or reset reservation pins its context, busy outcomes and reservations match one to one, and no owner is over the cap |
| `LlmContextRuns.ReservationSurvives` | nps-nwp/src/context_store.rs:249-549 | a reservation of any kind lasts until its own commit or abort, whatever else is called: its key stays busy, and an append or reset keeps its context pinned at the version it saw |
| `LlmContextRuns.NoUpdateIsLost` | nps-nwp/src/context_store.rs:249-450 | an append or reset commits at the version after the one it was based on: an append adds exactly its delta to the transcript it saw, a reset replaces transcript and binding |
| `LlmContextRuns.OpenMutationCommits` | nps-nwp/src/context_store.rs:358-450 | a reservation on an existing context can always be committed |
| `LlmContextRuns.NoKeyCommitsTwice` | nps-nwp/src/context_store.rs:259-266 | a key that was committed is not committed again while its outcome is retained |
| `LlmContextRuns.OutcomeSurvives` | nps-nwp/src/context_store.rs:748-775 | a completed outcome stays as it is until its retention ends |
| `LlmContextRuns.BusyMeansReserved` | nps-nwp/src/context_store.rs:551-593 | a key is reported busy exactly while a reservation holds it |
| `LlmContextRuns.RefusalOnlySweeps` | nps-nwp/src/context_store.rs:249-549 | a refused call changes nothing beyond the sweep |
| `LlmContextRuns.ReleaseIsIdempotent` | nps-nwp/src/context_store.rs:482-549 | repeating a release gives the same receipt and commits nothing, whatever is called between, while its outcome is retained |
| `LlmContextRuns.EveryVersionCountsCommits` | nps-nwp/src/context_store.rs:358-549 | a context's version is one plus its committed appends, resets and releases |
| `LlmContextRuns.ForkInheritsRemainingTtl` | nps-nwp/src/context_store.rs:716-733 | a fork without its own ttl lives as long as its parent still had, rounded up to a second |
| `LlmContextLifetime.SweepDecides` | nps-nwp/src/context_store.rs:748-775 | a free active context expires exactly at its deadline, a tombstone and a settled outcome leave exactly when their time has come, and everything else stays as it is |
| `LlmContextLifetime.ReserveIsGrantedWhen` | nps-nwp/src/context_store.rs:249-356 | a reservation is granted exactly to a well-formed, supported request under a free key whose context is the owner's, in use, free and at that version, with a matching binding and room under the cap |
| `LlmContextLifetime.RequestIsRefusedWhen` | nps-nwp/src/context_store.rs:249-320 | the refusals before any context is looked at, in order: a malformed request, system messages in a delta, an unsupported operation, a key in use, and for a creation the cap |
| `LlmContextLifetime.MutationIsRefusedWhen` | nps-nwp/src/context_store.rs:249-356 | which refusal a well-formed request on a context gets: unknown, another owner's, released, expired, busy or at another version |
| `LlmContextLifetime.GrantIsRecorded` | nps-nwp/src/context_store.rs:322-356 | a grant records the request, the transcript and version it builds on, and its lifetime, and holds the context of an append or reset |
| `LlmContextLifetime.CommitSetsDeadline` | nps-nwp/src/context_store.rs:358-450 | a commit leaves an active, free context of the requesting owner, due the granted number of seconds later |
| `LlmContextLifetime.FirstDrawDecides` | nps-nwp/src/context_store.rs:735-746 | the first draw that does not collide is the id, or fails when it is malformed |
| `LlmContextLifetime.AbortIsRecorded` | nps-nwp/src/context_store.rs:452-480 | an abort frees the context and remembers its key as failed |
| `LlmContextLifetime.ReleaseIsGrantedWhen` | nps-nwp/src/context_store.rs:482-549 | under a free key a release is granted exactly to the owner of an active, free context at that version, and leaves its tombstone |
| `LlmContextLifetime.ReleaseIsRefusedWhen` | nps-nwp/src/context_store.rs:482-549 | every refusal of a release in order, and the replay of a remembered one |
| `LlmContextLifetime.ContextStatusTells` | nps-nwp/src/context_store.rs:887-912 | the owner is told busy exactly while an append or reset holds the context, and otherwise its own state |
| `LlmContextLifetime.KeyStatusTells` | nps-nwp/src/context_store.rs:551-593 | the status of a key: busy or failed as remembered; once completed the context's own status, or its receipt when the context is gone |
| `LlmContextLifetime.ContextLives` | nps-nwp/src/context_store.rs:249-549 | over any run, while every call comes before its deadline and none commits to it or releases it, a context stays as it was but for the reservation that holds it |
| `LlmContextLifetime.IdleContextExpires` | nps-nwp/src/context_store.rs:748-775 | a sweeping call ends a free context exactly when it comes at the deadline or later |
| `LlmContextLifetime.CommittedContextServes` | nps-nwp/src/context_store.rs:249-450 | after a commit, before the deadline its receipt names, the owner's well-formed append on the committed version under a free key is granted |
| `DependencyGraph.TopologicalHasNoCycle` | nps-nop/src/portable_profile.rs:247-279 | a graph with a topological order has no closed walk |
| `DependencyGraph.StuckSetHasCycle` | nps-nop/src/portable_profile.rs:247-279 | a set in which every node waits for a member holds a closed walk |
| `StableTopology.Tabulate` | nps-nop/src/portable_profile.rs:248-259 | in-degrees and successors, or nothing when a dependency is unknown |
| `StableTopology.GreedyIsLeast` | nps-nop/src/portable_profile.rs:260-279 | taking the least ready id at every step gives the least order |
| `StableTopology.StableTopology` | nps-nop/src/portable_profile.rs:247-279 | an order exactly when all dependencies exist and the graph has no cycle, and then the lexicographically least of all topological orders |
| `DagValidation.ReadEdges` | nps-nop/src/validation.rs:77-99 | adjacency and in-degrees of the edge list, duplicates counted |
| `DagValidation.SortNodes` | nps-nop/src/validation.rs:152-181 | the queue-based sort orders all nodes exactly when the edge graph has no cycle |
| `DagValidation.ValidateDag` | nps-nop/src/validation.rs:48-181 | accepts exactly the acceptable graphs, with a topological order of the edges, and otherwise names the first rule broken |
| `DagValidation.AcceptableWhen` | nps-nop/src/validation.rs:48-181 | the rules read off the lists: one to 32 nodes, distinct ids, known edge ends and inputs, short conditions, and no way along the edges back to a node |
| `DagValidation.EdgesGoForward` | nps-nop/src/validation.rs:152-181 | every edge, repeated or not, goes forward in an accepted order |
| `DagValidation.AcyclicNeedsBoth` | nps-nop/src/validation.rs:118-134 | the start and end node checks only ever reject graphs with a cycle |
| `DagRun.CascadeOnlyFails` | nps-nop/src/orchestrator.rs:275-327 | the K-of-N pass only adds failures, of ready nodes short of successes, and keeps satisfied nodes |
| `DagRun.EveryRun` | nps-nop/src/orchestrator.rs:241-399 | in every run each node is launched at most once, after K of its inputs succeeded and with their results, never more than the limit in flight; the run has at most one round per node |
| `DagRun.StatesAreWrittenOnce` | nps-nop/src/orchestrator.rs:241-399 | a state once written is never changed |
| `DagRun.FailedByDependency` | nps-nop/src/orchestrator.rs:275-327 | a node failed without running had all inputs finished and too few successes |
| `DagRun.UnfailingRunsCoverEveryNode` | nps-nop/src/orchestrator.rs:241-399 | when nothing fails and the inputs form an acyclic graph, a stopped run has run every node |
| `DagRun.LacksStateWhen` | nps-nop/src/orchestrator.rs:264-345 | after a stopped run a node has no state exactly when its inputs lead, through waiting nodes, to a node the last K-of-N pass failed or round a cycle |
| `DagRun.StoppedRunCoversWhen` | nps-nop/src/orchestrator.rs:264-345 | a stopped run gives every node a state exactly when no waiting node waits on one that the last K-of-N pass failed and no waiting nodes wait for each other in a cycle |
| `DagRun.FlatInputsAreCovered` | nps-nop/src/orchestrator.rs:264-345 | when nodes wait only on nodes without inputs every stopped run gives every node a state, whatever fails |
| `DagResults.ResultsAreRecorded` | nps-nop/src/orchestrator.rs:345-356 | on every run a node has a result exactly when it finished completed with one, and it is that one |
| `DagResults.StatesAreRecorded` | nps-nop/src/orchestrator.rs:345-356 | a node that finished has the state it finished with, and any other node with a state was failed unrun |
| `DagResults.LaunchesGetTheResults` | nps-nop/src/orchestrator.rs:328-343 | a launch is given exactly the results of the nodes it had seen complete with one |
| `DagResults.LaunchedAfterEnough` | nps-nop/src/orchestrator.rs:264-345 | every launched node with inputs had all of them, or the K it asks for, completed or skipped, counted by input position |
| `DagResults.SatisfiedWhen` | nps-nop/src/orchestrator.rs:867-899 | enough inputs: all of them when K is zero, else at least K positions |
| `DagResults.HopelessWhen` | nps-nop/src/orchestrator.rs:275-327 | when the inputs can no longer give enough successes |
| `DagResults.CanStillSucceedWhen` | nps-nop/src/orchestrator.rs:903-925 | when an end node can still gather its successes |
| `Orchestrator.FillRound` | nps-nop/src/orchestrator.rs:265-343 | one round of ready nodes, failures by dependency and launches |
| `Orchestrator.CheckAbort` | nps-nop/src/orchestrator.rs:360-397 | aborts exactly when a reachable end node can no longer gather its successes |
| `Orchestrator.EndsAtTheFirstFatalFailure` | nps-nop/src/orchestrator.rs:360-397 | a run ends at the first failure from which an end node is reachable that waits for nothing or has too many failed inputs, and without one when nothing is left in flight |
| `Orchestrator.Schedule` | nps-nop/src/orchestrator.rs:241-399 | the loop follows a run to its end and stops early exactly on an abort |
| `Orchestrator.RunDag` | nps-nop/src/orchestrator.rs:241-470 | the verdict, its error code, the results recorded, the aggregated value, the compensation that goes with it and the order in which it dispatches |
| `Orchestrator.CompletedVerdictCanSkipTheEndNode` | nps-nop/src/orchestrator.rs:304-345 | a chain in which a failure cascades with nothing in flight is reported completed although its end node never ran |
| `Orchestrator.CompletedCoversEndNodesWhen` | nps-nop/src/orchestrator.rs:264-470 | a task reported completed has every end node completed or skipped exactly when no end node is stuck behind a late failure or a cycle |
| `Orchestrator.FlatCompletedCoversEndNodes` | nps-nop/src/orchestrator.rs:264-470 | when nodes wait only on nodes without inputs, a completed task has run or skipped every end node |
| `Aggregator.AggregateResults` | nps-nop/src/aggregator.rs:16-60 | one result, all, the first few, or all merged, and the empty object for none |
| `Aggregator.AggregateEndNodes` | nps-nop/src/aggregator.rs:63-73 | the aggregate of those listed end nodes that have a result, in the order listed |
| `Aggregator.FastestKAreTheFirst` | nps-nop/src/aggregator.rs:24-31 | the first K results, or all when there are no more or K is zero |
| `Aggregator.MergedIsTheLast` | nps-nop/src/aggregator.rs:40-55 | the merge holds exactly the keys some result gives, non-objects under a key of their own, each with the value of the last that gives it |
| `Aggregator.MergeOrderIsIrrelevantWhen` | nps-nop/src/aggregator.rs:40-55 | merging results that are objects gives the same in every order exactly when they agree on the keys they share |
| `Reachability.CanReachEndNode` | nps-nop/src/orchestrator.rs:927-951 | exactly reachability along edges |
| `Orchestrator.DispatchIsBackwards` | nps-nop/src/orchestrator.rs:776-860 | compensation dispatches exactly the recorded-completed nodes with an action, edge successors before predecessors |
| `Orchestrator.RunSagaCompensation` | nps-nop/src/orchestrator.rs:776-860 | one answer for each dispatch; attempted, succeeded and the failed ids are those of the answers, and the strict policy dispatches nothing when an action is missing |
| `Orchestrator.NotUndoneAre` | nps-nop/src/orchestrator.rs:816-850 | the failed ids are exactly those of the dispatches that were not answered completed, in order |
| `Orchestrator.MissingWhen` | nps-nop/src/orchestrator.rs:776-815 | a strict compensation refuses exactly when a completed node has no action |
| `Orchestrator.ErrorCodeTells` | nps-nop/src/orchestrator.rs:975-991 | the error code of a compensation: none exactly when everything was undone |
| `CivilTime.YearOfEraBounds` | ca-server/src/ca.rs:124-126 | the division formula finds the year of the era that holds the day |
| `CivilTime.CivilIsWalk` | ca-server/src/ca.rs:115-134 | the date of a day number is the one reached by walking day by day from 1970-01-01 |
| `CivilTime.WalkIsValid` | ca-server/src/ca.rs:115-134 | walked dates have a valid month and day, leap years as in Appendix C of RFC 3339 |
| `IsoTime.PartsAreValid` | ca-server/src/ca.rs:115-134 | date and time of day are valid and add up to the second count |
| `IsoTime.DaysInvertCivil` | ca-server/src/main.rs:190-197 | the day number of a computed date is the day it was computed from |
| `IsoTime.CivilInvertsDays` | ca-server/src/main.rs:190-197 | every valid date that is accepted is the date of its day number |
| `IsoTime.AcceptedDates` | ca-server/src/main.rs:190-197 | valid dates are accepted exactly from 1970 on and while the day count fits 64 bits |
| `IsoTime.IsoRoundTrip` | ca-server/src/main.rs:181-197 | reading a written timestamp gives the second count back, for every 64-bit count |
| `IsoTime.StampIsLaidOut` | ca-server/src/ca.rs:108-134 | up to the year 9999 a timestamp has the shape of RFC 3339, each field in its place |
| `IsoTime.TooFewSeparatorsGiveZero` | ca-server/src/main.rs:181-187 | a text with fewer than five separators is read as zero |
| `ConditionParser.TokenizeInput` | nps-nop/src/condition.rs:85-238 | the tokenizer's loop gives the tokens of the specification |
| `ConditionParser.Parser.ParseOrExpr` | nps-nop/src/condition.rs:279-288 | the cursor reads one or-expression and stays before the end token |
| `ConditionParser.Parser.ParseAndExpr` | nps-nop/src/condition.rs:290-299 | likewise for and-expressions |
| `ConditionParser.Parser.ParseNotExpr` | nps-nop/src/condition.rs:301-308 | likewise for negations |
| `ConditionParser.Parser.ParseComparison` | nps-nop/src/condition.rs:310-341 | likewise for comparisons, parentheses and bare values |
| `ConditionParser.EvaluateCondition` | nps-nop/src/condition.rs:41-53 | evaluation of a condition text, blank texts included |
| `Condition.OrExpr` | nps-nop/src/condition.rs:279-288 | on any token list that ends in the end token, reading advances and never passes it |
| `ConditionPrinting.TokensMean` | nps-nop/src/condition.rs:279-361 | the printed tokens of a tree evaluate to the tree's strict meaning, whose comparisons and truth are an order and a test on values of their own |
| `ConditionLexing.HeadIsScanned` | nps-nop/src/condition.rs:85-238 | at the head of any text the tokenizer sees white space, or the one token that begins it and is as long as it can be, or the error its first character makes |
| `ConditionLexing.TokenizesWhen` | nps-nop/src/condition.rs:85-238 | any text gives exactly the tokens it is laid out as, white space anywhere between them or none, and fails exactly where none begins |
| `ConditionText.TokenizeInvertsRender` | nps-nop/src/condition.rs:85-238 | tokenizing rendered tokens gives them back |
| `ConditionText.PrintedConditionMeans` | nps-nop/src/condition.rs:41-53 | evaluating the printed form of a tree equals its strict, error-propagating meaning, stated without the evaluator's comparison, truth test or number reader |
| `ConditionText.EveryLayoutMeans` | nps-nop/src/condition.rs:41-53 | however its text is spaced, within and around, a condition evaluates to its strict meaning unless a comparison starts with a boolean literal |
| `ConditionText.EveryLayoutAnswers` | nps-nop/src/condition.rs:41-53 | however it is spaced, any condition evaluates to its meaning or to that of the part read before such a literal |
| `ConditionText.UnreadableConditionFails` | nps-nop/src/condition.rs:41-53 | a text in which something is no token fails with that error, whatever surrounds it |
| `ConditionText.EveryConditionAnswers` | nps-nop/src/condition.rs:279-341 | any tree evaluates to its meaning or, from the first comparison that starts with a boolean literal on, to the meaning of the part read so far, or to a missing parenthesis |
| `ConditionText.FaithfulWhen` | nps-nop/src/condition.rs:279-341 | exactly when a tree means what it says: no such comparison, an error before it, or nothing lost with the unread part |
| `ConditionText.BooleanOnTheLeftIgnoresTheRest` | nps-nop/src/condition.rs:321-330 | a comparison that starts with a boolean literal answers with that literal |
| `ConditionText.BooleanOnTheLeftIsFaithfulWhen` | nps-nop/src/condition.rs:321-330 | exactly when a bare comparison of that kind means what it says, by operator and value |
| `Text.StringLessWhen` | nps-nop/src/condition.rs:405-411 | one string is less than another exactly when it is smaller at their first difference or a proper prefix |
| `ConditionValues.CompareRelates` | nps-nop/src/condition.rs:399-423 | a comparison answers the order of numbers by size and of strings by first difference, equality apart, and false across kinds |
| `ConditionValues.TruthyHolds` | nps-nop/src/condition.rs:390-397 | everything holds but false, zero, the empty string and null |
| `ConditionValues.ParseDenotes` | nps-nop/src/condition.rs:352-355 | a number text is read as the decimal its digits denote, and any other text is refused |
| `ConditionText.NumeralsCompare` | nps-nop/src/condition.rs:41-53 | two numerals around an operator answer whether the numbers they denote stand in that relation |
| `ConditionText.StringsCompare` | nps-nop/src/condition.rs:41-53 | two quoted strings around an operator answer equality or the order of their first difference |
| `ConditionText.PathComparesWithNumeral` | nps-nop/src/condition.rs:310-341 | a path and a numeral: the number at the path stands in the relation; any other value is only unequal |
| `ConditionText.ValueAloneHolds` | nps-nop/src/condition.rs:310-341 | a value alone answers whether it is none of false, zero, the empty string and null |
| `ConditionText.ConnectivesMean` | nps-nop/src/condition.rs:279-308 | and, or and not of two values, with the first error as the answer |
| `Json.PrintReadsOnce` | nps-ndp/src/registry_profile.rs:392-423 | no printed value is the beginning of another's text |
| `Json.CanonForgetsNulls` | nps-ndp/src/registry_profile.rs:392-423 | sorting keys and dropping nulls loses nothing else |
| `Json.PrintedAlikeWhen` | nps-ndp/src/registry_profile.rs:392-423 | two values print the same exactly when they are equal after dropping null members at every level |
| `JsonReading.StringReadsBack` | nps-ndp/src/registry_profile.rs:392-423 | a printed string is read back by the escapes of section 7 of RFC 8259 |
| `JsonReading.EscapesAreShort` | nps-ndp/src/registry_profile.rs:392-423 | which characters are escaped, in two characters or six |
| `JsonReading.CanonicalReadsBack` | nps-ndp/src/registry_profile.rs:392-423 | a reader of RFC 8259 texts with ascending keys reads every canonical text, whatever follows it, as its value without null members |
| `JsonWriter.WriteCanonical` | nps-ndp/src/registry_profile.rs:392-423 | the appending printer writes the canonical text after what was there |
| `NdpAnnounce.SameSignedBodyWhen` | nps-ndp/src/registry_profile.rs:65-77 | two announces share a signed body exactly when they agree outside the four unsigned fields, nulls aside and with the default heartbeat filled in |
| `NdpAnnounce.SharedBodyShares` | nps-ndp/src/registry_profile.rs:65-77 | frames with one signed body agree on every number and string that is signed: sequence, ttl, node id |
| `NdpRegistry.NdpRegistryProfile.ApplyAnnounce` | nps-ndp/src/registry_profile.rs:120-214 | new maps and decision of one announce, checks in the code's order |
| `NdpRegistry.NdpRegistryProfile.Again` | nps-ndp/src/registry_profile.rs:164-193 | the branch for a frame that repeats the highest sequence |
| `NdpAdmission.BadSignatureIsRefused` | nps-ndp/src/registry_profile.rs:126-128 | an announce whose signature does not verify is rejected for it and changes nothing |
| `NdpAdmission.UnreadableIsRefused` | nps-ndp/src/registry_profile.rs:129-150 | so is a frame that does not name its node, time, sequence and ttl as the profile wants |
| `NdpAdmission.ReadableIsDecided` | nps-ndp/src/registry_profile.rs:120-214 | every decision and rejection of a readable frame, read off its fields, the time and the two maps, with the new state |
| `NdpAdmission.EveryEntryIsVouched` | nps-ndp/src/registry_profile.rs:120-214 | over every run from an empty registry each entry is the frame of an announce with a valid signature that came before its deadline and, outside local development, within five minutes of its timestamp |
| `NdpConvergence.RejectionChangesNothing` | nps-ndp/src/registry_profile.rs:120-214 | a rejected announce leaves both maps alone |
| `NdpConvergence.SequencesOnlyGrow` | nps-ndp/src/registry_profile.rs:120-214 | over any run sequences never decrease, and a removed node is back only under a strictly higher one |
| `NdpConvergence.RunShowsTheTop` | nps-ndp/src/registry_profile.rs:120-214 | over any announces, conflicting bodies included, a run shows an admissible frame of the highest sequence: its digest, or nothing if it has ttl 0 |
| `NdpConvergence.RegistriesConverge` | nps-ndp/src/registry_profile.rs:120-214 | registries given the same admissible frames in any order and repetition agree on sequence and live signed body, if the frames of the highest sequence do |
| `NdpConvergence.OrderIsIrrelevantWhen` | nps-ndp/src/registry_profile.rs:120-214 | order and repetition make no difference exactly when the frames of the highest sequence all remove the node or all carry one digest |
| `NdpConvergence.FirstOfTheTopStays` | nps-ndp/src/registry_profile.rs:160-175 | of the frames of the highest sequence, whatever their bodies, the first to arrive is the one shown |
| `NdpConvergence.LeaderIsAboveAll` | nps-ndp/src/registry_profile.rs:238-279 | a leader is named exactly when one live anchor is strictly above all others |
| `NdpConvergence.NobodyServes` | nps-ndp/src/registry_profile.rs:238-279 | nobody is named, without an error, exactly when no live anchor serves the cluster |
| `PortableProfile.ReadNodes` | nps-nop/src/portable_profile.rs:30-38 | the node map, or nothing when an id is missing or repeated |
| `PortableProfile.MakeAttempts` | nps-nop/src/portable_profile.rs:134-182 | events, count and verdict of one node's attempt script |
| `PortableProfile.FindAncestors` | nps-nop/src/portable_profile.rs:368-376 | exactly the nodes the failed one depends on, directly or not |
| `PortableProfile.RunCompensation` | nps-nop/src/portable_profile.rs:353-418 | order, error, states and events of compensation |
| `PortableProfile.VisitNode` | nps-nop/src/portable_profile.rs:71-184 | what one turn of the loop does to trace, states, attempts and results |
| `PortableProfile.EvaluateOrchestration` | nps-nop/src/portable_profile.rs:23-217 | the report along the least topological order, or the two malformed-task failures |
| `PortableTraces.CompletesExactlyWhen` | nps-nop/src/portable_profile.rs:141-182 | a node completes exactly when its script reaches a success through retried failures within the limit |
| `PortableTraces.AttemptsWithinLimit` | nps-nop/src/portable_profile.rs:141-182 | attempts never exceed the limit plus one nor the script |
| `PortableTraces.EveryTraceIsGood` | nps-nop/src/portable_profile.rs:64-217 | a node is visited only after all dependencies completed or were skipped, and the trace ends with its one terminal event |
| `PortableTraces.CandidatesAreCompletedAncestors` | nps-nop/src/portable_profile.rs:368-385 | compensation considers exactly the completed transitive dependencies |
| `PortableTraces.CandidatesAreDependentsFirst` | nps-nop/src/portable_profile.rs:377-385 | nothing compensated later depends on anything compensated before it |
| `PortableTraces.EveryFailureIsProper` | nps-nop/src/portable_profile.rs:64-217 | a failed run stopped at a node with everything before it settled: either that node used up its attempts and its completed ancestors were compensated as the policy orders, or its condition or mapping failed and nothing was compensated |
| `PortableTraces.CompensationOrder` | nps-nop/src/portable_profile.rs:353-418 | all candidates with an action under best effort; a prefix to the first failure under strict, none if one has no action; states change for exactly those |
| `PortableVisits.AttemptsTell` | nps-nop/src/portable_profile.rs:134-182 | what the attempts come to: the entry at which the script ends, its result or error, and one attempt for each entry up to it |
| `PortableVisits.EveryVisitIsAccounted` | nps-nop/src/portable_profile.rs:64-217 | over the whole report a visited node was skipped exactly when its condition is false on the results before it, broken off when its condition or mapping cannot be read, and otherwise attempted; results are exactly those of the successes, and the error is the one of the node it stopped at |
| `PortableVisits.SkippedWhen` | nps-nop/src/portable_profile.rs:71-96 | a visited node is skipped exactly when it has a condition that is false on the results of the nodes before it, and attempted only if it has none or it is true |
| `PortableVisits.AttemptsTrace` | nps-nop/src/portable_profile.rs:134-182 | the events of a script, entry by entry |
| `PortableVisits.VisitTrace` | nps-nop/src/portable_profile.rs:64-184 | the events of a visit: skipped, broken off, or mapped and attempted |
| `PortableVisits.EndValuesAre` | nps-nop/src/portable_profile.rs:420-441 | the aggregate reads exactly the recorded results of the end nodes, in order |
| `PortableVisits.CompletedTaskAggregates` | nps-nop/src/portable_profile.rs:186-217 | the result of a completed task is null, a list or a merge of exactly those |
| `PortableProfile.AggregateResults` | nps-nop/src/portable_profile.rs:420-441 | the results of the completed end nodes in order, listed or merged |
| `PortableAggregation.AggregateValues` | nps-nop/src/portable_profile.rs:441-466 | a list of values, listed or merged key by key |
| `PortableAggregation.MergedKeys` | nps-nop/src/portable_profile.rs:447-465 | the merged object has exactly the keys of the merged results |
| `PortableAggregation.LastOneWins` | nps-nop/src/portable_profile.rs:447-465 | plain merging keeps the value of the last result that has the key |
| `PortableAggregation.ArraysAreJoined` | nps-nop/src/portable_profile.rs:447-465 | merging everything joins the arrays of a key in order, from the last value of another kind on |
| `Leases.EvaluateLease` | nps-nop/src/portable_profile.rs:574-652 | the outcomes of a list of lease events |
| `Leases.TableIsLastGrant` | nps-nop/src/portable_profile.rs:574-652 | the lease table remembers exactly the last grant of each task |
| `Leases.ClaimIsAnsweredWhen` | nps-nop/src/portable_profile.rs:586-616 | a claim is in conflict exactly with a standing last grant to another runner, and reclaims exactly what no longer stands; a grant stands for the seconds asked, kept between ten and six hundred |
| `Leases.RenewalIsGrantedWhen` | nps-nop/src/portable_profile.rs:617-638 | a renewal is granted exactly to the runner of the last grant while it stands, and is in conflict otherwise |
| `Leases.GrantsDoNotOverlap` | nps-nop/src/portable_profile.rs:574-652 | successive grants of a task to different runners never overlap: the later comes when the earlier no longer stands |
| `Leases.TerminalIsMarked` | nps-nop/src/portable_profile.rs:639-647 | a key is answered terminal exactly when it was marked before, and pending otherwise |
| `Bytes.Be32Wraps` | nps-core/src/codec.rs:66-68 | a length field keeps a number modulo its width |
| `BinaryVector.ReadInvertsWrite` | nps-core/src/codec.rs:45-160 | a framed payload is read as the metadata and vectors it was made from |
| `BinaryVector.WriteInvertsRead` | nps-core/src/codec.rs:83-160 | an accepted payload is the framing of what it is read as |
| `BinaryVectorCodec.EncodeBinaryVector` | nps-core/src/codec.rs:45-81 | the filled buffer is the framing of the metadata and the extracted vectors |
| `BinaryVectorCodec.ExtractVectors` | nps-core/src/codec.rs:162-194 | an array of numbers is taken out for a marker, anything else stays |
| `BinaryVectorCodec.ReadVectors` | nps-core/src/codec.rs:128-156 | the offset loop reads the segments and refuses truncated or trailing bytes |
| `BinaryVectorCodec.DecodeBinaryVector` | nps-core/src/codec.rs:83-160 | the decoded dictionary, or the first error |
| `BinaryVectorCodec.RestoreVector` | nps-core/src/codec.rs:196-246 | the marked vector put back number by number, or the first error |
| `FrameCodec.BinaryRoundTripsWhen` | nps-core/src/codec.rs:45-246 | where the outer codec reads back what it writes, the binary tier gives a dictionary back exactly when it has no search vector or one of exact float32 numbers |
| `FrameHeader.NewHeaderKeeps` | nps-core/src/frames.rs:95-128 | a new header keeps its tier and final flag |
| `FrameHeader.HeaderReadsBackWhen` | nps-core/src/frames.rs:138-189 | a header reads back as itself exactly when its length fits 32 bits |
| `FrameHeader.ReadHeaderRewritesWhen` | nps-core/src/frames.rs:138-189 | a header that was read is written as the same bytes exactly when an extended one has zeros in its two spare bytes |
| `FrameHeader.HeaderIsLaidOut` | nps-core/src/frames.rs:95-189 | the bytes of a header: type, flags with tier, final and extended bit, and the length in two bytes, or in four after two zero bytes |
| `FrameCodec.EncodesWhen` | nps-core/src/codec.rs:270-298 | a dictionary becomes a frame exactly when its payload keeps within the limit, and never in the reserved tier |
| `FrameCodec.CutFrameIsRefused` | nps-core/src/codec.rs:300-324 | a frame cut off anywhere is refused, with the error that says where |
| `FrameCodec.FrameRoundTrips` | nps-core/src/codec.rs:270-324 | an encoded frame of a registered type decodes to its type and dictionary, whatever follows it, for payloads below 2^32 bytes; one of another type is refused |
| `NwpStream.DictReadsBack` | nps-ncp/src/lib.rs:147-169 | a stream frame survives its dictionary |
| `NwpStream.SplitLoop` | nps-nwp/src/client.rs:79-99 | the splitting loop gives the frames of the body up to the first last one |
| `NwpStream.Stream` | nps-nwp/src/client.rs:79-99 | the loop over the frame codec; a slice past the end is an error of its own |
| `NwpStream.CutPayloadGoesPastTheEnd` | nps-nwp/src/client.rs:79-99 | a body that ends inside a frame's payload makes the slice of the body go past its end |
| `NwpStream.UpToLastIsPrefix` | nps-nwp/src/client.rs:79-99 | the frames returned are a prefix in which only the end can be last |
| `NwpStream.StreamRecovers` | nps-nwp/src/client.rs:79-99 | a concatenation of encoded stream frames is recovered exactly up to the first last one |
| `Merkle.VerifyInclusion` | nps-nip/src/reputation.rs:308-356 | the loop accepts exactly when the texts decode and the folded hash is the root |
| `Merkle.HonestPathFolds` | nps-nip/src/reputation.rs:333-348 | the audit path of every leaf of a perfect tree folds to its root (sections 2.1.1 and 2.1.3.2 of RFC 9162) |
| `Merkle.HonestProofAccepted` | nps-nip/src/reputation.rs:308-356 | a genuine proof is accepted: the entry at its index, its hash, and the sibling hashes on its way to the root |
| `Merkle.LeafAtIs` | nps-nip/src/reputation.rs:340 | the leaf the index bits lead to is the one at the index modulo the size |
| `Merkle.ForgeryFindsCollision` | nps-nip/src/reputation.rs:333-348 | any leaf and path of any length that folds to the root, other than the leaf at the index with its own path, yields two inputs with one hash |
| `Merkle.AcceptedIsGenuineOrCollides` | nps-nip/src/reputation.rs:308-356 | an accepted proof is genuine in its entry, its leaf hash and every sibling, or hands over a collision |
| `Cancellation.StepKeepsInv` | nps-nwp/src/action_server.rs:215-244 | every atomic step keeps lock exclusion, one winner, no push after taking, and each listener in line once |
| `Cancellation.NeverTwiceNeverEarly` | nps-nwp/src/action_server.rs:215-244 | at every moment no listener has run twice, and none without a cancel |
| `Cancellation.EveryListenerRunsOnce` | nps-nwp/src/action_server.rs:215-244 | when all calls have returned, each listener ran exactly once if there was a cancel, and none did otherwise |
| `Cancellation.SomeThreadCanMove` | nps-nwp/src/action_server.rs:215-244 | no interleaving deadlocks |
| `ActionStream.StreamWriter.Emit` | nps-nwp/src/action_server.rs:1393-1422 | one emit: refused, or appended under the stream id |
| `ActionStream.StreamWriter.Finish` | nps-nwp/src/action_server.rs:1425-1457 | the terminal error frame and the stream kept for replay |
| `ActionStream.WriteStreamTo` | nps-nwp/src/action_server.rs:1381-1479 | the body is the lines of the frames that went out |
| `ActionStream.EveryStreamIsWellFormed` | nps-nwp/src/action_server.rs:1381-1479 | for any producer frames are numbered from zero under one id with only the last terminal; a terminal one unless cancelled; kept exactly when it ended without error |
| `ActionStream.ReplayReproduces` | nps-nwp/src/action_server.rs:1481-1494 | replaying a kept stream gives the same stream under a new id, again complete |
| `AnchorFence.AnchorOwnership.OnInboundFrame` | nps-nwp/src/anchor_fence.rs:165-214 | the epoch fence, then the leader check |
| `AnchorFence.AnchorOwnership.OnTakeOwnership` | nps-nwp/src/anchor_fence.rs:243-267 | a takeover, or refusal of an epoch not above all observed |
| `AnchorFence.ActiveOwnsTheHighestEpoch` | nps-nwp/src/anchor_fence.rs:97-267 | in every run the anchor remembers the highest epoch shown to it; while active it owns it and its streams are open |
| `AnchorFence.FencedAcceptsNoWrite` | nps-nwp/src/anchor_fence.rs:165-214 | until a takeover succeeds a standby refuses every write and keeps closed streams closed |
| `AnchorFence.TakeoverNeedsAHigherEpoch` | nps-nwp/src/anchor_fence.rs:243-267 | a takeover succeeds exactly above everything ever shown, and is fenced otherwise |
| `AnchorFence.HistoryDecides` | nps-nwp/src/anchor_fence.rs:97-267 | an anchor is active exactly while no frame fenced it since its start or last takeover, degraded exactly while a lost quorum was neither restored nor followed by a takeover, and owns the epoch of its last takeover |
| `AnchorFence.InboundIsAnsweredWhen` | nps-nwp/src/anchor_fence.rs:165-214 | a frame is fenced exactly above the owned epoch, and otherwise refused exactly when it writes to an anchor that does not lead or lacks its quorum |
| `AnchorFence.EventsAreTheLog` | nps-nwp/src/anchor_fence.rs:139-267 | what the host took and what is pending are, in order, one event for each fence, lost quorum and takeover |
| `AnchorFence.NoTwoOwnersOfAnEpoch` | nps-nwp/src/anchor_fence.rs:97-267 | with every epoch granted to one anchor, no two active anchors of a cluster share an epoch |
| `ClusterDelegation.ClusterDelegationResolver.ResolveActive` | nps-nop/src/cluster_delegation.rs:81-95 | a hit asks nobody, a positive answer is cached, a negative one is not |
| `ClusterDelegation.ClusterDelegationResolver.OnAnchorFailover` | nps-nop/src/cluster_delegation.rs:103-125 | a failover is taken unless it is stale; an equal epoch is stale |
| `ClusterDelegation.ClusterDelegationResolver.Invalidate` | nps-nop/src/cluster_delegation.rs:133-135 | drops the entry of this cluster only |
| `ClusterDelegation.NewestIsTheMaximum` | nps-nop/src/cluster_delegation.rs:103-125 | the newest of an entry and the failovers has the highest epoch of them |
| `ClusterDelegation.CachedEntryIsNewest` | nps-nop/src/cluster_delegation.rs:81-125 | an entry cached with no lookup under way and never invalidated is the newest under any interleaving |
| `ClusterDelegation.EntryStaysNewestWhen` | nps-nop/src/cluster_delegation.rs:81-125 | a cached entry stays the newest of itself and all failovers under every interleaving without invalidation exactly when no lookup for it is under way |
| `ClusterDelegation.OnlyLateLookupsLower` | nps-nop/src/cluster_delegation.rs:81-125 | over any run a cached epoch is lower than before only if some late lookup came back with an older answer |
| `ClusterDelegation.LateLookupUndoesFailover` | nps-nop/src/cluster_delegation.rs:81-125 | a lookup begun before a failover undoes it |
| `Der.ReadLen` | nps-nip/src/phase3.rs:318-332 | the length and how many bytes it takes, or nothing |
| `Der.LengthReadsBackWhen` | nps-nip/src/phase3.rs:432-440 | a written length is read back exactly when it is below 65536 |
| `Der.LongFormIsReadWhen` | nps-nip/src/phase3.rs:318-332 | of the long forms those of one to four bytes are read as the number they write, and no longer, indefinite or cut one is |
| `Der.Cursor.Read` | nps-nip/src/phase3.rs:301-315 | a value within the bytes and strict progress, or no movement (section 8.1.3 of ITU-T X.690) |
| `Der.TlvReadsBackWhen` | nps-nip/src/phase3.rs:301-332 | a written value is read back where it stands exactly when its content is below 65536 bytes |
| `Der.BuildUtf8Sequence` | nps-nip/src/phase3.rs:419-430 | the sequence of tagged strings |
| `Der.ParseUtf8Sequence` | nps-nip/src/phase3.rs:156-172 | the strings, or nothing on any malformed value |
| `Der.SequenceRoundTripsWhen` | nps-nip/src/phase3.rs:156-172 | parsing inverts building exactly when the encoded strings stay below 65536 bytes together |
| `DerExtensions.FindExtensionValue` | nps-nip/src/phase3.rs:335-383 | the walks over a certificate end and give the value the specification names |
| `DerExtensions.SearchFindsFirst` | nps-nip/src/phase3.rs:335-383 | in every well-formed certificate whose lengths take at most five bytes, the first extension with the identifier is found, or none |

## Left out

- Clocks, random ids, id factories and binding fingerprints of the context store are inputs of each call; the monotonic clock is not assumed. Lock poisoning, the overflow of 64-bit versions and of timestamps, receipt text formats and error messages are not modelled.
- The external codecs (JSON, MsgPack, base64url), SHA-256, UTF-8 and RFC 3339 parsing are parameters; where a proof needs them to invert each other it says so. No hash is assumed injective: Merkle soundness hands over a collision.
- Retries with backoff, timeouts, preflight, callbacks, and task records in `run_dag`: an in-flight node finishes at any time with any outcome. `DagRun.EveryRun` therefore covers every order and every outcome.
- Path resolution in conditions and input mappings, and Unicode's letter classes, are parameters; JSON text becomes typed data before `evaluate_orchestration` sees it, so a field of the wrong type is read as absent beforehand.
- Numbers in conditions are reals and number texts have a single decimal point: 64-bit floating-point rounding, exponents and infinities are not modelled. JSON numbers are their printed text, so two floats are equal when they print alike (zero and minus zero differ).
- `evaluate_delegation`, `evaluate_lifecycle`, `evaluate_spawn_spec`, `evaluate_hmac` and `evaluate_callback` of the portable profile: single passes or short tables. The overflow of lease deadlines.
- `discover_bridges`, `live_nids` and the signature check of announces: a filter, a sort and a call into cryptography. Arrival times and timestamps are unbounded integers.
- The action task store and idempotency cache: single-record updates. Serialization failures of stream frames, which the writer reports as refusals, are not modelled.
- Panics of listeners and lock poisoning in the cancellation token; memory is sequentially consistent, which the acquire and release orderings on one flag and one lock provide.
- Merkle trees whose size is not a power of two: folding by index bits alone does not describe them. A shift by 64 or more wraps, as in an unchecked build; a checked build panics.
- Merkle.HonestPathFolds: stated up to depth 64, because the index has 64 bits and a longer shift wraps.
- FrameCodec.FrameRoundTrips: stated for payloads below 2^32 bytes, because the header's length field is cut to 32 bits beyond that.
- DagRun.StoppedRunCoversWhen: stated for a limit of at least one node at a time; with a limit of zero nothing is ever launched.
- Aggregator.MergeOrderIsIrrelevantWhen: stated for results that are objects; another result is merged under a key made of its position, which its order changes.
- Encoding an object identifier, OCSP and GeneralizedTime parsing, and the checks built on extension values.
- Sorting each node's successors in `stable_topology`, which does not affect its result; the order in which hash maps are iterated.
- HTTP, handshakes, storage, cryptographic verification, telemetry, manifests, error tables, federation, path matching and callback filtering.
