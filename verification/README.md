# SAM/IA core: models and proofs

SAM/IA is a file-backed memory store. A memory is a directory of node files with a header and a
body; beside it live a weighted co-activation web, chain manifests, a vector index, a
content-addressed segment pool, and archives of frozen and superseded nodes. This project models
the `samia/core` plane that maintains them and proves what it keeps.

| part | modules |
|---|---|
| texts and lists | `Strings`, `KeyTexts`, `FileTexts`, `Filters`, `Decimals` |
| need vector: kernels, seeds, sparse walk | `RealMaps`, `Kernel`, `KernelKeys`, `KernelBuild`, `NeedSeries`, `NeedMass`, `NeedWalk`, `NeedLaws` |
| lock-and-replace protocol | `AtomicCounter`, `EpisodeCounter`, `DecayTick` |
| chains | `ChainData`, `ChainStore`, `Traversal`, `ChainLaws`, `IntervalLaws` |
| co-activation web | `WebData`, `WebStore`, `WebLaws` |
| vector indexes | `IndexData`, `VectorIndex`, `IndexLaws`, `VectorContextual`, `ContextLaws` |
| segments and pool | `Segments`, `SegmentSums`, `PoolData`, `Pool`, `PoolLaws` |
| frontmatter | `Scalars`, `ScalarLaws`, `WholeFloats`, `HeaderLines`, `FrontmatterText`, `Frontmatter`, `HeaderLaws`, `FrontmatterFixpoint` |
| relevance decay | `TierDecay`, `DecayPass`, `DecayLaws` |
| retrieval | `Recall`, `RecallLaws` |
| node lifecycle | `GraphStores`, `NodeFields`, `MergedNode`, `MergedValues`, `LifecycleData`, `Lifecycle`, `LookupLaws`, `LifecycleLaws`, `Forgetting`, `LifecycleFindings`, `MergeLaws` |
| thawing and freezing again | `Remnants`, `ThawedHeader`, `Refreeze` |

Stores that the code updates in place are classes whose methods state the whole new state through
a function of the old one; the properties are lemmas about those functions, and about runs of
them. The modules named for laws, with `KernelKeys`, `MergedValues` and `Forgetting`, characterise
the functions once more on the stored texts and fields, without using them: which keys, lines,
hits, edges or rows the result comes from, and in which order. `dafny verify dfyconfig.toml` checks the whole project.

## Where the code differs from its documentation

The models follow the code; the lemmas named say when each of these happens.

- A walk depth of 1 does one hop; it does not leave the seed distribution alone
  (`NeedWalk.ProxyExactlyWhen`).
- Salience is said never to stop decay; an enriched, fully salient node comes to rest above the
  frozen threshold, because the change falls below what is written
  (`TierDecay.FreezesExactlyWhen`).
- The stored tier is that of the unrounded relevance (`TierDecay.LabelLagsExactlyWhen`).
- A node name that itself ends in `.md`, or a merge of a node with itself, removes a file without
  forgetting it (`LifecycleFindings.FreezeSafeExactlyWhen`, `LifecycleFindings.MergeSafeExactlyWhen`).
- A chain entry written without a suffix resolves to its file but is not stripped with it
  (`ChainData.SurvivesExactlyWhen`), so that freezing, merging or superseding the node leaves a
  dangling entry (`LifecycleFindings.BareEntryHaunts`, `LifecycleFindings.PlainFreezeSafeExactlyWhen`);
  in general see `LifecycleLaws.FreezeKeepsExactlyWhen`.
- The live-node guard of a consolidation pass does not cover masses
  (`LifecycleFindings.GuardedSyncAddsDeadMassExactlyWhen`).
- The counter is dense only without crashes between replace and return
  (`EpisodeCounter.GaplessRunExactlyWhen`), and one session whose lock file does not open is enough
  for overlapping decay passes (`DecayTick.LockedExactlyWhen`).
- Archive records are named by the address of a node: a second freeze under one address overwrites
  the first record (`LifecycleLaws.RecordKeptExactlyWhen`, `DecayPass.FiledExactlyWhen`).
- A thawed node stays out of vector recall until the next build
  (`LifecycleFindings.ThawLeavesTombstone`).
- Closing an edge "on null" leaves it open (`ChainData.ClosedExactlyWhen`).
- Parse and serialize do not settle for an empty header or a later key that starts with `---`
  (`FrontmatterFixpoint.StableExactlyWhen`); with such a key the rest of the header runs into the
  body, so that a thawed node does not freeze to what it was (`Refreeze.RefreezeSameExactlyWhen`)
  and a merged one does not start with its title (`MergeLaws.MergeKeepsSegmentsExactlyWhen`).
- A large float comes back as a string (`Scalars.SurvivesExactlyWhen`,
  `WholeFloats.LargeFloatLosesItsType`).

## Model

| member | source | states |
|---|---|---|
| `KernelBuild.BuildOutEdges` | samia/core/successor.py:131-171 | the nested loops give the row-normalised undirected tally; two nodes see each other exactly when a key that joins them has a positive weight |
| `KernelBuild.BuildDirectedOutEdges` | samia/core/successor.py:213-250 | the same for the directed counts: b is in the row of a exactly when a key with a positive count is an arrow from a to b, in reverse from b to a |
| `KernelBuild.BuildForwardKernel` | samia/core/successor.py:253-281 | per source the directed row is taken where there is one, otherwise the symmetric row |
| `KernelBuild.ForwardIsKernel` | samia/core/successor.py:161-168 | every row of the forward kernel is non-empty, positive and sums to 1 |
| `KernelBuild.UndirectedIsSymmetric` | samia/core/successor.py:143-160 | the undirected tally is symmetric with a zero diagonal |
| `KernelBuild.ForwardHasNoLoops` | samia/core/successor.py:148-281 | no row of the forward kernel leads back to its own node |
| `KernelBuild.SymmetricKernelIsReversible` | samia/core/successor.py:161-171 | detailed balance: step probability times out-mass is the same in both directions |
| `KernelBuild.ReverseIsTranspose` | samia/core/successor.py:213-243 | the reverse tally is the transpose of the forward one |
| `KernelKeys.DirectedKeyExactly` | samia/core/successor.py:195-210 | a key parses to (a, b) exactly when it reads x->y with no other arrow, x and y spelling the different names a and b up to surrounding white space |
| `KernelKeys.ArrowMass` | samia/core/successor.py:231-243 | the forward out-mass from a to b is the sum of the positive counts of the keys that are arrows from a to b, the reverse one that of the arrows from b to a |
| `KernelKeys.PairMass` | samia/core/successor.py:142-160 | the symmetric out-mass between two nodes is the sum of the positive weights of the keys a::b and b::a |
| `KernelKeys.DirectedSteps` | samia/core/successor.py:213-250 | the forward kernel steps from a to b exactly when a counted arrow leads from a to b, the reverse kernel exactly when one leads from b to a |
| `KernelBuild.ForwardStepsExactly` | samia/core/successor.py:253-281 | the walk steps along the counted arrows out of a node, and from a node that no arrow leaves along the weighted pairs |
| `KernelBuild.ForwardProportions` | samia/core/successor.py:161-281 | two steps out of a node have probabilities in the proportion of their counts, or of their weights |
| `KeyTexts.SplitExactly` | samia/core/successor.py:142-207 | splitting at a separator gives the one list of parts that joins to the text and is cut at the first separator each time |
| `KeyTexts.StripSpells` | samia/core/successor.py:207-208 | a stripped name is what the text spells between its surrounding white space |
| `NeedWalk.BestIsMax` | samia/core/successor.py:296-308 | a seed node keeps the maximum of its clipped cosines over all spellings of its name |
| `NeedWalk.SeedDistribution` | samia/core/successor.py:284-317 | the loop computes the seed distribution |
| `NeedWalk.SeedIsDistribution` | samia/core/successor.py:310-317 | p0 is non-negative and sums to 1; a seed is positive exactly when its best cosine is, or no cosine is |
| `NeedLaws.KeysExactly` | samia/core/successor.py:86-308 | seeded are exactly the files of the named elements, the name itself where it ends in ".md" |
| `NeedLaws.SeedProportions` | samia/core/successor.py:310-317 | the weights of two seeds are in the proportion of their best cosines |
| `NeedLaws.SeedsAlike` | samia/core/successor.py:313-316 | where no cosine is positive all seeds weigh the same |
| `NeedWalk.Propagate` | samia/core/successor.py:363-376 | one sparse hop, with its skipped masses and missing rows, is g times the vector-matrix product at every node |
| `NeedWalk.NeedVector` | samia/core/successor.py:320-379 | the walk with its early break returns, at every node, the dense series sum over t = 0..L of g^t (p0 T^t)[n] |
| `NeedWalk.NeedVectorMeaning` | samia/core/successor.py:344-379 | need is at least p0, positive exactly where a walk of at most L hops leads from a positive seed, and totals at most 1 + g + ... + g^L <= 3.3616, with equality without dead ends |
| `NeedWalk.ProxyExactlyWhen` | samia/core/successor.py:363-379 | need equals p0 exactly when g = 0 or no positive seed has a row; the documented depth-1 collapse is not what the loop does |
| `NeedSeries.DenseSupport` | samia/core/successor.py:363-376 | (p T^t)[n] is positive exactly when some t-step walk along the kernel ends at n |
| `NeedSeries.SeriesMonotone` | samia/core/successor.py:363-379 | need is pointwise monotone in the depth |
| `NeedLaws.NeedEquation` | samia/core/successor.py:344-379 | the need of one more hop is the seed weight plus g times the need of the predecessors, weighed by their transition probabilities |
| `NeedLaws.ParametersExactly` | samia/core/successor.py:338-341 | discount and depth are taken as the nearest values in [0, 0.8] and {1, 2, 3, 4} |
| `NeedMass.FrontierMass` | samia/core/successor.py:363-376 | the t-th frontier has mass at most g^t, exactly g^t when no mass met a node without a row |
| `NeedMass.TotalNeed` | samia/core/successor.py:363-379 | total need is at most the geometric sum, with equality when there is no dead end before the last hop |
| `NeedMass.GeometricBound` | samia/core/successor.py:80-83 | within the clamps the geometric sum is at most 3.3616, attained at g = 0.8, L = 4 |
| `AtomicCounter.OutputsDistinct` | samia/core/temporal_substrate.py:70-97 | the abstract counter never returns a value twice |
| `AtomicCounter.DenseOutputs` | samia/core/temporal_substrate.py:70-97 | between quiet states without abandoned calls, n calls return exactly the next n values |
| `AtomicCounter.GaplessExactlyWhen` | samia/core/temporal_substrate.py:70-97 | between quiet states the counter passes no value unreturned exactly when no call is abandoned after it took effect |
| `EpisodeCounter.StepRefines` | samia/core/atomic_state.py:30-75 | each protocol step (open, lock, read, write temp, replace, unlock, return, crash) is a step of the atomic counter |
| `EpisodeCounter.RunRefines` | samia/core/atomic_state.py:43-95 | every interleaving with crashes is a run of the atomic counter: same committed value, same returned values in the same order |
| `EpisodeCounter.MutualExclusion` | samia/core/atomic_state.py:56-95 | at most one process is between taking and releasing the lock |
| `EpisodeCounter.ReadersSeeCompleteFiles` | samia/core/atomic_state.py:30-40 | a reader without the lock finds a complete file or none, and the committed value never falls |
| `EpisodeCounter.ReturnedDistinct` | samia/core/temporal_substrate.py:87-97 | no two calls return the same number, whatever crashed |
| `EpisodeCounter.RealTimeOrder` | samia/core/temporal_substrate.py:87-97 | a call that starts after another returned gets a larger number |
| `EpisodeCounter.DenseWithoutCrashes` | samia/core/temporal_substrate.py:87-97 | without crashes the returned numbers are exactly the next n, 1..n from an empty store |
| `EpisodeCounter.SoloCall` | samia/core/temporal_substrate.py:87-97 | an undisturbed call runs the eight steps and returns the committed value plus one |
| `EpisodeCounter.CrashLeavesGap` | samia/core/atomic_state.py:64-75 | a crash after the replace and before the return loses its number for good |
| `EpisodeCounter.GaplessRunExactlyWhen` | samia/core/temporal_substrate.py:87-97 | between rest states every number in (c, c2] is returned exactly when no process crashed between its replace and its return |
| `DecayTick.OnePassAtATime` | samia/core/tier.py:405-440 | in every run in which the lock files open, at most one session is inside the decay pass |
| `DecayTick.TicksAreSpaced` | samia/core/tier.py:405-477 | a non-forced recorded tick is at least six hours after the positive tick recorded before it |
| `DecayTick.LockedExactlyWhen` | samia/core/tier.py:405-425 | for any set of sessions whose lock file may fail to open: every run has one pass at a time, and spaced ticks, exactly when the set is empty |
| `DecayTick.EntersExactlyWhen` | samia/core/tier.py:416-440 | a session that holds its turn enters the pass exactly when forced, or without a positive recorded tick, or six hours after it; and never on an unusable state file |
| `DecayTick.UndisturbedCall` | samia/core/tier.py:405-480 | an undisturbed call runs the pass and records its time exactly when it may, leaves the record alone otherwise, and gives the lock back |
| `TierDecay.RateBounds` | samia/core/tier.py:146-154 | the capped damping leaves at least a twentieth of the grade rate, and at least 0.0005 for every grade but enriched |
| `TierDecay.RateOrder` | samia/core/tier.py:40-46 | more salience or capture never decays faster, and the five grades decay in their order |
| `TierDecay.TickOnGrid` | samia/core/tier.py:252-286 | a stale tick never raises the stored relevance, takes at least one grid unit while rate times relevance exceeds 0.0001, and otherwise only settles the label |
| `TierDecay.RewritesAreFinite` | samia/core/tier.py:254-282 | whatever the rates, a stale node is rewritten finitely often: at most twice per grid unit, plus one |
| `TierDecay.EveryOrdinaryGradeFreezes` | samia/core/tier.py:40-46 | every grade but enriched reaches the label "frozen" within its units above 2499 ticks, for any salience and captures |
| `TierDecay.FreezesExactlyWhen` | samia/core/tier.py:102-162 | a node stored above the cold threshold ever becomes frozen exactly when its effective rate exceeds 1/2501 |
| `TierDecay.EnrichedCanRest` | samia/core/tier.py:67-70 | the promise that salience never stops decay fails: an enriched node of full salience rests in "cold" for ever |
| `TierDecay.LabelLagsExactlyWhen` | samia/core/tier.py:254-283 | the label from the unrounded value differs from that of the stored value exactly when rounding lifts it onto a threshold |
| `TierDecay.FreshTowardNeutral` | samia/core/tier.py:155-162 | a fresh node is pulled toward 0.5 and never past it |
| `DecayPass.NodeDirectory.DecayPass` | samia/core/tier.py:177-325 | one pass ages every eligible file, re-creates none removed meanwhile, reports each change once in listing order, and files exactly the nodes newly frozen and below the exemption salience, in listing order, under their address or else their name |
| `DecayLaws.TouchedIsKept` | samia/core/tier.py:146-282 | a node accessed on the day of the pass keeps its relevance whatever its grade, salience and captures; it is rewritten exactly when its label disagrees, and then only rounded |
| `DecayLaws.OthersMove` | samia/core/tier.py:148-162 | any other node moves toward 0.5 within seven days and toward 0 later, by its grade part of the distance, damped by nine tenths of the salience plus half of the capture, at most by 0.95 |
| `DecayLaws.AgedExactly` | samia/core/tier.py:252-286 | a file is rewritten exactly when its label is not that of the next relevance or this moves by more than 0.0001; then it carries that label, the rounded relevance and its grade, and is otherwise unchanged |
| `DecayLaws.ProtectedIsKept` | samia/core/tier.py:212-224 | a file without header, or of target state frozen or archived, is neither rewritten nor reported nor frozen |
| `DecayLaws.EvictedExactly` | samia/core/tier.py:287-305 | handed to the freezer are exactly the nodes that fall below 0.25, were not labelled frozen, and have salience below 0.85 |
| `DecayLaws.TransitionsInOrder` | samia/core/tier.py:254-270 | the pass reports exactly the files it finds moved, in listing order, with both fields before and after |
| `DecayLaws.QueueInOrder` | samia/core/tier.py:287-325 | the freezer gets exactly the evicted files still there, in listing order |
| `DecayPass.FiledExactlyWhen` | samia/core/ia.py:246-264 | each node evicted in a pass keeps an archive record of its own exactly when no two of them have the same id |
| `DecayPass.FiledElsewhere` | samia/core/ia.py:246-263 | an older archive record changes only if its id is used again |
| `DecayLaws.FiledExactly` | samia/core/ia.py:246-264 | an archive id holds the last queued node whose address, or else whose name, it is |
| `DecayPass.OrdinaryNodeIsEvicted` | samia/core/tier.py:252-325 | an untouched ordinary node is handed to the freezer by one of the first n - 2499 passes |
| `Recall.AtomRetrieve` | samia/core/semantic_recall.py:236-321 | the three filling loops with their early breaks give the leading vector atoms, then unseen bridge atoms, then unseen vector atoms |
| `Recall.RetrievedIsFaithful` | samia/core/semantic_recall.py:268-321 | at most k atoms, no node twice, the leading readable hits first in order, and short of k only when every readable hit and admitted bridge node is in |
| `RecallLaws.RetrievedExactly` | samia/core/semantic_recall.py:268-321 | the answer is the first k - reserve readable hits, then candidates at the first places of new nodes while there is room, then hits at the first places of nodes still new |
| `RecallLaws.BridgesComeFirst` | samia/core/semantic_recall.py:284-321 | behind the leading hits an atom of no candidate stands only after every readable candidate is in: the reserved slots go to bridges first |
| `RecallLaws.ReserveExactly` | samia/core/semantic_recall.py:268-269 | the reserve is the whole part of its share of the slots |
| `RecallLaws.NoSlots` | samia/core/semantic_recall.py:268-321 | without slots nothing is returned |
| `Recall.ReserveLeavesRoom` | samia/core/semantic_recall.py:103-122 | for every fraction in [0, 0.9] the reserve leaves the vector phase at least one slot |
| `ChainStore.Store.StripMember` | samia/core/chain.py:134-172 | every manifest loses the entries of the node and the edges at their addresses; untouched manifests are not saved, and the three counts are those of the manifests, entries and edges |
| `ChainData.StrippedExact` | samia/core/chain.py:150-168 | exactly the entries of the node and the edges at a removed address go |
| `ChainData.StripKeepsOrder` | samia/core/chain.py:150-168 | the entries and edges that stay keep their order and repetitions |
| `FileTexts.BaseNameExactly` | samia/core/chain.py:152-153 | the base name of a path is a given name exactly when the path is that name, alone or behind a directory |
| `ChainData.StripKeepsIntact` | samia/core/chain.py:134-172 | stripping keeps every edge between member addresses |
| `ChainStore.StripAllIdempotent` | samia/core/chain.py:134-172 | a second strip changes nothing |
| `ChainStore.Store.AddEdge` | samia/core/chain.py:206-235 | an edge is added exactly when the chain exists and both ends are members |
| `ChainStore.Store.SetEdge` | samia/core/chain.py:264-291 | the latest matching edge is amended, otherwise a new one is added under the same guard |
| `ChainLaws.SetExactly` | samia/core/chain.py:264-291 | the last edge between the ends with the label is changed in its place, what is given replacing the old and "null" in any case clearing the end; without one a new edge is appended if both ends are addresses of members, and else nothing changes |
| `ChainStore.Store.InvalidateEdge` | samia/core/chain.py:238-261 | all open matching edges are closed, and their number returned |
| `ChainLaws.CountExactly` | samia/core/chain.py:238-261 | the returned number is that of the edges closed |
| `IntervalLaws.ClosedExactly` | samia/core/chain.py:238-261 | exactly the open edges between the ends with the label get the closing day; nothing else of them and no other edge changes |
| `ChainData.ClosedExactlyWhen` | samia/core/chain.py:238-261 | no open match is left, except when the closing date is itself the word "null" and something was open |
| `ChainStore.Store.MigrateLinearEdges` | samia/core/chain.py:317-347 | chains without edges get one dated "follows" edge between neighbours |
| `ChainLaws.MigratedExactly` | samia/core/chain.py:317-347 | a chain without edges gets one open "follows" edge between each two neighbouring addresses, from the later of their days; other chains stay |
| `ChainData.MigrationKeepsIntact` | samia/core/chain.py:317-347 | the backfill keeps edges between members, and a second one changes nothing |
| `ChainStore.RunKeepsIntact` | samia/core/chain.py:134-347 | in every run of chain operations each edge joins two member addresses |
| `ChainData.SurvivesExactlyWhen` | samia/core/chain.py:108-172 | a member that resolves to the node file survives the strip exactly when its entry omits the suffix |
| `Traversal.TraverseAt` | samia/core/chain.py:410-442 | the queue walk, marking on pop, returns exactly the addresses within depth valid edges of the start, each once, with its shortest hop count, in non-decreasing order, and with the file and the title it resolves to |
| `Traversal.ValidEdgesExact` | samia/core/chain.py:295-303 | the filter keeps exactly the edges whose interval contains the date |
| `IntervalLaws.IntervalExactly` | samia/core/chain.py:295-303 | an edge is in force at a day exactly when this is not before a readable first day and not after a readable last day other than "null"; missing and unreadable bounds do not count |
| `IntervalLaws.FromFirstToLast` | samia/core/chain.py:295-303 | with both days readable an edge is in force exactly from the first to the last |
| `IntervalLaws.ValidInOrder` | samia/core/chain.py:410-416 | the filter keeps the edges in force, in their order |
| `Filters.FilteredIsUnique` | samia/core/chain.py:410-416 | a list that keeps exactly the elements with a property, in order, is the only such list |
| `IntervalLaws.ClosingEnds` | samia/core/chain.py:238-303 | closing on a readable day ends an edge after that day and changes nothing for that day and earlier ones |
| `IntervalLaws.WalksAfterClosing` | samia/core/chain.py:238-442 | after edges were closed on a readable day, the walks of later days are those of the chain without them, and the walks of that day and earlier ones are as before |
| `ChainLaws.ReportExactly` | samia/core/chain.py:108-436 | an address is reported with the file of its first member, ".md" supplied where it has no extension, and with the name in that file or else the address |
| `WebStore.Store.UpsertEdge` | samia/core/web_store.py:109-134 | a pair is written once, in canonical order, and only above the forming weight and between different nodes |
| `WebLaws.UpsertedExactly` | samia/core/web_store.py:109-134 | from weight 0.2 on, and between different nodes, the row of the pair takes the new weight and day, counts one more sighting and keeps its first; no other row changes |
| `WebStore.Store.DecayPrune` | samia/core/web_store.py:150-188 | weights fade, weak rows go, the degree cap is enforced, and edges before = edges after + pruned + capped |
| `WebLaws.DecayedExactly` | samia/core/web_store.py:164-175 | a co-activation weight loses 0.005 of itself per day since it was last seen, and its row stays exactly while at least 0.05 is left; other kinds of rows do not change |
| `WebLaws.AgeExactly` | samia/core/web_store.py:282-287 | the age is the number of full days since the timestamp, none for one that is unreadable or in the future |
| `WebLaws.CappedExactly` | samia/core/web_store.py:257-279 | the cap drops exactly the co-activation edges with 32 or more at one end that are heavier, or as heavy and later by name |
| `WebLaws.MassesExactly` | samia/core/web_store.py:180-185 | a mass loses 0.01 of itself per day since the last access; no mass row goes |
| `WebStore.EnforceDegreeCap` | samia/core/web_store.py:257-279 | the dictionary of sorted edge lists drops exactly the edges not among the 32 strongest at both ends |
| `WebData.CappedDegree` | samia/core/web_store.py:257-279 | after the cap no node has more than 32 co-activation edges |
| `WebStore.DecayPruneMeaning` | samia/core/web_store.py:150-188 | after a pass degrees are capped, weights are at least the floor and none grew, and exactly the edges strongest at both ends remain |
| `WebStore.Store.ForgetNode` | samia/core/web_store.py:191-216 | every row at the node, of every kind, and its mass row go; nothing else does |
| `WebStore.Store.SyncFromConsolidation` | samia/core/web_store.py:290-349 | one pass upserts the admitted pairs, bumps masses, decays, prunes and caps, and reports the dead keys |
| `WebLaws.ConsolidatedExactly` | samia/core/web_store.py:324-339 | after a pass a row has the weight of the last item that writes it, with one more sighting for each; rows that no admitted item writes are as before |
| `WebLaws.FormedExactly` | samia/core/web_store.py:324-339 | the statistics count the items that write a row |
| `WebLaws.DeadExactly` | samia/core/web_store.py:324-337 | the dead keys are those of the items with a pair the guard rejects, in order |
| `WebLaws.BumpedExactly` | samia/core/web_store.py:137-342 | each node gains the sum of the amounts it appears with and is accessed now; no other mass changes |
| `WebData.SyncCreatesNoGhost` | samia/core/web_store.py:318-339 | with the live-node guard a pass creates no edge at an absent node |
| `WebStore.Store.CoactivationNeighbours` | samia/core/web_store.py:219-254 | neighbours by non-increasing weight, each once, at most the limit |
| `WebStore.NeighboursComplete` | samia/core/web_store.py:219-279 | with degrees capped the default limit loses no neighbour, and being listed is symmetric |
| `IndexData.IncrementalIsRebuild` | samia/core/vector.py:299-398 | over a coherent index a build that reuses cached rows gives the entries and matrix of a full rebuild |
| `IndexData.EveryBuildIsARebuild` | samia/core/vector.py:299-398 | after any run of edits, removals, tombstonings and builds, a non-empty build leaves exactly what a rebuild of the present files leaves |
| `IndexData.UnchangedIsReused` | samia/core/vector.py:350-358 | a file the last build saw with the same text is not embedded again |
| `IndexLaws.RebuiltExactly` | samia/core/vector.py:299-398 | a rebuilt index has one live entry per loaded file with its digest, title and place, and there the embedding of its text |
| `IndexLaws.BuiltExactly` | samia/core/vector.py:340-398 | a build keeps the stored row of a file whose digest is that of its entry and embeds every other file; a rebuild embeds all, whatever is stored |
| `IndexLaws.SomeBackend` | samia/core/vector.py:93-94 | what the rebuild theorems ask of digests can be met, for every embedder |
| `IndexLaws.LoadedInOrder` | samia/core/vector.py:330-345 | loaded are the listed files that can be read, in listing order |
| `IndexLaws.FlaggedExactly` | samia/core/vector.py:135-169 | only the flag of the entry of the file changes; no row and no other entry does |
| `IndexLaws.DotExactly` | samia/core/vector.py:439-456 | the score of a row is the sum of the products of its coordinates with those of the query |
| `VectorIndex.Index.Build` | samia/core/vector.py:299-398 | the loops over files, cache, batches and missing rows write the rebuilt index, or nothing when no file is listed or readable |
| `VectorIndex.Index.TombstoneNode` | samia/core/vector.py:135-148 | exactly the flag of the node entry is set |
| `VectorIndex.Index.UntombstoneNode` | samia/core/vector.py:151-169 | exactly the flag of the node entry is cleared |
| `VectorIndex.Index.Query` | samia/core/vector.py:439-464 | at most k live entries, each once with its own score, best first, none left out that is better or while there is room |
| `VectorIndex.FreshIndexLosesNothing` | samia/core/vector.py:299-464 | right after a build every hit is scored by its present text, and with room for all every file is listed |
| `VectorContextual.BuildNodeToChainMap` | samia/core/vector_contextual.py:72-97 | a file maps to the last readable chain that mentions it, with at most six siblings |
| `VectorContextual.NeighboursAreOthers` | samia/core/vector_contextual.py:83-93 | the siblings are stems of other members of the chain, never the node itself, at most six, and all of them if there are fewer |
| `ContextLaws.ContextExactly` | samia/core/vector_contextual.py:72-97 | a node has the context of the last readable chain with a member of its file name, and none outside chains |
| `ContextLaws.SiblingsExactly` | samia/core/vector_contextual.py:80-93 | the siblings are the first six of the stems of the members' files other than its own, in manifest order; the chain goes by its id or else its file |
| `ContextLaws.ContextChangesText` | samia/core/vector_contextual.py:104-123 | the same body in another context is another text, for ids without quotes and names without commas |
| `ContextLaws.SingletonsDiffer` | samia/core/vector_contextual.py:104-123 | a node outside chains never reads like one inside, whatever the names |
| `VectorContextual.Build` | samia/core/vector_contextual.py:104-227 | an incremental contextual build is a rebuild from the present files and chains, also when only the chains changed, with the members of chains flagged and counted; an unreadable file aborts it unwritten |
| `Segments.SegmentBody` | samia/core/ia.py:124-134 | the paragraphs of the body numbered from seg-000 |
| `Segments.SegmentsAreParagraphs` | samia/core/ia.py:124-134 | every segment is non-empty, stripped, and free of blank lines |
| `Segments.SplitOfJoined` | samia/core/ia.py:124-186 | joining paragraphs by blank lines and splitting again gives the same paragraphs |
| `PoolData.AddressInjective` | samia/core/ia.py:120-121 | different entry numbers have different POOL addresses |
| `PoolData.AbsorbAllKeeps` | samia/core/ia.py:142-174 | compressing keeps addresses fresh and hashes unique, never changes content, and gives each segment an entry of its own hash |
| `PoolData.AbsorbAllCounts` | samia/core/ia.py:142-174 | total references grow by exactly the number of segments |
| `PoolLaws.CountsExactly` | samia/core/ia.py:142-174 | each segment counts once, for its node, at the address it gets; a new address holds the first segment that got it, with the first eighty characters on one line as description |
| `PoolData.DensityBounds` | samia/core/ia.py:109-118 | the density lies in [0, 1) and equals 1 - entries/references |
| `PoolData.FreezeThawFreeze` | samia/core/ia.py:142-186 | the decompressed body splits into exactly the pooled contents, and compressing it again yields the same addresses and no new entry |
| `PoolData.SameNormalisation` | samia/core/ia.py:137-139 | unless its hash collides with that of its pooled part, each original segment equals it up to case and white space |
| `PoolLaws.CollapseExactly` | samia/core/ia.py:137-138 | the normal form has one space wherever any white space stands between words |
| `PoolLaws.HashExactly` | samia/core/ia.py:137-139 | a segment is hashed by the words of its lower-cased text, one space apart, whatever white space surrounds it or stands between them |
| `PoolData.RunIsSound` | samia/core/ia.py:142-186 | in every run of compress and freeze the references are the segments ever compressed, and every archived state decompresses to what it did when frozen |
| `Pool.Store.CompressBody` | samia/core/ia.py:142-174 | the scan-or-insert loop on the pool in place, with its references and density |
| `Pool.Store.DecompressBody` | samia/core/ia.py:177-186 | the contents at the addresses joined, with a marker for an unknown address |
| `PoolLaws.TextExactly` | samia/core/ia.py:177-186 | a body is decompressed to the contents at its addresses, a blank line apart, with a marker for unknown ones and a final newline |
| `Scalars.IntRoundTrip` | samia/core/frontmatter.py:56-69 | every integer reads back from its decimal text |
| `Scalars.ListSurvivesExactlyWhen` | samia/core/frontmatter.py:51-67 | a list reads back exactly when its items are non-empty, stripped, and without comma or newline |
| `Scalars.SurvivesExactlyWhen` | samia/core/frontmatter.py:40-69 | a value reads back from its printed form exactly when it is a boolean, an integer, a float printed with a dot, a list of clean items, or a stripped string that reads as nothing else; floats are the numbers that some text denotes |
| `Scalars.PrintedFormIsStable` | samia/core/frontmatter.py:40-69 | printing what was read is stable under reading and printing again, for every text |
| `WholeFloats.CodecIsOk` | samia/core/frontmatter.py:55-69 | the law asked of floats holds for `float` and `str` on a half and the whole numbers up to 1e16 |
| `WholeFloats.LargeFloatLosesItsType` | samia/core/frontmatter.py:55-69 | 10000000000000000.0 reads as a float, prints as 1e+16, and comes back as a string |
| `HeaderLines.StandardIsLawful` | samia/core/frontmatter.py:86-92 | a written field splits into its key and value, a line splits into a clean key and a one-line value, and what was read prints stably |
| `FrontmatterText.CloseOfRendered` | samia/core/frontmatter.py:80-84 | the closing fence is found right after the lines up to the first later line that starts like it |
| `Frontmatter.Parse` | samia/core/frontmatter.py:72-94 | the header loop computes the parse |
| `HeaderLaws.ParseExactly` | samia/core/frontmatter.py:72-84 | a text has a header exactly when it begins with the fence and has a closing one; the header is what stands before the first closing fence, the body what follows it without leading newlines |
| `HeaderLaws.FieldExactly` | samia/core/frontmatter.py:87-91 | a line is a field exactly when it has a colon: the key is what stands before the first one, trimmed, the raw value what follows |
| `HeaderLaws.ValuesExactly` | samia/core/frontmatter.py:85-93 | a header has a field exactly when some line gives its key, with the value of the last such line |
| `HeaderLaws.OrderExactly` | samia/core/frontmatter.py:85-93 | the key order lists the key of every field line, repetitions included |
| `HeaderLaws.LinesExactly` | samia/core/frontmatter.py:87 | lines joined by any line ends are split at exactly these |
| `ScalarLaws.ValueExactly` | samia/core/frontmatter.py:40-60 | a trimmed text reads as nothing, a truth word in any case, a bracketed list, a number if it is one, and else as itself |
| `ScalarLaws.WholeExactly` | samia/core/frontmatter.py:56-60 | a text is a whole number exactly when it is digits in groups with single underscores, perhaps behind a sign, and denotes the number of the digits |
| `ScalarLaws.ItemsExactly` | samia/core/frontmatter.py:51-54 | the items of a list are the pieces between the commas, trimmed, without the blank ones |
| `Frontmatter.Serialize` | samia/core/frontmatter.py:97-126 | the emission loops and the join write the fenced lines of the effective keys and the trimmed body |
| `Frontmatter.EmittedAreFields` | samia/core/frontmatter.py:115-123 | every field is emitted exactly once |
| `HeaderLaws.EmissionExactly` | samia/core/frontmatter.py:115-123 | fields are written in the listed order, each at the first place of its key, then the unlisted ones in the order they were set |
| `Frontmatter.RoundTrip` | samia/core/frontmatter.py:72-126 | parse undoes serialize: same fields, effective key order, trimmed body |
| `FrontmatterFixpoint.StableExactlyWhen` | samia/core/frontmatter.py:72-126 | serialize-after-parse is a fixed point from the second pass exactly when the header has a field and no later key starts with the fence |
| `GraphStores.ForgottenWithin` | samia/core/ia.py:547-595 | the cascade adds no presence, and lets files go without leaving one exactly when whatever resolves to them carries the forgotten name |
| `GraphStores.ForgottenTwice` | samia/core/ia.py:547-595 | a second cascade changes nothing |
| `Forgetting.ForgottenExactly` | samia/core/ia.py:547-595 | forgetting drops exactly the rows of every kind at the file, its mass, the weights with the file as a "::" component, its chain entries and the edges at their addresses, and tombstones its vector entry; all else stays as it was, in order |
| `Forgetting.AbsentAfter` | samia/core/ia.py:229-595 | right after a node is frozen, merged with another, superseded or forgotten no row, mass, weight key or chain entry names its file, and its vector entry is not live |
| `Forgetting.ClearUntilMentioned` | samia/core/ia.py:229-595 | over a run a node without weight and mass gets neither exactly until a co-activation is written for one of its keys or a pass counts an appearance of it |
| `Lifecycle.Memory.ForgetNode` | samia/core/ia.py:547-595 | the cascade over the four stores in place, after the full archive for a superseding reason |
| `Lifecycle.Memory.Freeze` | samia/core/ia.py:229-306 | a cold parsable file is pooled, archived, removed and forgotten; otherwise nothing changes |
| `LookupLaws.FreezesExactlyWhen` | samia/core/ia.py:232-244 | a freeze goes ahead exactly for a node with a file whose header can be read and whose tier is not the text "hot" |
| `LookupLaws.FrozenUnder` | samia/core/ia.py:247-293 | a freeze counts the segments for the address of the header, or else the node name, and archives the header under it with their addresses; no other record changes, and only this file goes |
| `Lifecycle.Memory.Thaw` | samia/core/ia.py:309-341 | the unique unresumed archive is written back as a warm node |
| `LookupLaws.LookupExactly` | samia/core/ia.py:312-319 | an id stands for the archive of that name, or else for the only one whose name contains it |
| `LookupLaws.ThawsExactlyWhen` | samia/core/ia.py:309-322 | a thaw goes ahead exactly when the id picks an archive that was not thawed |
| `LookupLaws.ThawedUnder` | samia/core/ia.py:324-341 | a thaw writes the file of the archived name and marks the record; no other file or record, nor pool and graph, change |
| `Lifecycle.Memory.Merge` | samia/core/ia.py:401-476 | two cool nodes of a common chain become one file with their combined header and both bodies, and both are forgotten; equal names stop half-way, unreadable numbers before anything is written |
| `LookupLaws.MergesExactlyWhen` | samia/core/ia.py:404-426 | a merge goes ahead exactly for two nodes with readable files that are not hot, of a common chain, with numbers that can be coerced |
| `LookupLaws.MergedUnder` | samia/core/ia.py:428-464 | a merge writes one file named by both nodes, removes theirs, and leaves archives and pool alone |
| `Lifecycle.Memory.RestoreNode` | samia/core/ia.py:598-656 | the superseded file comes back verbatim and its vector entry is live again |
| `LookupLaws.RestoresExactlyWhen` | samia/core/ia.py:609-628 | a restore goes ahead exactly when the id, with or without ".md", picks a superseded node that was not restored |
| `LookupLaws.RestoreKeyExactly` | samia/core/ia.py:611-624 | a superseded archive is found under the id itself, else under the id without ".md", alone or as part of one name |
| `LookupLaws.RestoredUnder` | samia/core/ia.py:626-656 | a restore writes the archived text back and marks the record; of the graph only the vector entry of the file changes |
| `LookupLaws.SupersededUnder` | samia/core/ia.py:503-595 | superseding archives the file verbatim under the node name without ".md", removes it, and forgets the node |
| `Lifecycle.Memory.Sync` | samia/core/web_store.py:318-349 | a pass guarded by the present node files or not |
| `LifecycleLaws.StepKeepsNoGhosts` | samia/core/ia.py:229-656 | each operation keeps "no file, no edge, no chain entry, no live vector entry" exactly when it is safe where it happens; only for unguarded passes that is sufficient alone |
| `LifecycleLaws.FreezeKeepsExactlyWhen` | samia/core/ia.py:229-293 | freezing leaves no ghost exactly when whatever points at the removed file, by the resolution of the code, carries the forgotten name |
| `LifecycleLaws.MergeKeepsExactlyWhen` | samia/core/ia.py:401-465 | the same for a merge with its two files and names |
| `LifecycleLaws.SupersedeKeepsExactlyWhen` | samia/core/ia.py:503-595 | the same for a superseded node |
| `LifecycleLaws.RunIsSound` | samia/core/ia.py:229-656 | in a run with guarded passes, at no point does an absent node have a web edge, a chain entry or a live index entry exactly when every step is safe; masses and weights are not covered; every archived body stays in the pool |
| `LifecycleLaws.PlainRunIsSafe` | samia/core/ia.py:229-656 | with chain entries that name their files in full, names without ".md", no merge of a node with itself and guarded passes every run is safe |
| `LifecycleLaws.RecordKeptExactlyWhen` | samia/core/ia.py:246-341 | an archived node keeps its record over a run exactly when no step thaws it or freezes another state under its id |
| `LifecycleLaws.ArchiveReadsTheSame` | samia/core/ia.py:177-186 | whatever happens later, an archived body decompresses to the same text |
| `LifecycleFindings.FreezeSafeExactlyWhen` | samia/core/ia.py:229-293 | in all memories whose chain entries name their files in full, freezing leaves no ghost exactly when the node name does not itself end in ".md" |
| `LifecycleFindings.MergeSafeExactlyWhen` | samia/core/ia.py:401-465 | in all such memories, merging leaves no ghost exactly when the names differ and neither ends in ".md" |
| `LifecycleFindings.PlainFreezeSafeExactlyWhen` | samia/core/chain.py:108-150 | in any memory, freezing a node of plain name leaves no ghost exactly when no chain entry that resolves to its file omits the suffix |
| `LifecycleFindings.PlainMergeSafeExactlyWhen` | samia/core/chain.py:108-150 | the same for merging two nodes of plain names |
| `LifecycleFindings.PlainSupersedeSafeExactlyWhen` | samia/core/chain.py:108-150 | the same for superseding a node |
| `LifecycleFindings.BareEntryHaunts` | samia/core/chain.py:108-150 | a memory in which freezing or superseding a plain name leaves a chain entry without its file |
| `MergedNode.MergedFields` | samia/core/ia.py:429-451 | the merged header has every field of both, the first node winning, but for six: title, description, common runtime, summed count, larger relevance, later day of access; it is never hot |
| `MergedValues.CombinedExactly` | samia/core/ia.py:429-451 | both names in the title, the common runtime or "main", the first 200 characters of both descriptions, the sum of the counts, the greater relevance, the later day of access |
| `MergedValues.NumbersExactly` | samia/core/ia.py:443-448 | counts and relevances default to 0 and 0.5; a float count loses its fraction toward zero, a text is read as a number or the merge fails |
| `MergedValues.UnionExactly` | samia/core/ia.py:429-459 | the merged header lists the fields of the second node, then those only the first has, and is written in the order of the first |
| `MergedValues.PrintExactly` | samia/core/ia.py:430-451 | truth values print as True and False, whole numbers as digits that read back, texts as themselves |
| `MergedNode.LatestIsLast` | samia/core/ia.py:449-451 | the later of two texts, character by character, is before neither and is one of them |
| `MergedNode.MergedSegments` | samia/core/ia.py:452-456 | the merged body splits into its headings and, in between and in order, exactly the segments of both bodies |
| `MergedValues.BodyExactly` | samia/core/ia.py:452-456 | a title and, for each node, a heading and its trimmed body, a blank line apart |
| `SegmentSums.BlankLineAdds` | samia/core/ia.py:124-134 | a blank line between any two texts adds up their segments |
| `SegmentSums.StripKeepsParagraphs` | samia/core/ia.py:124-134 | white space around a text does not change its segments |
| `MergeLaws.MergeKeepsSegmentsExactlyWhen` | samia/core/ia.py:401-465 | a merged node can be frozen; its segments are its headings and, between them and in order, exactly those of the two nodes exactly when no key of its header but the first starts with the fence |
| `LifecycleFindings.SyncSafeExactlyWhen` | samia/core/web_store.py:315-339 | a pass dated today never re-creates edges of absent nodes exactly when it is given the live-node guard |
| `LifecycleFindings.GuardedSyncAddsDeadMassExactlyWhen` | samia/core/web_store.py:340-342 | a guarded pass gives an absent node a new mass row exactly when such a node without a row is among the appearances |
| `LifecycleFindings.RestoreUndoesSupersede` | samia/core/ia.py:503-656 | restore after supersede gives back the file byte for byte and the index; edges and chain entries stay gone |
| `LifecycleFindings.ThawLeavesTombstone` | samia/core/ia.py:309-341 | a thawed node stays tombstoned in the vector index until a build |
| `LifecycleFindings.ThawedBodyMatches` | samia/core/ia.py:142-341 | however much later, the thawed body has one paragraph per frozen segment, of the same hash |
| `ThawedHeader.WarmFields` | samia/core/ia.py:327-331 | a thawed header is the frozen one with warm tier, neutral relevance and the day of access; all other fields are unchanged |
| `Refreeze.RefreezeSameExactlyWhen` | samia/core/ia.py:229-341 | a frozen node that is thawed can be frozen again; that gives the same addresses and no new pool entry exactly when no header key but the first starts with the fence, and then under the same id |
| `Refreeze.SomeEnvironment` | samia/core/ia.py:137-139 | what the refreeze theorem asks of floats, of the digest and of reading and writing files can be met together |
| `Refreeze.PrefixShows` | samia/core/ia.py:137-139 | the normalised text of a segment changes when something visible is put in front, for every lower-casing that neither hides nor makes visible characters |

## Left out

- EpisodeCounter.DenseWithoutCrashes: a counter file that holds JSON other than an object makes calls raise, and is excluded.
- DecayPass.NodeDirectory.DecayPass: a freeze moves the file into the archive under its id; what it also does to the pool and the other stores is `Lifecycle.Memory.Freeze`.
- MergeLaws.MergeKeepsSegmentsExactlyWhen: for node names and field texts without line breaks.
- Refreeze.RefreezeSameExactlyWhen: where the hash does not collide between the segments read from the thawed file and the pooled ones.
- Traversal.TraverseAt: the name field of a node file is an input.
- Lifecycle.Memory.Thaw: glob metacharacters in the given id are matched literally.
- Frontmatter.RoundTrip: for headers with at least one field, clean keys and surviving values, floats being numbers that some text denotes; what happens otherwise is the subject of the two exactly-when lemmas.
- Scalars.IntRoundTrip: ASCII digits only, and no limit on the number of digits.
- Floating point: relevances, weights, masses and probabilities are real numbers; rounding to four decimals is any nearest grid point; NaN and infinities do not occur.
- Hashing and embedding: sha256 prefixes are a function of the text, injective where that is said; the embedder is a function of one text, fixed for a run, so the cross-model guard of a query never fires.
- Loading a node for the index: title and content of a file are given; the extraction of name and description from the header is not modelled.
- Fail-soft branches: each store step of the cascade succeeds, and manifests and pool files that exist can be read.
- Concurrent writers of the pool file, of chain manifests and of the vector index; the pool is saved by one writer and its density is not rounded.
- The set of JSON shapes: hand-edited files with missing or mistyped keys, apart from those the loops above test for.
- Environment variables, clocks and time zones: bounds, dates and elapsed days are inputs.
- Event logs, printing, the forgotten log, and the extraction queue that freezing feeds.
- `detect_wrong_deletion`: repeated restores under a subject comparison; each restore is covered.
- `write_node` hooks, `inspect`, `step_up`, `pool_stats`, `show_chain`, `query_at`, `snapshot_at`, `info`: thin readers or optional side effects.
- Token-budget formatting of facts, conflict scans and evidence assembly in `semantic_recall.py`.
- `bio`, `hippocampus`, `integrity`, `context_extension`, `memory_guard`, `consolidation` and the remaining planes: only what the core reads from them appears, as inputs.
