# Protocol scanning: graph, scheduler, watch registry, return-data decoder

A Dafny model of the dependency side of the backend. A discovery result becomes a directed
graph of contracts; the graph is validated and traversed; a scheduler scans its nodes in
dependency order with bounded retry and a bounded number of concurrent scans; a registry keeps
watch subscriptions with their schedule and an audit log; and a small decoder reads `uint256[]`
return data.

`dafny verify dfyconfig.toml` checks everything.

## How the model is organised

| file | what it holds |
|---|---|
| `Ordering.dfy`, `Text.dfy` | Python's string and tuple orders and `sorted`; lower-casing, decimal integers, watch identifiers |
| `ProtocolGraphs.dfy`, `Exploration.dfy`, `ShortestWalks.dfy`, `FirstPaths.dfy` | the graph value, walks and dependency chains, distances, what makes a search order breadth-first or depth-first, which shortest walk a search finds, and by which path a depth-first search first comes to a vertex |
| `Traversal.dfy`, `DepthFirst.dfy`, `Kahn.dfy`, `CycleCounts.dfy` | the traversal helpers: `bfs`, `dfs`, `shortest_path`, closures, `find_cycles`, `topological_sort`; which cycles `find_cycles` lists, and how many it can |
| `ScanPlan.dfy`, `DependencyResolvers.dfy` | rounds of scans as iterates towards a least fixed point, and the static planner |
| `NodeScans.dfy`, `WorkerPools.dfy` | one scan with retry; a batch under a semaphore, one atomic step at a time |
| `Schedulers.dfy`, `RunProperties.dfy` | the run loop with its dictionary of results, and what runs, plan and graph have to do with each other |
| `EdgeBuilders.dfy`, `NodeClassifiers.dfy`, `GraphValidators.dfy`, `GraphBuilders.dfy` | from discovery to a validated graph |
| `WatchModels.dfy`, `WatchRuns.dfy`, `WatchRegistries.dfy`, `WatchPersistences.dfy` | subscriptions, runs of operations, the mutable registry and manager, the persisted form |
| `TradeEncoding.dfy` | the decoder, at the level of bytes |

Three ideas carry most of the proofs.

*Rounds.* `ScanPlan.Scanned(g, good, n)` is what has been scanned after `n` rounds when exactly
the scans of `good` succeed. The static planner is the case in which everything succeeds and a
run is any other case, so plan and run are compared by comparing two instances of one function.
Nothing in it asks for an acyclic graph.

*One store value.* `WatchRuns.Apply` gives the effect of one registry or manager call on a value
of the store. Every method of the mutable classes is proved to have exactly that effect, so what
is proved of all sequences of operations holds of every sequence of calls.

*Answers that are unique.* `bfs`, `dfs`, `topological_sort`, `shortest_path` and `find_cycles` are
specified by an order or a path that is shown to be the only one of its kind, so their results are
determined, not just constrained.

Some of the code lowers an address before looking it up (`neighbors`) and some does not (the
reverse map, the planner, the scheduler). Accordingly there are two notions of connection: a
*walk* follows `neighbors`, a *chain* follows dependencies with addresses as they are. Four
conditions on graphs matter, all of them in `ProtocolGraphs`:

- *consistent*: unique nodes, no target listed twice under one key, and only nodes have targets.
  Every graph the builder assembles is consistent, valid or not
  (`GraphBuilders.AssembledIsConsistent`); the planner and the scheduler ask for no more.
- *lower case*: nodes and targets are. The builder's graphs are exactly when the contracts are
  (`GraphBuilders.LowerCaseWhenContractsAre`).
- *sortable*: both. There walks and chains are the same (`ProtocolGraphs.CyclicMeansClosedWalk`).
- *well-formed*: the adjacency keys are moreover exactly the nodes and every target is one. This
  is what `build` returns for lower-case contracts.

The traversal methods, the sort, the validator and the builder are stated for every graph.

## Where the code differs from what one might expect

- `is_dag` is false on the graph without nodes, because the empty tuple also stands for failure
  (`Kahn.IsDag`, `Kahn.EmptyGraphIsAcyclic`).
- `topological_sort` counts edges under the keys they are listed under and counts them down along
  lowered addresses. On every graph, the tuple is empty exactly when there is no node or some set
  of nodes is *blocked*: taking all the other nodes counts none of them down far enough
  (`Kahn.TopologicalSort`). On a consistent graph where no two nodes with neighbours differ only in
  case, a non-empty tuple is a topological order, and the empty one means that there is no node, a
  cycle, or a dependency on an address that is not lower case. The last can happen without a cycle
  (`Kahn.MixedCaseIsNotSorted`). Where two nodes do differ only in case, the list of one is followed
  for both, and a cyclic graph can pass for sorted (`Kahn.SharedListIsSorted`). On sortable graphs
  the answer is right in both directions.
- The validator reports `invalid_edge` on an assembled graph in exactly one case: the root is not
  among the contracts and something is linked to it (`GraphBuilders.ValidWhenBuildable`). It does
  occur (`GraphBuilders.MissingRootCanBeLinked`); `build` raises then, `build_with_validation` may
  return the graph.
- `build` does not look at letter case. Mixed-case contracts are no reason to raise
  (`GraphBuilders.MixedCaseIsBuildable`), but the graph is well-formed if and only if all of them
  are lower case (`GraphBuilders.WellFormedWhenLower`).
- A dump and load of a watch store gives the store back if and only if its root addresses are
  lower case, because loading lowers them (`WatchPersistences.RoundTripExactlyWhenLower`,
  `WatchPersistences.MixedCaseStoreIsNotRestored`). The registry only ever stores such addresses.
- `_mark_skipped_nodes` skips direct dependents of a failed node only. Everything further
  downstream, and everything on or after a cycle, ends as `unresolved_dependencies`
  (`Schedulers.FinalStatuses`).
- `find_cycles` does not list every elementary cycle. It lists one, from whichever vertex, exactly
  when no edge of it is *passed over*: leads to a vertex that is then neither new nor on the path
  (`CycleCounts.ListedExactlyWhenFollowed`). Three nodes and four edges are enough to miss one
  (`CycleCounts.TriangleMissesOne`), and as no edge closes two reports, five nodes that all depend
  on each other always have some that are missed (`CycleCounts.SomeCycleIsNotListed`). What it
  lists is enough to break them all: every closed walk goes along the closing edge of a listed
  cycle (`DepthFirst.FindCycles`).

## Model

| member | source | states |
|---|---|---|
| `Ordering.StringOrder` | `backend/app/blockchain/protocol_scheduler/dependency_resolver.py:42-46` | wherever addresses are sorted, the one with the lower code point at the first difference comes first, or the one that ends there |
| `Ordering.TupleOrder` | `backend/app/blockchain/protocol_graph/traversal.py:154-154` | tuples are sorted by their entries in turn, in that order, and a beginning before what it begins |
| `Text.LowerMeans` | `backend/app/blockchain/protocol_graph/traversal.py:22-26` | lowering moves the code points 65 to 90 up by 32 and leaves every other character |
| `Traversal.OriginIs` | `backend/app/blockchain/protocol_graph/traversal.py:25-26` | a missing and an empty start both mean the root; any other start is lowered |
| `Traversal.Bfs` | `backend/app/blockchain/protocol_graph/traversal.py:25-40` | lists exactly the vertices reachable from the origin, each once, origin first, by non-decreasing distance, in breadth-first order; nothing when the origin is not a node |
| `Exploration.ExploredAll` | `backend/app/blockchain/protocol_graph/traversal.py:32-40` | when the queue is empty, what was discovered is what is reachable and the recorded distances are those of shortest walks |
| `Exploration.WalkBound` | `backend/app/blockchain/protocol_graph/traversal.py:32-40` | at every moment of the search, a walk from the origin ends at a vertex it cannot beat the recorded distance of, or is longer than the distance of the next vertex |
| `Exploration.SearchOrderIsUnique` | `backend/app/blockchain/protocol_graph/traversal.py:25-58` | a start and a set of vertices have one breadth-first and one depth-first order, so both listings are fully determined |
| `DepthFirst.Dfs` | `backend/app/blockchain/protocol_graph/traversal.py:42-58` | lists the same vertices as `bfs`, each once, origin first, in depth-first order: each is the first unlisted neighbour of the latest vertex that still has one |
| `DepthFirst.DepthFirstWalk.Walk` | `backend/app/blockchain/protocol_graph/traversal.py:49-55` | a call keeps the earlier listing as a prefix; what it adds starts with the node, was reached from it, has all its neighbours listed and follows the depth-first order |
| `DepthFirst.WalkingStep` | `backend/app/blockchain/protocol_graph/traversal.py:54-55` | walking the next neighbour keeps what the call has promised so far |
| `Traversal.ShortestPath` | `backend/app/blockchain/protocol_graph/traversal.py:109-126` | a walk along edges from source to target with as few edges as any, and among those the one that, where two part, takes the neighbour listed first; None exactly when the target is unreachable |
| `ShortestWalks.TreeWalkIsFirst` | `backend/app/blockchain/protocol_graph/traversal.py:114-126` | at every moment of the search, the walk by which a vertex was discovered comes first among all walks of its length from the origin |
| `ShortestWalks.FirstIsLeast` | `backend/app/blockchain/protocol_graph/traversal.py:109-126` | where lists of neighbours are sorted, the path found is the least in tuple order of all shortest ones |
| `GraphBuilders.AssembledListsAreSorted` | `backend/app/blockchain/protocol_graph/graph_builder.py:68-76` | they are sorted on every graph the builder assembles |
| `Traversal.Descendants` | `backend/app/blockchain/protocol_graph/traversal.py:95-107` | exactly what the address reaches along at least one edge, sorted, each once |
| `Traversal.Ancestors` | `backend/app/blockchain/protocol_graph/traversal.py:81-93` | on every graph exactly the addresses that feed into the lowered address along at least one edge, keys taken as they are, sorted, each once; on a sortable graph, exactly the lower-case addresses from which it is reached, so the mirror image of `descendants` |
| `Traversal.FeedingIsReaching` | `backend/app/blockchain/protocol_graph/traversal.py:81-107` | on a sortable graph, going against the reverse map and going along the adjacency map lead to the same closure |
| `ProtocolGraphs.BuildReverseAdjacency` | `backend/app/blockchain/protocol_graph/traversal.py:160-165` | every node and every target is mapped to the sorted sources of the edges into it |
| `Traversal.DisconnectedFromRoot` | `backend/app/blockchain/protocol_graph/traversal.py:128-130` | the nodes the root does not reach, in graph order; all nodes when the root is not one |
| `Traversal.UnreachedJoin` | `backend/app/blockchain/protocol_graph/traversal.py:128-130` | the nodes listed keep the order of the graph |
| `DepthFirst.FindCycles` | `backend/app/blockchain/protocol_graph/traversal.py:132-154` | on every graph, what is listed is exactly each cycle that the first path to its last vertex ends with; each is a closed walk along edges with distinct vertices; where no target is listed twice under a key, no edge closes two reports; every closed walk a node leads to goes along the closing edge of a report; so the list is empty exactly when there is no directed cycle; the reports are in sorted order |
| `DepthFirst.CyclesAreDetermined` | `backend/app/blockchain/protocol_graph/traversal.py:132-154` | there is only one list of this kind, so the result is fully determined |
| `DepthFirst.TraceEnter` | `backend/app/blockchain/protocol_graph/traversal.py:138-143` | when a vertex is visited, the path to it is the first one to it, because everything passed by on the way has been dealt with |
| `FirstPaths.FirstPathIsUnique` | `backend/app/blockchain/protocol_graph/traversal.py:138-152` | there is at most one path to a vertex that takes, at every step, the first choice leading there without coming back |
| `FirstPaths.HasFirstPath` | `backend/app/blockchain/protocol_graph/traversal.py:150-153` | a vertex has such a path exactly when some node leads to it |
| `FirstPaths.ClosedExactlyWhenFollowed` | `backend/app/blockchain/protocol_graph/traversal.py:142-146` | the search closes a cycle, from one of its vertices, exactly when it passes over none of its edges |
| `CycleCounts.ListedExactlyWhenFollowed` | `backend/app/blockchain/protocol_graph/traversal.py:142-146` | so an elementary cycle that a node leads to is listed, from one of its vertices, if and only if none of its edges leads to a vertex that is neither new nor on the path |
| `CycleCounts.UndisturbedIsListed` | `backend/app/blockchain/protocol_graph/traversal.py:132-154` | a cycle is listed, up to the order of its vertices, when no cycle through other vertices has an edge of it |
| `CycleCounts.TriangleMissesOne` | `backend/app/blockchain/protocol_graph/traversal.py:132-154` | a consistent lower-case graph of three nodes with a cycle one of whose edges is passed over |
| `CycleCounts.AtMostOnePerEdge` | `backend/app/blockchain/protocol_graph/traversal.py:138-146` | such a list has at most as many entries as the graph has edges |
| `CycleCounts.SomeCycleIsNotListed` | `backend/app/blockchain/protocol_graph/traversal.py:132-154` | on five nodes that all depend on each other, no such list has a cycle through each group of nodes: some elementary cycle visits a set of nodes that no listed one does |
| `CycleCounts.FiveNodes` | `backend/app/blockchain/protocol_graph/traversal.py:132-154` | there is such a graph, and it is one on which no edge closes two reports |
| `DepthFirst.CycleSearch.Visit` | `backend/app/blockchain/protocol_graph/traversal.py:138-148` | path and stack come back as they were, the node has finished, no report is lost, what is reported meanwhile closes from vertices not visited before, and the invariant tying visited, stack, path and reports together is kept |
| `DepthFirst.FinishedWalkDescends` | `backend/app/blockchain/protocol_graph/traversal.py:138-148` | a walk along unreported edges goes strictly down the finish order |
| `DepthFirst.RootedHasFinished` | `backend/app/blockchain/protocol_graph/traversal.py:150-153` | after the outer loop everything a node leads to has finished |
| `DepthFirst.OnceInBoth` | `backend/app/blockchain/protocol_graph/traversal.py:139-146` | no edge closes two of the reports, in whatever order they are listed |
| `DepthFirst.ReachIsNoRestriction` | `backend/app/blockchain/protocol_graph/traversal.py:150-154` | on a sortable graph every cycle is one that some node leads to |
| `ProtocolGraphs.CyclicMeansClosedWalk` | `backend/app/blockchain/protocol_graph/traversal.py:22-23` | on a sortable graph some address depends on itself exactly when there is a closed walk along neighbours |
| `ProtocolGraphs.WellFormedIsSortable` | `backend/app/blockchain/protocol_graph/graph_builder.py:25-42` | what `build` returns for lower-case contracts is sortable, so all that is stated of sortable graphs holds of it |
| `Kahn.TopologicalSort` | `backend/app/blockchain/protocol_graph/traversal.py:60-79` | on every graph: all nodes once each, in the order in which taking them one by one frees them, or the empty tuple exactly when there is no node or some nodes are blocked; on a consistent graph where no two nodes with neighbours differ only in case: a topological order, or the empty tuple exactly when there is no node, a cycle or a dependency that is not lower case; on a sortable graph: the empty tuple exactly when there is no node or a cycle |
| `Kahn.MixedCaseIsNotSorted` | `backend/app/blockchain/protocol_graph/traversal.py:60-79` | a consistent acyclic graph that is not sorted: a node depends on an address that is not lower case |
| `Kahn.SharedListIsSorted` | `backend/app/blockchain/protocol_graph/traversal.py:71-75` | a consistent cyclic graph, with the non-empty result of the sort on it: two nodes differ only in case |
| `Kahn.BlockedWhenOwnLists` | `backend/app/blockchain/protocol_graph/traversal.py:60-79` | on a consistent graph where no two nodes with neighbours differ only in case, some nodes are blocked if and only if there is a cycle or a dependency that is not lower case |
| `Kahn.ReleasedNotBlocked` | `backend/app/blockchain/protocol_graph/traversal.py:66-79` | where every node is freed by those listed before it, none are blocked |
| `Kahn.SuppliedByDependencies` | `backend/app/blockchain/protocol_graph/traversal.py:61-75` | with lists not shared, counting down along neighbours reaches zero exactly when all dependencies have been taken and are lower case |
| `Kahn.QueueOrderIsUnique` | `backend/app/blockchain/protocol_graph/traversal.py:66-79` | on every graph there is only one listing of all nodes in which each is freed by those before it and entries come in the order they are freed, sources sorted, so the sort is fully determined |
| `Kahn.QueuedEnd` | `backend/app/blockchain/protocol_graph/traversal.py:77-78` | if the queue runs empty before every node is listed, the nodes left are blocked |
| `Kahn.IsDag` | `backend/app/blockchain/protocol_graph/traversal.py:156-157` | on every graph false exactly when there is no node or some nodes are blocked; where no two nodes with neighbours differ only in case, exactly when there is no node, a cycle or a dependency that is not lower case; on a sortable graph true exactly when there is a node and `find_cycles` reports nothing |
| `Kahn.EmptyGraphIsAcyclic` | `backend/app/blockchain/protocol_graph/traversal.py:156-157` | the graph without nodes is acyclic, and sortable |
| `Kahn.OrderableIffAcyclic` | `backend/app/blockchain/protocol_graph/traversal.py:60-79` | a consistent graph has a topological order if and only if it has no cycle |
| `ProtocolGraphs.OrderForbidsCycle` | `backend/app/blockchain/protocol_graph/traversal.py:77-79` | a consistent graph with a topological order has no closed chain |
| `ProtocolGraphs.TrappedSetIsCyclic` | `backend/app/blockchain/protocol_graph/traversal.py:77-78` | a non-empty set in which everything depends on a member contains a cycle |
| `DependencyResolvers.BuildDependencyMaps` | `backend/app/blockchain/protocol_scheduler/dependency_resolver.py:12-25` | the incoming map is the reverse of the outgoing one |
| `DependencyResolvers.ResolveBatches` | `backend/app/blockchain/protocol_scheduler/dependency_resolver.py:27-60` | the batches of the run in which every scan succeeds, up to the first empty round; numbered from zero, each non-empty and strictly increasing by code point |
| `DependencyResolvers.ReleaseRound` | `backend/app/blockchain/protocol_scheduler/dependency_resolver.py:53-58` | after a round the table holds exactly the addresses not yet released and counts their dependencies not yet released |
| `DependencyResolvers.ResolveExecutionOrder` | `backend/app/blockchain/protocol_scheduler/dependency_resolver.py:62-68` | the planned batches one after the other |
| `ScanPlan.BatchContents` | `backend/app/blockchain/protocol_scheduler/dependency_resolver.py:42-51` | batch i holds exactly the nodes of round i, once each and strictly increasing by code point, under the number i |
| `ScanPlan.PlannedWithin` | `backend/app/blockchain/protocol_scheduler/dependency_resolver.py:27-60` | a node is batched within the first n rounds exactly when no dependency chain of n edges ends at it |
| `ScanPlan.BatchIndexIsLongestChain` | `backend/app/blockchain/protocol_scheduler/dependency_resolver.py:27-60` | a node's batch index is the length of the longest dependency chain ending at it: one of that length ends there and none longer |
| `ScanPlan.UnplannedIsDownstreamOfCycle` | `backend/app/blockchain/protocol_scheduler/dependency_resolver.py:41-48` | the unbatched nodes are exactly those on a cycle or depending on one |
| `ScanPlan.EdgesCrossRounds` | `backend/app/blockchain/protocol_scheduler/scheduler.py:65-97` | an edge between scanned nodes goes to a strictly later batch, and its source succeeded |
| `ScanPlan.BatchesAre` | `backend/app/blockchain/protocol_scheduler/dependency_resolver.py:34-60` | a list is the batches exactly when entry i is round i, no entry is empty and the round after the last is |
| `ScanPlan.Settles` | `backend/app/blockchain/protocol_scheduler/scheduler.py:65-72` | there are at most as many rounds as nodes, and an empty round is final |
| `ScanPlan.CompletedIsLeastFixedPoint` | `backend/app/blockchain/protocol_scheduler/scheduler.py:65-97` | the nodes that complete are the least solution of "succeeds and all dependencies complete", on cyclic graphs too |
| `ScanPlan.ScannedWhenDependenciesComplete` | `backend/app/blockchain/protocol_scheduler/scheduler.py:141-151` | a node is scanned exactly when every dependency is scanned successfully |
| `ScanPlan.RunAgainstPlan` | `backend/app/blockchain/protocol_scheduler/scheduler.py:65-97` | a run scans a node within n rounds exactly when the plan does and every scan it transitively depends on succeeds |
| `ScanPlan.RunKeepsPlannedRound` | `backend/app/blockchain/protocol_scheduler/scheduler.py:65-97` | each scanned node runs at exactly its planned index |
| `ScanPlan.RunBatchWithinPlan` | `backend/app/blockchain/protocol_scheduler/scheduler.py:73-75` | executed batch i is the part of planned batch i whose transitive dependencies all succeed |
| `ScanPlan.RunIsNoLonger` | `backend/app/blockchain/protocol_scheduler/scheduler.py:65-97` | a run has no more batches than the plan |
| `NodeScans.ExecuteWithRetry` | `backend/app/blockchain/protocol_scheduler/retry.py:29-52` | the first attempt that returns and how many failed before it; the last error exactly when every permitted attempt fails |
| `NodeScans.Scan` | `backend/app/blockchain/protocol_scheduler/executor.py:43-73` | the imperative scan has the outcome `ScanOutcome` describes |
| `NodeScans.ScanOutcome` | `backend/app/blockchain/protocol_scheduler/executor.py:43-73` | completed exactly when some permitted attempt succeeds, failed otherwise; a completed result holds the analysis of the attempt after its retry count of failed ones and no error; a failed one the error of the last attempt, no analysis, and one retry less than the attempts permitted |
| `WorkerPools.StepKeepsPermits` | `backend/app/blockchain/protocol_scheduler/worker.py:31-35` | permits held plus permits free stay constant |
| `WorkerPools.EveryMomentIsSound` | `backend/app/blockchain/protocol_scheduler/worker.py:27-37` | at every moment of every interleaving at most `max_workers` scans hold a permit, none has made more than its attempts, and a finished one has the result it has in isolation |
| `WorkerPools.NeverStuck` | `backend/app/blockchain/protocol_scheduler/worker.py:31-37` | until everything has finished, some scan can move |
| `WorkerPools.RunsAreBounded` | `backend/app/blockchain/protocol_scheduler/worker.py:31-37` | every interleaving ends within `max_attempts + 1` steps for each scan |
| `WorkerPools.OutcomeIgnoresInterleaving` | `backend/app/blockchain/protocol_scheduler/worker.py:37-37` | any two interleavings gather the same results in the same order and make the same calls |
| `WorkerPools.RunBatch` | `backend/app/blockchain/protocol_scheduler/worker.py:27-37` | whichever scan moves next, position i of the result is the i-th scan's result, and each address is analysed as often as its scan made attempts |
| `Schedulers.ScanRun.constructor` | `backend/app/blockchain/protocol_scheduler/scheduler.py:52-63` | every node starts pending, with nothing executed |
| `Schedulers.ScanRun.MarkSkippedNodes` | `backend/app/blockchain/protocol_scheduler/scheduler.py:154-169` | afterwards exactly the unscanned nodes with a failed direct dependency are skipped, and whatever had a result keeps it |
| `Schedulers.ScanRun.ReadyNodes` | `backend/app/blockchain/protocol_scheduler/scheduler.py:136-151` | the sorted next round: pending nodes all of whose dependencies have completed |
| `Schedulers.ScanRun.MarkUnresolvedNodes` | `backend/app/blockchain/protocol_scheduler/scheduler.py:172-179` | when nothing is ready, marking the pending nodes gives every node its final result, and whatever had a result keeps it |
| `Schedulers.ScanRun.AbsorbBatch` | `backend/app/blockchain/protocol_scheduler/scheduler.py:84-95` | the batch's results are entered, the completed ones appended to the order in batch position, and counted; whatever had a result keeps it, after each entry |
| `Schedulers.ScanRun.ExecuteBatch` | `backend/app/blockchain/protocol_scheduler/scheduler.py:74-97` | one pass of the loop keeps the invariant that the batches, order, dictionary, metrics and calls account for exactly the rounds executed; whatever had a result keeps it |
| `Schedulers.ScanRun.Execute` | `backend/app/blockchain/protocol_scheduler/scheduler.py:65-97` | the loop terminates with the batches of the run, every final result, and the metrics and calls that go with them |
| `Schedulers.RunScan` | `backend/app/blockchain/protocol_scheduler/scheduler.py:47-129` | on every consistent graph, hence on every one the builder assembles, the whole result of a run, whatever the interleavings: executed batches, order, completed and failed nodes, one final result for each node in address order, evidence, counts adding up to the node count, and total calls equal to the sum of retries plus one; every report names its node and holds what its status says, and batches are numbered and strictly increasing by code point |
| `Schedulers.FinalStatuses` | `backend/app/blockchain/protocol_scheduler/scheduler.py:133-180` | completed, failed and skipped as equivalences over the dependencies, with the exact reason of a skip, on cyclic graphs too; a skipped node reports no retry and no analysis, a completed one its first analysis, a failed one its last error |
| `Schedulers.CallTotal` | `backend/app/blockchain/protocol_scheduler/retry.py:41-49` | the number of analyser calls is the sum of the retry counts plus one over the scanned nodes |
| `Schedulers.AttemptsAreRetries` | `backend/app/blockchain/protocol_scheduler/metrics.py:22-25` | attempts are the retries counted and one more for each scan |
| `Schedulers.StatusCounts` | `backend/app/blockchain/protocol_scheduler/aggregation.py:46-63` | completed, failed and skipped nodes are the scanned successes, the scanned failures and the rest, and their numbers add up to the node count |
| `Schedulers.AggregateProtocolEvidence` | `backend/app/blockchain/protocol_scheduler/aggregation.py:13-63` | evidence holds exactly the completed nodes, each with its node's role and name and its result's analysis and retries; the counts, the highest score (zero if none is above it) and the sorted risk levels |
| `Schedulers.ListResults` | `backend/app/blockchain/protocol_scheduler/scheduler.py:101-113` | one result for each node in address order, and the failed nodes sorted |
| `RunProperties.PlanIsTopologicalOrder` | `backend/app/blockchain/protocol_scheduler/dependency_resolver.py:62-68` | the planned execution order is a topological order of all nodes if and only if the graph is acyclic |
| `RunProperties.SuccessfulRunFollowsThePlan` | `backend/app/blockchain/protocol_scheduler/scheduler.py:65-97` | when no scan fails, executed batches and execution order are those of the plan |
| `RunProperties.RunOrderRespectsDependencies` | `backend/app/blockchain/protocol_scheduler/scheduler.py:90-91` | the execution order lists each completed node once, after everything it depends on |
| `RunProperties.TerminalStatusesStay` | `backend/app/blockchain/protocol_scheduler/scheduler.py:135-179` | from any round to any later one, and to the end, an entry that is no longer pending stays what it is |
| `RunProperties.CallsPerNode` | `backend/app/blockchain/protocol_scheduler/retry.py:41-49` | a node is analysed at most `max_attempts` times, never exactly when it ends skipped, and otherwise once more than its reported retries |
| `RunProperties.SortFollowsThePlan` | `backend/app/blockchain/protocol_graph/traversal.py:60-79` | where no two nodes with neighbours differ only in case, the topological sort lists nodes in the order of their planned batches, although the planner is a different algorithm |
| `EdgeBuilders.BuildEdges` | `backend/app/blockchain/protocol_graph/edge_builder.py:27-40` | an edge is listed exactly when a relationship, an admin entry, an oracle role or a declared dependency gives rise to it with its type and confidence and none of them gives the same edge a higher one; each once, by type name, source and target in turn; the edges join exactly the pairs the discovery links |
| `EdgeBuilders.CandidatesAreInferred` | `backend/app/blockchain/protocol_graph/edge_builder.py:27-126` | the candidates are exactly these edges: a relationship between listed contracts keeps its type name and confidence, an admin edge has the lower confidence of the two contracts, the other two that of the contract |
| `EdgeBuilders.InferredIsListed` | `backend/app/blockchain/protocol_graph/edge_builder.py:129-139` | each of them is listed, with at least its confidence |
| `EdgeBuilders.TypeKeepsName` | `backend/app/blockchain/protocol_graph/edge_builder.py:13-21` | the edge of a relationship has the type of the same name |
| `EdgeBuilders.EdgeTypesInOrder` | `backend/app/blockchain/protocol_graph/models.py:12-24` | the types, from ADMIN_TO_PROXY to VAULT_TO_STRATEGY, in the order their names are sorted in |
| `EdgeBuilders.RolesInOrder` | `backend/app/blockchain/protocol_scan/models.py:10-28` | the roles, from bridge to vault, in the order their names are sorted in |
| `EdgeBuilders.CandidatesLink` | `backend/app/blockchain/protocol_graph/edge_builder.py:27-126` | a pair is joined exactly when a relationship, an admin entry, an oracle role or a declared dependency links it; leaving out dependencies already covered by a relationship loses no pair |
| `EdgeBuilders.InferAdminToProxy` | `backend/app/blockchain/protocol_graph/edge_builder.py:56-80` | one edge for each proxy or root whose lowered admin entry is a known contract, with the lower of the two confidences |
| `EdgeBuilders.InferOracleToProtocol` | `backend/app/blockchain/protocol_graph/edge_builder.py:83-97` | one edge from each oracle to the root |
| `EdgeBuilders.InferDependsOn` | `backend/app/blockchain/protocol_graph/edge_builder.py:100-126` | one edge for each contract other than the root whose lowered entry is known and not already related to it |
| `EdgeBuilders.DedupeEdges` | `backend/app/blockchain/protocol_graph/edge_builder.py:129-139` | exactly the candidates no candidate with the same key beats, one for each key, in key order |
| `NodeClassifiers.BuildNodes` | `backend/app/blockchain/protocol_graph/node_classifier.py:12-18` | one node for each contract address, classified from a contract that none there exceeds in confidence and none after it equals, sorted by role and address; each holds what that contract says, entry by entry |
| `NodeClassifiers.ClassifyIsNodeOf` | `backend/app/blockchain/protocol_graph/node_classifier.py:20-38` | a node has the role and address of its contract, the name of the protocol, and its metadata with confidence, detection source, family and root mark laid over |
| `NodeClassifiers.KeptIsChosen` | `backend/app/blockchain/protocol_graph/node_classifier.py:41-52` | choosing by the confidence read back from the nodes' metadata is choosing by the contracts' confidence |
| `NodeClassifiers.DedupeNodes` | `backend/app/blockchain/protocol_graph/node_classifier.py:41-52` | keeps for each address the last of the most confident nodes and loses no address |
| `NodeClassifiers.MarkRootNode` | `backend/app/blockchain/protocol_graph/node_classifier.py:55-77` | no address, name and position changes; every node gets the root address, the root its mark and, where it was unknown, its role; no other entry changes |
| `GraphValidators.Validate` | `backend/app/blockchain/protocol_graph/validator.py:16-106` | the full list of issues in order; each code is reported exactly in its case; the graph is valid unless the root is missing, nodes repeat, an edge leaves the graph or loops; cycles, disconnected nodes and orphans never make it invalid; the three lists are sorted, and the cycles are those `find_cycles` lists, which meet every cycle; the disconnected and orphan lists hold each address as often as the graph does |
| `GraphValidators.IssuesName` | `backend/app/blockchain/protocol_graph/validator.py:20-95` | the issues of the edges name exactly the missing ends and the looping addresses, a missing root is named, and the issues come step by step, at most one in each but the edge loop |
| `GraphValidators.EdgeIssueCases` | `backend/app/blockchain/protocol_graph/validator.py:38-61` | what one edge gives rise to, case by case: its missing source, its missing target, its being a loop, in this order |
| `GraphValidators.StructuralIssues` | `backend/app/blockchain/protocol_graph/validator.py:17-61` | the four fatal codes are reported exactly when they apply, edge by edge, and no other code is |
| `GraphValidators.FindOrphanNodes` | `backend/app/blockchain/protocol_graph/validator.py:109-120` | exactly the nodes other than the root that no edge names, on graphs with several nodes |
| `GraphValidators.OrphansAreDisconnected` | `backend/app/blockchain/protocol_graph/validator.py:63-66` | every orphan is also listed as disconnected |
| `GraphBuilders.BuildAdjacencyMap` | `backend/app/blockchain/protocol_graph/graph_builder.py:68-76` | nodes and endpoints are mapped to the sorted targets of their edges, without repetition |
| `GraphBuilders.Build` | `backend/app/blockchain/protocol_graph/graph_builder.py:25-42` | raises exactly when the root is not among the contracts or something is linked to itself; otherwise the graph holds exactly the best edges and the marked chosen nodes, in order, (u, v) is in the adjacency map iff the discovery links u to v, and the graph is well-formed iff all contract addresses are lower case; duplicate nodes are never the reason |
| `GraphBuilders.BuildWithValidation` | `backend/app/blockchain/protocol_graph/graph_builder.py:44-65` | returns a consistent graph unless it is invalid and that is not allowed; the report's orphans are among its disconnected nodes; with lower-case contracts it reports no cycle exactly when there is none; the report is the one the validator gives |
| `GraphBuilders.ValidWhenBuildable` | `backend/app/blockchain/protocol_graph/graph_builder.py:25-42` | self loops and edges to missing nodes in terms of the discovery: the latter only when the root is missing |
| `GraphBuilders.WellFormedWhenLower` | `backend/app/blockchain/protocol_graph/graph_builder.py:25-42` | a buildable discovery gives a well-formed graph if and only if its contract addresses are lower case |
| `GraphBuilders.AssembledIsConsistent` | `backend/app/blockchain/protocol_graph/graph_builder.py:25-65` | every assembled graph, valid or not, is consistent, so the scheduler never looks up a missing node |
| `GraphBuilders.LowerCaseWhenContractsAre` | `backend/app/blockchain/protocol_graph/graph_builder.py:25-65` | nodes and targets are lower case exactly when the contracts are |
| `GraphBuilders.MissingRootCanBeLinked` | `backend/app/blockchain/protocol_graph/edge_builder.py:83-97` | a discovery whose root is missing and linked to |
| `GraphBuilders.MixedCaseIsBuildable` | `backend/app/blockchain/protocol_graph/graph_builder.py:25-42` | a buildable discovery with a mixed-case contract |
| `Text.WatchIdInjective` | `backend/app/blockchain/continuous/protocol_subscription.py:16-19` | two identifiers are equal exactly when chain ids agree and addresses agree up to case |
| `Text.WatchIdParts` | `backend/app/blockchain/continuous/protocol_subscription.py:16-19` | up to its first colon an identifier is the decimal chain id, and after it the lowered address |
| `Text.DecimalDigits` | `backend/app/blockchain/continuous/protocol_subscription.py:16-19` | decimal notation digit by digit, without leading zeros |
| `Text.DigitsRead` | `backend/app/blockchain/continuous/persistence.py:168-176` | what a run of digits stands for, digit by digit |
| `Text.IntValueReads` | `backend/app/blockchain/continuous/persistence.py:168-176` | exactly the non-empty runs of digits after at most one minus sign are read as integers |
| `WatchRuns.ApplyKeepsSound` | `backend/app/blockchain/continuous/watch_registry.py:45-177` | every operation keeps: the key is the identifier of chain and lowered address, and `next_execution_at` is `updated_at` plus the interval of an enabled watch that has one, None otherwise |
| `WatchRuns.EveryRunIsSound` | `backend/app/blockchain/continuous/watch_manager.py:73-105` | the schedule invariant holds in every reachable store |
| `WatchRuns.ReplayReconstructs` | `backend/app/blockchain/continuous/watch_registry.py:223-239` | over any run, replaying the audit log gives the live watches with their status, last execution, last update and interval |
| `WatchRuns.ReplayGivesNextExecution` | `backend/app/blockchain/continuous/watch_registry.py:223-239` | the log alone determines when each watch runs next |
| `WatchRuns.DueExactly` | `backend/app/blockchain/continuous/scheduler.py:36-49` | in every reachable store a watch is due exactly when it is enabled, has an interval, and that interval has passed since its last update |
| `WatchRuns.DueMeansIntervalPassed` | `backend/app/blockchain/continuous/scheduler.py:36-72` | with timestamps that never go back, a due watch that has run before has had its current interval pass since, whatever came between |
| `WatchRuns.ExecutionsPrecedeUpdates` | `backend/app/blockchain/continuous/watch_registry.py:150-177` | with such timestamps, no execution is later than its watch's last update, and no update later than the last operation |
| `WatchRuns.RejectedExactlyWhenLive` | `backend/app/blockchain/continuous/watch_registry.py:57-59` | a registration is rejected exactly when a watch for its chain and address, up to case, is live |
| `WatchRuns.AtMostOneLive` | `backend/app/blockchain/continuous/watch_registry.py:45-96` | there is never more than one live watch for a chain and an address |
| `WatchModels.MergeMeans` | `backend/app/blockchain/continuous/protocol_subscription.py:67-77` | the merged configuration has the schedule of the update, its cron expression and timezone where it gives them, and under every key the value of the update where it has one |
| `WatchModels.SchedulesRunNext` | `backend/app/blockchain/continuous/scheduler.py:13-72` | the next execution is one hour, one day or one week later, in microseconds, and there is none for manual and cron schedules |
| `WatchModels.EventIdTells` | `backend/app/blockchain/continuous/protocol_subscription.py:80-84` | with colon-free digests, two event identifiers are equal exactly when watch, kind and the digests of watch, kind and time agree |
| `WatchRuns.RegistrationAnswers` | `backend/app/blockchain/continuous/watch_registry.py:45-96` | field by field, the new watch and the one or two events; or an error and no change |
| `WatchRuns.UpdateAnswers` | `backend/app/blockchain/continuous/watch_registry.py:111-140` | field by field, the updated watch: merged configuration, rescheduled from now when enabled and otherwise cleared, all else kept; and the event |
| `WatchRuns.ExecutionAnswers` | `backend/app/blockchain/continuous/watch_registry.py:150-177` | field by field, the executed watch: a non-empty baseline kept and otherwise the snapshot taken, rescheduled when enabled and otherwise as it was; and the event |
| `WatchRuns.TransitionAnswers` | `backend/app/blockchain/continuous/watch_manager.py:24-105` | field by field, what enabling, disabling, pausing and resuming leave, and their events |
| `WatchRuns.RemovalAnswers` | `backend/app/blockchain/continuous/watch_registry.py:98-109` | a removal drops exactly the one watch and logs its name; what needs a watch that is not there fails and changes nothing |
| `WatchRuns.BaselineStays` | `backend/app/blockchain/continuous/watch_registry.py:150-177` | over any run, a non-empty baseline is what it is until its watch is removed |
| `WatchRegistries.WatchRegistry.Register` | `backend/app/blockchain/continuous/watch_registry.py:45-96` | a watch already live under the identifier is rejected and nothing changes; otherwise the new watch is stored enabled, and REGISTERED and, when it has a schedule, SCHEDULED are appended, in this order |
| `WatchRegistries.WatchRegistry.Remove` | `backend/app/blockchain/continuous/watch_registry.py:98-109` | removes the watch and appends one event of the given kind, or fails and changes nothing |
| `WatchRegistries.WatchRegistry.UpdateConfiguration` | `backend/app/blockchain/continuous/watch_registry.py:111-140` | merges, reschedules only an enabled watch, appends one event, or fails and changes nothing; key by key, the update wins over the current metadata |
| `WatchRegistries.WatchRegistry.RecordExecution` | `backend/app/blockchain/continuous/watch_registry.py:150-177` | keeps a non-empty baseline, stamps the execution, reschedules only an enabled watch, appends one event |
| `WatchRegistries.WatchManager.Transition` | `backend/app/blockchain/continuous/watch_manager.py:73-105` | status, schedule and update time of one watch change, one event is appended, nothing else changes; an unknown watch changes nothing |
| `WatchRegistries.WatchManager.Enable` | `backend/app/blockchain/continuous/watch_manager.py:24-32` | from any status the watch becomes ENABLED, is scheduled from the given moment by its configuration, and one ENABLED event is appended; an unknown watch fails and changes nothing |
| `WatchRegistries.WatchManager.Disable` | `backend/app/blockchain/continuous/watch_manager.py:34-42` | the watch becomes DISABLED with no next execution, keeping configuration, baseline and last execution; one DISABLED event; an unknown watch fails and changes nothing |
| `WatchRegistries.WatchManager.Pause` | `backend/app/blockchain/continuous/watch_manager.py:44-52` | the watch becomes PAUSED with no next execution, keeping configuration, baseline and last execution; one PAUSED event; an unknown watch fails and changes nothing |
| `WatchRegistries.WatchManager.Resume` | `backend/app/blockchain/continuous/watch_manager.py:54-65` | a paused watch becomes ENABLED and is scheduled anew, with one RESUMED event; any other status, and an unknown watch, fail with different errors and change nothing |
| `WatchRegistries.WatchManager.Delete` | `backend/app/blockchain/continuous/watch_manager.py:67-71` | the watch is gone and one DELETED event is appended; an unknown watch fails and changes nothing |
| `WatchRegistries.InMemoryWatchPersistence.ListSubscriptions` | `backend/app/blockchain/continuous/persistence.py:66-70` | every stored record exactly once, by strictly increasing identifier |
| `WatchRegistries.InMemoryWatchPersistence.ListEvents` | `backend/app/blockchain/continuous/persistence.py:75-79` | the whole log, or each event of one watch as often as the log has it |
| `WatchRegistries.EventsOfJoin` | `backend/app/blockchain/continuous/persistence.py:75-79` | the events of one watch keep the order of the log |
| `WatchPersistences.SubscriptionRoundTrip` | `backend/app/blockchain/continuous/persistence.py:82-109` | reading back a written subscription gives it with its root address lowered, and nothing else changed |
| `WatchPersistences.EventRoundTrip` | `backend/app/blockchain/continuous/persistence.py:112-131` | reading back a written event gives the same event |
| `WatchPersistences.LoadAfterDump` | `backend/app/blockchain/continuous/persistence.py:134-154` | a dump and load gives the same events in order and the same subscriptions with root addresses lowered, for every store keyed by identifier |
| `WatchPersistences.RoundTripExactlyWhenLower` | `backend/app/blockchain/continuous/persistence.py:168-176` | a dump and load restores a store if and only if its root addresses are lower case |
| `WatchPersistences.MixedCaseStoreIsNotRestored` | `backend/app/blockchain/continuous/persistence.py:168-176` | a store keyed by identifier that does not come back |
| `WatchPersistences.ReachableStoresRoundTrip` | `backend/app/blockchain/continuous/persistence.py:134-154` | every store the registry can reach comes back as it was |
| `WatchPersistences.DumpStore` | `backend/app/blockchain/continuous/persistence.py:134-143` | every stored record is written exactly once, by strictly increasing identifier, and every event in order; the dump is the one the round trips are about |
| `WatchPersistences.KeysWritten` | `backend/app/blockchain/continuous/persistence.py:82-120` | the keys of the records written |
| `WatchPersistences.LoadedSubscriptions` | `backend/app/blockchain/continuous/persistence.py:150-151` | loading succeeds exactly when every subscription is readable; of several with one identifier the last counts |
| `WatchPersistences.LoadedEvents` | `backend/app/blockchain/continuous/persistence.py:152-153` | every event has to be readable, and they keep their order and number |
| `WatchPersistences.KeysRequired` | `backend/app/blockchain/continuous/persistence.py:97-131` | the keys without which a record is not readable |
| `WatchPersistences.Defaults` | `backend/app/blockchain/continuous/persistence.py:183-201` | what stands in for missing entries: manual, no cron expression, UTC, no metadata, and the epoch for a null timestamp |
| `WatchPersistences.Coercions` | `backend/app/blockchain/continuous/persistence.py:97-131` | how numbers, truth values, nulls and texts are taken where a text, an integer or a dictionary is expected |
| `WatchPersistences.LoadStore` | `backend/app/blockchain/continuous/persistence.py:146-154` | a new object holding every record, or none at all exactly when some record cannot be read |
| `TradeEncoding.DecodeAmountsOut` | `backend/app/blockchain/trade_encoding.py:97-112` | nothing below 64 bytes or when the length word is missing; otherwise the words after it, at most as many as announced and fewer only where the next is not there in full |
| `TradeEncoding.DecodeInvertsEncode` | `backend/app/blockchain/trade_encoding.py:97-112` | inverts the standard encoding of every `uint256[]`, whatever bytes follow (Solidity Contract ABI Specification, section "Formal Specification of the Encoding") |
| `TradeEncoding.TruncatedEncoding` | `backend/app/blockchain/trade_encoding.py:106-111` | on an encoding cut off after at least 64 bytes, exactly the elements whose words are wholly present come back |
| `TradeEncoding.DecodeUint256Inverts` | `backend/app/blockchain/trade_encoding.py:91-94` | whatever comes before it, a trailing encoded word is read back |
| `TradeEncoding.DecodeUint256Is` | `backend/app/blockchain/trade_encoding.py:91-94` | zero below 32 bytes, and the last 32 bytes otherwise |
| `TradeEncoding.BigEndian` | `backend/app/blockchain/trade_encoding.py:94-94` | the first byte counts most |

## Left out

- FindCycles: where a target is listed twice under one key, which no assembled graph does, how often a cycle is listed is not stated.
- TopologicalSort: where nodes that have neighbours differ only in case, the listing is determined and its emptiness has an exact condition, but which of those listings are topological orders is not stated.
- ResolveBatches: stated for consistent graphs, as the scheduler is; a graph with repeated nodes, with a target listed twice under one key, or with edges out of an address that is no node, cannot come from the builder.
- RunBatch: cancellation, and errors the retry does not catch, are not steps of the pool.
- ExecuteWithRetry: the outcome of an attempt is a function of address and attempt number; the delay between attempts, durations and clock readings are left out, in metrics too.
- MarkSkippedNodes: nodes are visited in list order, which for unique addresses is the dictionary's insertion order.
- ScanRun: `max_workers` and `max_attempts` below one, which the constructors reject, are preconditions.
- AggregateProtocolEvidence: the risk score is a real instead of a decimal, and durations are left out.
- DedupeEdges: the dictionary is keyed by type, source and target, the order edges are sorted by; the original's key holds the same three in another order.
- Classify: metadata values are texts, numbers, flags or opaque others; the confidence read back is zero where it is not a number.
- Validate: the wording of issues.
- Register: the event identifier's hash is a parameter; nothing depends on it being injective.
- Remove: answers with the removed record instead of a truth value, and takes its timestamp as a parameter instead of the clock.
- RecordEvent: `save_subscription` and `emit_event` called with arbitrary records by outside code.
- ComputeCronNext: always None, as in the original, where it is a placeholder.
- LoadStore: JSON text and the ISO date format are replaced by exact encodings; `str()` of an array or an object, numerals with blanks, a plus sign or underscores, and a baseline or cron expression of another type count as unreadable.
- Lower: letters outside ASCII.
- Recursion: Python's recursion limit in `dfs` and `find_cycles`.
- Decoder neighbours: `decode_address`, the call encoders and `compute_tax_bps`.
- Everything around these cores: network, database and web layers, detectors, risk engine, reports and the frontend.
