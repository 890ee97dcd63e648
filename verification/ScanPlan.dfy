/** Dependency layering. `good` is the set of addresses whose scan succeeds: the static
    planner is the case where every scan does, a run is any other case. */
module ScanPlan {
  import opened Ordering
  import opened ProtocolGraphs

  datatype ExecutionBatch = ExecutionBatch(batchIndex: nat, addresses: seq<string>)

  /** The nodes scanned in the first `n` rounds: a node is due in the round after all its
      dependencies have been scanned successfully. */
  ghost function Scanned(g: ProtocolGraph, good: set<string>, n: nat): set<string> {
    if n == 0 then {}
    else set v | v in Addresses(g) && Dependencies(g, v) <= Scanned(g, good, n - 1) * good
  }

  /** The nodes scanned in round `n`. */
  ghost function Layer(g: ProtocolGraph, good: set<string>, n: nat): set<string> {
    Scanned(g, good, n + 1) - Scanned(g, good, n)
  }

  /** Everything that is ever scanned. */
  ghost function EverScanned(g: ProtocolGraph, good: set<string>): set<string> {
    Scanned(g, good, |Addresses(g)|)
  }

  lemma {:induction false} ScannedGrows(g: ProtocolGraph, good: set<string>, n: nat)
    ensures Scanned(g, good, n) <= Scanned(g, good, n + 1)
  {
    if n > 0 {
      ScannedGrows(g, good, n - 1);
      hide Dependencies, Addresses;
    }
  }

  lemma {:induction false} ScannedMonotone(g: ProtocolGraph, good: set<string>, m: nat, n: nat)
    requires m <= n
    ensures Scanned(g, good, m) <= Scanned(g, good, n)
    decreases n
  {
    if m < n {
      ScannedMonotone(g, good, m, n - 1);
      ScannedGrows(g, good, n - 1);
      hide Scanned;
    }
  }

  lemma ScannedAreNodes(g: ProtocolGraph, good: set<string>, n: nat)
    ensures Scanned(g, good, n) <= Addresses(g)
  {
  }

  lemma LayerEmpty(g: ProtocolGraph, good: set<string>, n: nat)
    ensures Layer(g, good, n) == {} <==> Scanned(g, good, n + 1) == Scanned(g, good, n)
  {
    ScannedGrows(g, good, n);
    hide Scanned;
    DifferenceEmpty(Scanned(g, good, n + 1), Scanned(g, good, n));
  }

  lemma {:induction false} StaysSettled(g: ProtocolGraph, good: set<string>, m: nat, n: nat)
    requires m <= n && Layer(g, good, m) == {}
    ensures Scanned(g, good, n) == Scanned(g, good, m) && Layer(g, good, n) == {}
    decreases n
  {
    if m < n {
      StaysSettled(g, good, m, n - 1);
      LayerEmpty(g, good, n - 1);
      SameNext(g, good, n - 1);
      LayerEmpty(g, good, n);
    }
  }

  lemma SameNext(g: ProtocolGraph, good: set<string>, n: nat)
    requires Scanned(g, good, n + 1) == Scanned(g, good, n)
    ensures Scanned(g, good, n + 2) == Scanned(g, good, n + 1)
  {
    hide Dependencies, Addresses;
  }

  /** Until it settles, every round scans something. */
  lemma {:induction false} GrowthBound(g: ProtocolGraph, good: set<string>, n: nat)
    requires forall k | 0 <= k < n :: Layer(g, good, k) != {}
    ensures |Scanned(g, good, n)| >= n && n <= |Addresses(g)|
  {
    hide Scanned, Addresses;
    if n > 0 {
      GrowthBound(g, good, n - 1);
      ScannedGrows(g, good, n - 1);
      var a, b := Scanned(g, good, n - 1), Scanned(g, good, n);
      assert Layer(g, good, n - 1) == b - a;
      assert b == a + (b - a);
      assert |b - a| > 0;
    }
    ScannedAreNodes(g, good, n);
    SubsetCardinality(Scanned(g, good, n), Addresses(g));
  }

  /** There are at most as many rounds as nodes. */
  lemma Settles(g: ProtocolGraph, good: set<string>)
    ensures Layer(g, good, |Addresses(g)|) == {}
    ensures forall n: nat :: Scanned(g, good, n) <= EverScanned(g, good)
    ensures forall n: nat | Layer(g, good, n) == {} :: Scanned(g, good, n) == EverScanned(g, good)
  {
    var size := |Addresses(g)|;
    if Layer(g, good, size) != {} {
      if k: nat :| k <= size && Layer(g, good, k) == {} {
        StaysSettled(g, good, k, size);
      } else {
        GrowthBound(g, good, size + 1);
      }
    }
    forall n: nat ensures Scanned(g, good, n) <= EverScanned(g, good) {
      if n <= size { ScannedMonotone(g, good, n, size); } else { StaysSettled(g, good, size, n); }
    }
    forall n: nat | Layer(g, good, n) == {} ensures Scanned(g, good, n) == EverScanned(g, good) {
      if n <= size { StaysSettled(g, good, n, size); } else { StaysSettled(g, good, size, n); }
    }
  }

  // ---- the fixed point ----

  /** Nodes that succeed with all dependencies in `s`. */
  ghost function Supported(g: ProtocolGraph, good: set<string>, s: set<string>): set<string> {
    set v | v in Addresses(g) && v in good && Dependencies(g, v) <= s
  }

  /** The nodes that complete are the least solution of "succeeds, and every dependency
      completes", on cyclic graphs too. */
  lemma CompletedIsLeastFixedPoint(g: ProtocolGraph, good: set<string>)
    ensures var done := EverScanned(g, good) * good;
            Supported(g, good, done) == done &&
            forall s | Supported(g, good, s) <= s :: done <= s
  {
    Settles(g, good);
    var size := |Addresses(g)|;
    ScannedGrows(g, good, size);
    assert Scanned(g, good, size + 1) == EverScanned(g, good);
    forall s | Supported(g, good, s) <= s ensures EverScanned(g, good) * good <= s {
      ScannedWithin(g, good, s, size);
    }
  }

  lemma {:induction false} ScannedWithin(g: ProtocolGraph, good: set<string>, s: set<string>, n: nat)
    requires Supported(g, good, s) <= s
    ensures Scanned(g, good, n) * good <= s
  {
    if n > 0 {
      ScannedWithin(g, good, s, n - 1);
      forall v | v in Scanned(g, good, n) * good ensures v in s {
        assert v in Supported(g, good, s);
      }
    }
  }

  /** A node is scanned exactly when every dependency is scanned successfully. */
  lemma ScannedWhenDependenciesComplete(g: ProtocolGraph, good: set<string>, v: string)
    requires v in Addresses(g)
    ensures v in EverScanned(g, good) <==> Dependencies(g, v) <= EverScanned(g, good) * good
  {
    Settles(g, good);
    ScannedGrows(g, good, |Addresses(g)|);
    assert Scanned(g, good, |Addresses(g)| + 1) == EverScanned(g, good);
  }

  // ---- the planner's layers are longest chains ----

  /** Some dependency chain of exactly `n` edges ends at `v`. */
  ghost predicate ChainInto(g: ProtocolGraph, v: string, n: nat) {
    exists p :: Chain(g, p) && |p| == n + 1 && p[n] == v
  }

  /** Planned within the first `n` rounds means: no chain of `n` edges ends here. */
  lemma {:induction false} PlannedWithin(g: ProtocolGraph, v: string, n: nat)
    requires Consistent(g) && v in Addresses(g)
    ensures v in Scanned(g, Addresses(g), n) <==> !ChainInto(g, v, n)
    decreases n
  {
    hide Dependencies, Scanned, Addresses, Consistent, ChainInto;
    if n == 0 {
      NoChainYet(g, v);
    } else {
      ChainsExtend(g, v, n);
      DependenciesAreNodes(g, v);
      forall u | u in Dependencies(g, v) ensures u in Scanned(g, Addresses(g), n - 1) <==> !ChainInto(g, u, n - 1) {
        PlannedWithin(g, u, n - 1);
      }
      PlannedStep(g, v, n);
    }
  }

  lemma NoChainYet(g: ProtocolGraph, v: string)
    ensures Scanned(g, Addresses(g), 0) == {} && ChainInto(g, v, 0)
  {
    assert Chain(g, [v]) && [v][0] == v;
  }

  lemma PlannedStep(g: ProtocolGraph, v: string, n: nat)
    requires n > 0 && v in Addresses(g) && Dependencies(g, v) <= Addresses(g)
    ensures v in Scanned(g, Addresses(g), n) <==>
            forall u | u in Dependencies(g, v) :: u in Scanned(g, Addresses(g), n - 1)
  {
    hide Dependencies, Addresses;
  }

  lemma ChainsExtend(g: ProtocolGraph, v: string, n: nat)
    requires n > 0
    ensures ChainInto(g, v, n) <==> exists u :: u in Dependencies(g, v) && ChainInto(g, u, n - 1)
  {
    hide Dependencies;
    if p :| Chain(g, p) && |p| == n + 1 && p[n] == v {
      assert p[n - 1] in Dependencies(g, p[(n - 1) + 1]);
      ChainSlice(g, p, 0, n);
      assert Chain(g, p[..n]) && p[..n][n - 1] == p[n - 1];
    }
    if u :| u in Dependencies(g, v) && ChainInto(g, u, n - 1) {
      var p :| Chain(g, p) && |p| == n && p[n - 1] == u;
      assert Chain(g, p + [v]) && (p + [v])[n] == v;
    }
  }

  lemma {:induction false} ChainsShorten(g: ProtocolGraph, v: string, m: nat, n: nat)
    requires m <= n && ChainInto(g, v, n)
    ensures ChainInto(g, v, m)
  {
    var p :| Chain(g, p) && |p| == n + 1 && p[n] == v;
    ChainSlice(g, p, n - m, n + 1);
    assert Chain(g, p[n - m..]) && |p[n - m..]| == m + 1 && p[n - m..][m] == v;
  }

  /** A node's batch index is the length of the longest dependency chain ending at it. */
  lemma BatchIndexIsLongestChain(g: ProtocolGraph, v: string, n: nat)
    requires Consistent(g) && v in Addresses(g)
    ensures v in Layer(g, Addresses(g), n) <==> ChainInto(g, v, n) && forall m | m > n :: !ChainInto(g, v, m)
  {
    hide Scanned, Addresses, ChainInto, Consistent;
    PlannedWithin(g, v, n);
    PlannedWithin(g, v, n + 1);
    forall m | m > n && ChainInto(g, v, m) ensures ChainInto(g, v, n + 1) { ChainsShorten(g, v, n + 1, m); }
  }

  /** On a cycle, or depending on one. */
  ghost predicate DownstreamOfCycle(g: ProtocolGraph, v: string) {
    exists c :: ClosedChain(g, c) && (c[0] == v || FeedsInto(g, c[0], v))
  }

  /** The planner leaves out exactly the nodes on a cycle or reachable from one. */
  lemma UnplannedIsDownstreamOfCycle(g: ProtocolGraph, v: string)
    requires Consistent(g) && v in Addresses(g)
    ensures v !in EverScanned(g, Addresses(g)) <==> DownstreamOfCycle(g, v)
  {
    hide Scanned, Addresses, Consistent, DownstreamOfCycle;
    var size := |Addresses(g)|;
    if v !in EverScanned(g, Addresses(g)) {
      PlannedWithin(g, v, size);
      var p :| Chain(g, p) && |p| == size + 1 && p[size] == v;
      LongChainHasCycle(g, v, p);
    }
    if DownstreamOfCycle(g, v) { NeverPlanned(g, Addresses(g), v, size); }
  }

  lemma LongChainHasCycle(g: ProtocolGraph, v: string, p: seq<string>)
    requires Consistent(g) && v in Addresses(g) && Chain(g, p) && |p| == |Addresses(g)| + 1 && p[|p| - 1] == v
    ensures DownstreamOfCycle(g, v)
  {
    ChainStaysInside(g, p);
    var i, j := LongChainCloses(g, p, Addresses(g));
    ChainSlice(g, p, i, |p|);
    assert ClosedChain(g, p[i..j + 1]) && p[i..j + 1][0] == p[i];
    assert Chain(g, p[i..]) && p[i..][|p| - i - 1] == v;
  }

  lemma {:induction false} NeverPlanned(g: ProtocolGraph, good: set<string>, v: string, n: nat)
    requires DownstreamOfCycle(g, v)
    ensures v !in Scanned(g, good, n)
    decreases n
  {
    hide DownstreamOfCycle, Dependencies, Addresses;
    if n > 0 {
      var u := CycleUpstream(g, v);
      NeverPlanned(g, good, u, n - 1);
    }
  }

  lemma CycleUpstream(g: ProtocolGraph, v: string) returns (u: string)
    requires DownstreamOfCycle(g, v)
    ensures u in Dependencies(g, v) && DownstreamOfCycle(g, u)
  {
    hide Dependencies;
    var c :| ClosedChain(g, c) && (c[0] == v || FeedsInto(g, c[0], v));
    if c[0] == v {
      u := UpstreamEnd(g, c);
    } else {
      var p :| Chain(g, p) && |p| > 1 && p[0] == c[0] && p[|p| - 1] == v;
      u := UpstreamEnd(g, p);
    }
  }

  /** The entry before the last of a chain: the last depends on it, and it is the first or
      depends on the first. */
  lemma UpstreamEnd(g: ProtocolGraph, p: seq<string>) returns (u: string)
    requires Chain(g, p) && |p| > 1
    ensures u in Dependencies(g, p[|p| - 1]) && (u == p[0] || FeedsInto(g, p[0], u))
    ensures u == p[|p| - 2]
  {
    hide Dependencies;
    u := p[|p| - 2];
    assert p[|p| - 2] in Dependencies(g, p[(|p| - 2) + 1]);
    if |p| > 2 {
      ChainSlice(g, p, 0, |p| - 1);
      assert Chain(g, p[..|p| - 1]) && p[..|p| - 1][|p| - 2] == u;
    }
  }

  // ---- a run against the plan ----

  /** Everything that `v` depends on, directly or through others, has a successful scan. */
  ghost predicate AncestorsSucceed(g: ProtocolGraph, good: set<string>, v: string) {
    forall u | FeedsInto(g, u, v) :: u in good
  }

  lemma FeedsDirectly(g: ProtocolGraph, u: string, v: string)
    requires u in Dependencies(g, v)
    ensures FeedsInto(g, u, v)
  {
    assert Chain(g, [u, v]) && [u, v][1] == v;
  }

  lemma FeedsThrough(g: ProtocolGraph, w: string, u: string, v: string)
    requires FeedsInto(g, w, u) && u in Dependencies(g, v)
    ensures FeedsInto(g, w, v)
  {
    hide Dependencies;
    var p :| Chain(g, p) && |p| > 1 && p[0] == w && p[|p| - 1] == u;
    assert Chain(g, p + [v]) && (p + [v])[|p|] == v;
  }

  /** The ancestors of a node are its dependencies and theirs. */
  lemma AncestorsOfDependencies(g: ProtocolGraph, good: set<string>, v: string)
    ensures AncestorsSucceed(g, good, v) <==>
            forall u | u in Dependencies(g, v) :: u in good && AncestorsSucceed(g, good, u)
  {
    hide FeedsInto, Dependencies;
    if AncestorsSucceed(g, good, v) {
      forall u | u in Dependencies(g, v) ensures u in good && AncestorsSucceed(g, good, u) {
        FeedsDirectly(g, u, v);
        forall w | FeedsInto(g, w, u) ensures w in good { FeedsThrough(g, w, u, v); }
      }
    }
    if forall u | u in Dependencies(g, v) :: u in good && AncestorsSucceed(g, good, u) {
      forall w | FeedsInto(g, w, v) ensures w in good {
        var u := LastDependency(g, w, v);
      }
    }
  }

  lemma LastDependency(g: ProtocolGraph, w: string, v: string) returns (u: string)
    requires FeedsInto(g, w, v)
    ensures u in Dependencies(g, v) && (u == w || FeedsInto(g, w, u))
  {
    var p :| Chain(g, p) && |p| > 1 && p[0] == w && p[|p| - 1] == v;
    u := UpstreamEnd(g, p);
  }

  /** A run scans a node within `n` rounds exactly when the plan does and every scan it
      transitively depends on succeeds. */
  lemma {:induction false} RunAgainstPlan(g: ProtocolGraph, good: set<string>, v: string, n: nat)
    requires Consistent(g) && v in Addresses(g)
    ensures v in Scanned(g, good, n) <==> v in Scanned(g, Addresses(g), n) && AncestorsSucceed(g, good, v)
    decreases n
  {
    hide Consistent, AncestorsSucceed, Dependencies, Addresses;
    if n > 0 {
      DependenciesAreNodes(g, v);
      AncestorsOfDependencies(g, good, v);
      forall u | u in Dependencies(g, v)
        ensures u in Scanned(g, good, n - 1) <==> u in Scanned(g, Addresses(g), n - 1) && AncestorsSucceed(g, good, u)
      {
        RunAgainstPlan(g, good, u, n - 1);
      }
    }
  }

  /** Each scanned node runs in exactly its planned round. */
  lemma RunKeepsPlannedRound(g: ProtocolGraph, good: set<string>, v: string, n: nat)
    requires Consistent(g) && v in Addresses(g)
    ensures v in Layer(g, good, n) <==> v in Layer(g, Addresses(g), n) && AncestorsSucceed(g, good, v)
  {
    hide Consistent, AncestorsSucceed, Scanned, Addresses;
    RunAgainstPlan(g, good, v, n);
    RunAgainstPlan(g, good, v, n + 1);
  }

  /** Two scanned nodes joined by an edge run in that order, in different rounds. */
  lemma EdgesCrossRounds(g: ProtocolGraph, good: set<string>, u: string, v: string, i: nat, j: nat)
    requires u in Dependencies(g, v)
    requires u in Layer(g, good, i) && v in Layer(g, good, j)
    ensures i < j && u in good
  {
    assert u in Scanned(g, good, j) * good;
    if j <= i { ScannedMonotone(g, good, j, i); }
  }

  // ---- batches ----

  ghost function BatchAt(g: ProtocolGraph, good: set<string>, n: nat): ExecutionBatch {
    ExecutionBatch(n, SortedSet(Layer(g, good, n)))
  }

  /** How many nodes are not scanned in the first `n` rounds. */
  ghost function Unscanned(g: ProtocolGraph, good: set<string>, n: nat): nat {
    |Addresses(g) - Scanned(g, good, n)|
  }

  ghost function BatchesFrom(g: ProtocolGraph, good: set<string>, n: nat): seq<ExecutionBatch>
    decreases Unscanned(g, good, n)
  {
    if Layer(g, good, n) == {} then []
    else
      LayerShrinksRest(g, good, n);
      [BatchAt(g, good, n)] + BatchesFrom(g, good, n + 1)
  }

  lemma LayerShrinksRest(g: ProtocolGraph, good: set<string>, n: nat)
    requires Layer(g, good, n) != {}
    ensures Unscanned(g, good, n + 1) < Unscanned(g, good, n)
  {
    ScannedGrows(g, good, n);
    ScannedAreNodes(g, good, n + 1);
    var a, b := Addresses(g) - Scanned(g, good, n + 1), Addresses(g) - Scanned(g, good, n);
    var v :| v in Layer(g, good, n);
    hide Scanned, Addresses;
    SubsetCardinality(a, b - {v});
  }

  /** The batches of a run, or of the plan when `good` is everything. */
  ghost function Batches(g: ProtocolGraph, good: set<string>): seq<ExecutionBatch> {
    BatchesFrom(g, good, 0)
  }

  /** `all` lists the rounds in order, up to the first empty one. */
  ghost predicate AreBatches(g: ProtocolGraph, good: set<string>, all: seq<ExecutionBatch>) {
    && (forall i | 0 <= i < |all| :: all[i] == BatchAt(g, good, i) && Layer(g, good, i) != {})
    && Layer(g, good, |all|) == {}
  }

  lemma {:induction false} BatchesFromAre(g: ProtocolGraph, good: set<string>, all: seq<ExecutionBatch>, n: nat)
    requires AreBatches(g, good, all) && n <= |all|
    ensures BatchesFrom(g, good, n) == all[n..]
    decreases |all| - n
  {
    hide Layer, BatchAt;
    if n < |all| { BatchesFromAre(g, good, all, n + 1); }
  }

  lemma {:induction false} BatchesExtend(g: ProtocolGraph, good: set<string>, prefix: seq<ExecutionBatch>)
    requires forall i | 0 <= i < |prefix| :: prefix[i] == BatchAt(g, good, i) && Layer(g, good, i) != {}
    ensures AreBatches(g, good, prefix + BatchesFrom(g, good, |prefix|))
    decreases Unscanned(g, good, |prefix|)
  {
    var n := |prefix|;
    hide Layer, BatchAt, Scanned, Addresses;
    if Layer(g, good, n) == {} {
      assert prefix + BatchesFrom(g, good, n) == prefix;
    } else {
      LayerShrinksRest(g, good, n);
      BatchesExtend(g, good, prefix + [BatchAt(g, good, n)]);
      assert prefix + BatchesFrom(g, good, n) == prefix + [BatchAt(g, good, n)] + BatchesFrom(g, good, n + 1);
    }
  }

  lemma BatchesAre(g: ProtocolGraph, good: set<string>, all: seq<ExecutionBatch>)
    ensures AreBatches(g, good, all) <==> all == Batches(g, good)
  {
    hide Layer, BatchAt, Scanned, Addresses, BatchesFrom;
    BatchesExtend(g, good, []);
    assert [] + Batches(g, good) == Batches(g, good);
    if AreBatches(g, good, all) { BatchesFromAre(g, good, all, 0); }
  }

  /** The rounds recorded so far. */
  ghost predicate RoundsSoFar(g: ProtocolGraph, good: set<string>, batches: seq<ExecutionBatch>) {
    forall i | 0 <= i < |batches| :: batches[i] == BatchAt(g, good, i) && Layer(g, good, i) != {}
  }

  lemma NoRoundsYet(g: ProtocolGraph, good: set<string>)
    ensures RoundsSoFar(g, good, []) && Scanned(g, good, 0) == {}
  {
  }

  lemma AnotherRound(g: ProtocolGraph, good: set<string>, batches: seq<ExecutionBatch>, ready: seq<string>)
    requires RoundsSoFar(g, good, batches) && Layer(g, good, |batches|) != {}
    requires ready == SortedSet(Layer(g, good, |batches|))
    ensures RoundsSoFar(g, good, batches + [ExecutionBatch(|batches|, ready)])
  {
    hide Layer, Increasing, Distinct, SetOf, BatchAt;
    BatchIs(g, good, |batches|);
  }

  lemma BatchIs(g: ProtocolGraph, good: set<string>, n: nat)
    ensures BatchAt(g, good, n) == ExecutionBatch(n, SortedSet(Layer(g, good, n)))
  {
  }

  lemma RoundsComplete(g: ProtocolGraph, good: set<string>, batches: seq<ExecutionBatch>)
    requires RoundsSoFar(g, good, batches) && Layer(g, good, |batches|) == {}
    ensures batches == Batches(g, good)
  {
    BatchesAre(g, good, batches);
  }

  function Flatten(batches: seq<ExecutionBatch>): seq<string> {
    if batches == [] then [] else batches[0].addresses + Flatten(batches[1..])
  }

  lemma {:induction false} FlattenAppend(batches: seq<ExecutionBatch>, b: ExecutionBatch)
    ensures Flatten(batches + [b]) == Flatten(batches) + b.addresses
  {
    if batches == [] {
      assert [b][1..] == [];
    } else {
      FlattenAppend(batches[1..], b);
      assert (batches + [b])[1..] == batches[1..] + [b];
    }
  }

  lemma BatchHolds(g: ProtocolGraph, good: set<string>, i: nat)
    requires i < |Batches(g, good)|
    ensures forall v :: v in Batches(g, good)[i].addresses <==> v in Layer(g, good, i)
    ensures Layer(g, good, i) != {}
  {
    hide Layer;
    BatchesAre(g, good, Batches(g, good));
    forall v ensures v in Batches(g, good)[i].addresses <==> v in Layer(g, good, i) {
      NotInSetOf(BatchAt(g, good, i).addresses, v);
    }
  }

  /** The batch is the `i`-th, and its addresses are strictly increasing by code point. */
  ghost predicate InPlace(b: ExecutionBatch, i: nat) {
    b.batchIndex == i && forall j, k | 0 <= j < k < |b.addresses| :: Precedes(b.addresses[j], b.addresses[k])
  }

  /** Batches are numbered from zero, and each lists its round in increasing order. */
  lemma BatchContents(g: ProtocolGraph, good: set<string>, i: nat)
    requires i < |Batches(g, good)|
    ensures var b := Batches(g, good)[i];
            InPlace(b, i) && Distinct(b.addresses) && SetOf(b.addresses) == Layer(g, good, i) != {}
  {
    BatchesAre(g, good, Batches(g, good));
    hide Layer, Batches, StringLess, Precedes;
    StrictlyIncreasing(BatchAt(g, good, i).addresses);
  }

  lemma AllInPlace(g: ProtocolGraph, good: set<string>, batches: seq<ExecutionBatch>)
    requires batches == Batches(g, good)
    ensures forall i | 0 <= i < |batches| :: InPlace(batches[i], i)
  {
    hide Batches, InPlace, Layer;
    forall i | 0 <= i < |batches| ensures InPlace(batches[i], i) { BatchContents(g, good, i); }
  }

  /** A run never has more batches than the plan. */
  lemma RunIsNoLonger(g: ProtocolGraph, good: set<string>)
    requires Consistent(g)
    ensures |Batches(g, good)| <= |Batches(g, Addresses(g))|
  {
    hide Layer, AncestorsSucceed, Consistent, Addresses, Batches;
    var n := |Batches(g, Addresses(g))|;
    BatchesAre(g, Addresses(g), Batches(g, Addresses(g)));
    if n < |Batches(g, good)| {
      BatchHolds(g, good, n);
      var v :| v in Layer(g, good, n);
      RoundOfRunIsPlanned(g, good, v, n);
    }
  }

  /** Batch `i` of a run is the part of planned batch `i` whose transitive dependencies all
      succeed. */
  lemma RunBatchWithinPlan(g: ProtocolGraph, good: set<string>, i: nat, v: string)
    requires Consistent(g) && i < |Batches(g, good)|
    ensures i < |Batches(g, Addresses(g))|
    ensures v in Batches(g, good)[i].addresses <==>
            v in Batches(g, Addresses(g))[i].addresses && AncestorsSucceed(g, good, v)
  {
    hide Layer, AncestorsSucceed, Consistent, Addresses, Batches;
    RunIsNoLonger(g, good);
    BatchHolds(g, good, i);
    BatchHolds(g, Addresses(g), i);
    RoundOfRunIsPlanned(g, good, v, i);
  }

  lemma RoundOfRunIsPlanned(g: ProtocolGraph, good: set<string>, v: string, n: nat)
    requires Consistent(g)
    ensures v in Layer(g, good, n) <==> v in Layer(g, Addresses(g), n) && AncestorsSucceed(g, good, v)
  {
    if v in Addresses(g) {
      RunKeepsPlannedRound(g, good, v, n);
    } else {
      ScannedAreNodes(g, good, n + 1);
      ScannedAreNodes(g, Addresses(g), n + 1);
    }
  }
}
