/** The dependency-aware run: rounds of skip, select, scan, absorb until nothing is ready. */
module Schedulers {
  import opened Ordering
  import opened Text
  import opened ProtocolGraphs
  import opened ScanPlan
  import opened DependencyResolvers
  import opened NodeScans
  import opened WorkerPools

  const DEPENDENCY_FAILED := "dependency_failed"
  const UNRESOLVED_DEPENDENCIES := "unresolved_dependencies"

  /** The injected executor and the limits the constructors insist on. */
  datatype Settings = Settings(analyze: Analyzer, maxAttempts: nat, maxWorkers: nat)

  ghost predicate LegalSettings(s: Settings) { s.maxAttempts >= 1 && s.maxWorkers >= 1 }

  function ResultOf(s: Settings, a: string): NodeScanResult
    requires s.maxAttempts >= 1
  {
    ScanOf(s.analyze, s.maxAttempts, a)
  }

  /** The nodes whose scan succeeds if it is ever made. */
  ghost function Good(s: Settings, g: ProtocolGraph): set<string> {
    set a | a in Addresses(g) && Succeeds(s.analyze, s.maxAttempts, a)
  }

  /** A direct dependency failed. */
  ghost predicate FailedDependency(g: ProtocolGraph, failed: set<string>, a: string) {
    Dependencies(g, a) * failed != {}
  }

  /** What a run reports for every node. */
  ghost function FinalResult(s: Settings, g: ProtocolGraph, a: string): NodeScanResult
    requires s.maxAttempts >= 1
  {
    var scanned := EverScanned(g, Good(s, g));
    if a in scanned then ResultOf(s, a)
    else if FailedDependency(g, scanned - Good(s, g), a) then SkippedResult(a, DEPENDENCY_FAILED)
    else SkippedResult(a, UNRESOLVED_DEPENDENCIES)
  }

  ghost predicate Completes(s: Settings, g: ProtocolGraph, a: string)
    requires s.maxAttempts >= 1
  {
    FinalResult(s, g, a).status == Completed
  }

  ghost predicate Fails(s: Settings, g: ProtocolGraph, a: string)
    requires s.maxAttempts >= 1
  {
    FinalResult(s, g, a).status == Failed
  }

  /** What a report for `a` holds besides its status: of a completed scan the first analysis
      there was, of a failed one the last error, and of a skipped one that no attempt was made. */
  ghost predicate ReportedFor(s: Settings, r: NodeScanResult, a: string) {
    && r.address == a
    && (r.status == Completed ==> FirstSuccess(s.analyze, r))
    && (r.status == Failed ==> LastFailure(s.analyze, s.maxAttempts, r))
    && (r.status == Skipped ==> r.retryCount == 0 && r.analysis.None? && r.error.Some?)
    && r.status != Pending
  }

  lemma FinalReport(s: Settings, g: ProtocolGraph, a: string)
    requires LegalSettings(s)
    ensures ReportedFor(s, FinalResult(s, g, a), a)
  {
    ScanOutcome(s.analyze, s.maxAttempts, a);
    hide EverScanned, Good, FailedDependency, FirstSuccess, LastFailure, Succeeds, FirstReturn;
  }

  /** The final statuses solve the dependency rule, on cyclic graphs too. Together with
      `CompletedIsLeastFixedPoint` this determines every one of them. */
  lemma FinalStatuses(s: Settings, g: ProtocolGraph, a: string)
    requires LegalSettings(s) && Consistent(g) && a in Addresses(g)
    ensures var r := FinalResult(s, g, a);
            && (r.status == Completed <==>
                  Succeeds(s.analyze, s.maxAttempts, a) && forall d | d in Dependencies(g, a) :: Completes(s, g, d))
            && (r.status == Failed <==>
                  !Succeeds(s.analyze, s.maxAttempts, a) && forall d | d in Dependencies(g, a) :: Completes(s, g, d))
            && (r.status == Skipped <==> exists d :: d in Dependencies(g, a) && !Completes(s, g, d))
            && (r.status == Skipped ==>
                  (r.error == Some("dependency_failed") <==> exists d :: d in Dependencies(g, a) && Fails(s, g, d)) &&
                  (r.error != Some("dependency_failed") ==> r.error == Some("unresolved_dependencies")))
    ensures ReportedFor(s, FinalResult(s, g, a), a)
  {
    hide Consistent, Dependencies, EverScanned, Good, Addresses, FinalResult, Completes, Fails, Succeeds,
      FailedDependency;
    hide ReportedFor;
    FinalReport(s, g, a);
    ScannedWhenDependenciesComplete(g, Good(s, g), a);
    DependenciesAreNodes(g, a);
    FinalStatus(s, g, a);
    if a !in EverScanned(g, Good(s, g)) { SkipReason(s, g, a); }
    forall d | d in Dependencies(g, a)
      ensures Completes(s, g, d) <==> d in EverScanned(g, Good(s, g)) * Good(s, g)
      ensures Fails(s, g, d) <==> d in EverScanned(g, Good(s, g)) - Good(s, g)
    {
      EndsAs(s, g, d);
    }
    MeetsFailures(g, EverScanned(g, Good(s, g)) - Good(s, g), a);
  }

  lemma EndsAs(s: Settings, g: ProtocolGraph, a: string)
    requires LegalSettings(s) && a in Addresses(g)
    ensures Completes(s, g, a) <==> a in EverScanned(g, Good(s, g)) * Good(s, g)
    ensures Fails(s, g, a) <==> a in EverScanned(g, Good(s, g)) - Good(s, g)
  {
    FinalStatus(s, g, a);
    hide EverScanned, Good, FinalResult;
  }

  lemma SkipReason(s: Settings, g: ProtocolGraph, a: string)
    requires LegalSettings(s) && a !in EverScanned(g, Good(s, g))
    ensures FinalResult(s, g, a).error == Some(
              if FailedDependency(g, EverScanned(g, Good(s, g)) - Good(s, g), a) then DEPENDENCY_FAILED
              else UNRESOLVED_DEPENDENCIES)
    ensures DEPENDENCY_FAILED != UNRESOLVED_DEPENDENCIES
  {
    hide EverScanned, Good, FailedDependency;
    assert DEPENDENCY_FAILED[0] != UNRESOLVED_DEPENDENCIES[0];
  }

  lemma MeetsFailures(g: ProtocolGraph, failed: set<string>, a: string)
    ensures FailedDependency(g, failed, a) <==> exists d :: d in Dependencies(g, a) && d in failed
  {
    hide Dependencies;
    if d :| d in Dependencies(g, a) && d in failed { assert d in Dependencies(g, a) * failed; }
  }

  lemma FinalStatus(s: Settings, g: ProtocolGraph, a: string)
    requires LegalSettings(s) && a in Addresses(g)
    ensures var r := FinalResult(s, g, a);
            && (r.status == Completed <==> a in EverScanned(g, Good(s, g)) * Good(s, g))
            && (r.status == Failed <==> a in EverScanned(g, Good(s, g)) - Good(s, g))
            && (r.status == Skipped <==> a !in EverScanned(g, Good(s, g)))
            && (a in Good(s, g) <==> Succeeds(s.analyze, s.maxAttempts, a))
  {
    hide EverScanned;
    ScanOutcome(s.analyze, s.maxAttempts, a);
  }

  // ---- the ledger of node results ----

  /** A node's entry when the scans of `done` have been absorbed and the dependents of
      `failed` have been skipped. */
  ghost function Entry(s: Settings, g: ProtocolGraph, done: set<string>, failed: set<string>, a: string): NodeScanResult
    requires s.maxAttempts >= 1
  {
    if a in done then ResultOf(s, a)
    else if FailedDependency(g, failed, a) then SkippedResult(a, DEPENDENCY_FAILED)
    else PendingResult(a)
  }

  /** The dictionary, with the skipping of dependents of `after` done for the addresses in
      `part` and only of dependents of `before` elsewhere. */
  ghost predicate Marking(
    s: Settings, g: ProtocolGraph, results: map<string, NodeScanResult>, done: set<string>, before: set<string>,
    after: set<string>,
    part: set<string>)
    requires s.maxAttempts >= 1
  {
    && results.Keys == Addresses(g)
    && forall a | a in results :: results[a] == Entry(s, g, done, if a in part then after else before, a)
  }

  ghost predicate Ledger(
    s: Settings, g: ProtocolGraph, results: map<string, NodeScanResult>, done: set<string>, failed: set<string>)
    requires s.maxAttempts >= 1
  {
    Marking(s, g, results, done, failed, failed, {})
  }

  /** Whose scans have failed among those made. */
  ghost function FailuresIn(s: Settings, g: ProtocolGraph, done: set<string>): set<string> { done - Good(s, g) }

  lemma EntryStatus(s: Settings, g: ProtocolGraph, done: set<string>, failed: set<string>, a: string)
    requires LegalSettings(s) && a in Addresses(g)
    ensures var e := Entry(s, g, done, failed, a);
            && e.address == a
            && (e.status == Completed <==> a in done * Good(s, g))
            && (e.status == Failed <==> a in FailuresIn(s, g, done))
            && (e.status == Pending <==> a !in done && !FailedDependency(g, failed, a))
            && (e.status == Pending ==> e.retryCount == 0 && e.analysis.None? && e.error.None?)
  {
    ScanOutcome(s.analyze, s.maxAttempts, a);
    hide FailedDependency;
  }

  /** The statuses of the dependencies of a node, read off the dictionary. */
  lemma DependencyStatuses(
    s: Settings, g: ProtocolGraph, results: map<string, NodeScanResult>, done: set<string>, before: set<string>,
    after: set<string>,
    part: set<string>, a: string, dependencies: seq<string>)
    requires LegalSettings(s) && Consistent(g) && a in Addresses(g)
    requires Marking(s, g, results, done, before, after, part)
    requires SetOf(dependencies) == Dependencies(g, a)
    ensures forall k | 0 <= k < |dependencies| :: dependencies[k] in results
    ensures (exists k :: 0 <= k < |dependencies| && results[dependencies[k]].status == Failed) <==>
            FailedDependency(g, FailuresIn(s, g, done), a)
    ensures (forall k | 0 <= k < |dependencies| :: results[dependencies[k]].status == Completed) <==>
            Dependencies(g, a) <= done * Good(s, g)
  {
    DependenciesAreNodes(g, a);
    hide Consistent, Dependencies, Addresses, Good, Entry, FailuresIn;
    forall k | 0 <= k < |dependencies|
      ensures dependencies[k] in Dependencies(g, a) && dependencies[k] in results
      ensures results[dependencies[k]].status == Failed <==> dependencies[k] in FailuresIn(s, g, done)
      ensures results[dependencies[k]].status == Completed <==> dependencies[k] in done * Good(s, g)
    {
      IndexedIn(dependencies, k);
      var d := dependencies[k];
      EntryStatus(s, g, done, if d in part then after else before, d);
    }
    AllAndAny(dependencies, FailuresIn(s, g, done));
    AllAndAny(dependencies, done * Good(s, g));
  }

  lemma MarkOne(
    s: Settings, g: ProtocolGraph, results: map<string, NodeScanResult>, done: set<string>, before: set<string>,
    after: set<string>,
    part: set<string>, a: string, anyFailed: bool)
    requires LegalSettings(s) && Marking(s, g, results, done, before, after, part) && a in results
    requires a !in part && before <= after
    requires results[a].status == Pending ==> (anyFailed <==> FailedDependency(g, after, a))
    ensures Marking(
              s, g, if results[a].status == Pending && anyFailed
                  then results[a := SkippedResult(a, DEPENDENCY_FAILED)] else results,
              done, before, after, part + {a})
  {
    EntryStatus(s, g, done, before, a);
    FailedDependencyGrows(g, before, after, a);
    hide FailedDependency, Good, Addresses, FailuresIn;
  }

  lemma FailedDependencyGrows(g: ProtocolGraph, before: set<string>, after: set<string>, a: string)
    requires before <= after
    ensures FailedDependency(g, before, a) ==> FailedDependency(g, after, a)
  {
    hide Dependencies;
    assert Dependencies(g, a) * before <= Dependencies(g, a) * after;
  }

  lemma NothingMarked(
    s: Settings, g: ProtocolGraph, results: map<string, NodeScanResult>, done: set<string>, before: set<string>,
    after: set<string>)
    requires LegalSettings(s) && Ledger(s, g, results, done, before)
    ensures Marking(s, g, results, done, before, after, {})
  {
  }

  lemma AllMarked(
    s: Settings, g: ProtocolGraph, results: map<string, NodeScanResult>, done: set<string>, before: set<string>,
    after: set<string>)
    requires LegalSettings(s) && Marking(s, g, results, done, before, after, Addresses(g))
    ensures Ledger(s, g, results, done, after)
  {
  }

  /** A node is ready when it is pending and its dependencies have completed; after the
      skipping, these are the nodes of the next round. */
  lemma ReadyIsNextLayer(s: Settings, g: ProtocolGraph, n: nat, a: string)
    requires LegalSettings(s) && a in Addresses(g)
    ensures var done := Scanned(g, Good(s, g), n);
            a in Layer(g, Good(s, g), n) <==>
            a !in done && !FailedDependency(g, FailuresIn(s, g, done), a) && Dependencies(g, a) <= done * Good(s, g)
  {
    hide Good;
    var done := Scanned(g, Good(s, g), n);
    if Dependencies(g, a) <= done * Good(s, g) {
      assert Dependencies(g, a) * FailuresIn(s, g, done) == {};
    }
  }

  // ---- absorbing a batch ----

  /** The addresses whose scan completed, in order. */
  function Successes(s: Settings, scanned: seq<string>): seq<string>
    requires s.maxAttempts >= 1
  {
    if scanned == [] then []
    else
      var last := scanned[|scanned| - 1];
      Successes(s, scanned[..|scanned| - 1]) + (if ResultOf(s, last).status == Completed then [last] else [])
  }

  /** The failed attempts that preceded the results of `scanned`. */
  function Retries(s: Settings, scanned: seq<string>): nat
    requires s.maxAttempts >= 1
  {
    if scanned == [] then 0
    else Retries(s, scanned[..|scanned| - 1]) + ResultOf(s, scanned[|scanned| - 1]).retryCount
  }

  /** One more than the retries, for each. */
  function Attempts(s: Settings, scanned: seq<string>): nat
    requires s.maxAttempts >= 1
  {
    if scanned == [] then 0
    else Attempts(s, scanned[..|scanned| - 1]) + ResultOf(s, scanned[|scanned| - 1]).retryCount + 1
  }

  /** Attempts are retries and one more for each scan. */
  lemma {:induction false} AttemptsAreRetries(s: Settings, scanned: seq<string>)
    requires s.maxAttempts >= 1
    ensures Attempts(s, scanned) == Retries(s, scanned) + |scanned|
  {
    hide ResultOf;
    if scanned != [] { AttemptsAreRetries(s, scanned[..|scanned| - 1]); }
  }

  /** The three lists of a list with one more at the end. */
  lemma SuccessesLast(s: Settings, a: seq<string>, x: string)
    requires s.maxAttempts >= 1
    ensures Successes(s, a + [x]) == Successes(s, a) + (if ResultOf(s, x).status == Completed then [x] else [])
    ensures Retries(s, a + [x]) == Retries(s, a) + ResultOf(s, x).retryCount
    ensures Attempts(s, a + [x]) == Attempts(s, a) + ResultOf(s, x).retryCount + 1
  {
    assert (a + [x])[..|a|] == a;
    hide ResultOf;
  }

  lemma Regroup<T>(a: seq<T>, b: seq<T>, c: seq<T>)
    ensures a + b + c == a + (b + c)
  {
  }

  lemma NoneListed(s: Settings)
    requires s.maxAttempts >= 1
    ensures Successes(s, []) == [] && Retries(s, []) == 0 && Attempts(s, []) == 0
  {
  }

  lemma {:induction false} SuccessesJoin(s: Settings, a: seq<string>, b: seq<string>)
    requires s.maxAttempts >= 1
    ensures Successes(s, a + b) == Successes(s, a) + Successes(s, b)
    ensures Retries(s, a + b) == Retries(s, a) + Retries(s, b)
    ensures Attempts(s, a + b) == Attempts(s, a) + Attempts(s, b)
  {
    hide ResultOf, Successes, Retries, Attempts;
    if b == [] {
      NoneListed(s);
      assert a + b == a;
    } else {
      var c, x := b[..|b| - 1], b[|b| - 1];
      assert b == c + [x];
      SuccessesJoin(s, a, c);
      SuccessesLast(s, c, x);
      SuccessesLast(s, a + c, x);
      Regroup(a, c, [x]);
      Regroup(Successes(s, a), Successes(s, c), if ResultOf(s, x).status == Completed then [x] else []);
    }
  }

  /** The analyser has been called for each scanned node as often as its scan made attempts,
      and for nothing else. */
  ghost predicate CallLog(s: Settings, calls: seq<string>, done: set<string>)
    requires s.maxAttempts >= 1
  {
    && (forall a | a in done :: multiset(calls)[a] == ResultOf(s, a).retryCount + 1)
    && (forall a | a in calls :: a in done)
  }

  lemma CallLogJoin(s: Settings, calls: seq<string>, done: set<string>, b: Batch, more: seq<string>)
    requires s.maxAttempts >= 1 && CallLog(s, calls, done)
    requires b.analyze == s.analyze && b.maxAttempts == s.maxAttempts && CallsMatch(b, more)
    requires done !! SetOf(b.addresses)
    ensures CallLog(s, calls + more, done + SetOf(b.addresses))
  {
    forall a | a in done + SetOf(b.addresses)
      ensures multiset(calls + more)[a] == ResultOf(s, a).retryCount + 1
    {
      assert multiset(calls + more)[a] == multiset(calls)[a] + multiset(more)[a];
      if a in done {
        assert a !in more;
        assert a !in multiset(more);
      } else {
        assert a in b.addresses;
        assert a !in calls;
        assert a !in multiset(calls);
      }
    }
  }

  /** Total calls to the analyser: the sum of `retry_count + 1` over the scanned nodes. */
  lemma {:induction false} CallTotal(s: Settings, calls: multiset<string>, scanned: seq<string>)
    requires s.maxAttempts >= 1 && Distinct(scanned)
    requires forall a | a in scanned :: calls[a] == ResultOf(s, a).retryCount + 1
    requires forall a | a in calls :: a in scanned
    ensures |calls| == Attempts(s, scanned)
  {
    hide ResultOf, Distinct;
    if scanned == [] {
      assert calls == multiset{};
    } else {
      var last, rest := scanned[|scanned| - 1], scanned[..|scanned| - 1];
      assert scanned == rest + [last];
      LastIsNew(rest, last);
      var fewer := calls[last := 0];
      forall a | a in fewer ensures a in rest { assert a in scanned; }
      forall a | a in rest ensures fewer[a] == ResultOf(s, a).retryCount + 1 { assert a in scanned; }
      CallTotal(s, fewer, rest);
      WithoutElement(calls, last);
      assert last in scanned;
    }
  }

  lemma LastIsNew(rest: seq<string>, last: string)
    requires Distinct(rest + [last])
    ensures Distinct(rest) && last !in rest
  {
    var all := rest + [last];
    forall i | 0 <= i < |rest| ensures rest[i] != last { assert all[i] != all[|rest|]; }
    forall i, j | 0 <= i < j < |rest| ensures rest[i] != rest[j] { assert all[i] != all[j]; }
  }

  lemma WithoutElement(m: multiset<string>, x: string)
    ensures |m| == |m[x := 0]| + m[x]
  {
    assert m == m[x := 0] + multiset{}[x := m[x]];
  }

  datatype Metrics = Metrics(nodesScanned: nat, parallelBatchesExecuted: nat, retryCount: nat)

  /** The state after the batches executed so far: their scans are absorbed, dependents of
      `failed` are skipped, and order, metrics and calls account for exactly those scans. */
  ghost predicate Progress(
    s: Settings, g: ProtocolGraph, results: map<string, NodeScanResult>, order: seq<string>,
    batches: seq<ExecutionBatch>,
    metrics: Metrics, calls: seq<string>, failed: set<string>)
    requires s.maxAttempts >= 1
  {
    && RoundsSoFar(g, Good(s, g), batches)
    && Ledger(s, g, results, Scanned(g, Good(s, g), |batches|), failed)
    && failed <= FailuresIn(s, g, Scanned(g, Good(s, g), |batches|))
    && order == Successes(s, Flatten(batches))
    && metrics == Metrics(|order|, |batches|, Retries(s, order))
    && CallLog(s, calls, Scanned(g, Good(s, g), |batches|))
  }

  lemma ProgressStart(s: Settings, g: ProtocolGraph, results: map<string, NodeScanResult>)
    requires LegalSettings(s) && Ledger(s, g, results, {}, {})
    ensures Progress(s, g, results, [], [], Metrics(0, 0, 0), [], {})
  {
  }

  lemma ProgressMark(
    s: Settings, g: ProtocolGraph, results: map<string, NodeScanResult>, marked: map<string, NodeScanResult>,
    order: seq<string>,
    batches: seq<ExecutionBatch>, metrics: Metrics, calls: seq<string>, failed: set<string>)
    requires LegalSettings(s) && Progress(s, g, results, order, batches, metrics, calls, failed)
    requires var done := Scanned(g, Good(s, g), |batches|); Ledger(s, g, marked, done, FailuresIn(s, g, done))
    ensures Progress(s, g, marked, order, batches, metrics, calls, FailuresIn(s, g, Scanned(g, Good(s, g), |batches|)))
  {
    hide Ledger, RoundsSoFar, CallLog, Flatten, Successes, Retries, Scanned;
  }

  lemma ProgressFacts(
    s: Settings, g: ProtocolGraph, results: map<string, NodeScanResult>, order: seq<string>,
    batches: seq<ExecutionBatch>,
    metrics: Metrics, calls: seq<string>, failed: set<string>)
    requires LegalSettings(s) && Progress(s, g, results, order, batches, metrics, calls, failed)
    ensures var done := Scanned(g, Good(s, g), |batches|);
            Ledger(s, g, results, done, failed) && failed <= FailuresIn(s, g, done)
    ensures |batches| == metrics.parallelBatchesExecuted
  {
    hide Ledger, RoundsSoFar, CallLog, Flatten, Successes, Retries, Scanned;
  }

  /** The ready list of round `n`. */
  ghost predicate IsRound(s: Settings, g: ProtocolGraph, n: nat, ready: seq<string>) {
    ready == SortedSet(Layer(g, Good(s, g), n)) && ready != []
  }

  lemma ProgressStep(
    s: Settings, g: ProtocolGraph, results: map<string, NodeScanResult>, order: seq<string>,
    batches: seq<ExecutionBatch>,
    metrics: Metrics, calls: seq<string>, ready: seq<string>, absorbed: map<string, NodeScanResult>, made: seq<string>)
    requires LegalSettings(s)
    requires IsRound(s, g, |batches|, ready)
    requires var done := Scanned(g, Good(s, g), |batches|);
             && Progress(s, g, results, order, batches, metrics, calls, FailuresIn(s, g, done))
             && Ledger(s, g, absorbed, done + SetOf(ready), FailuresIn(s, g, done))
    requires CallsMatch(Batch(ready, s.analyze, s.maxAttempts, s.maxWorkers), made)
    ensures Progress(
              s, g, absorbed, order + Successes(s, ready), batches + [ExecutionBatch(|batches|, ready)],
              Metrics(
                metrics.nodesScanned + |Successes(s, ready)|, metrics.parallelBatchesExecuted + 1,
                metrics.retryCount + Retries(s, Successes(s, ready))),
              calls + made, FailuresIn(s, g, Scanned(g, Good(s, g), |batches|)))
  {
    hide Ledger, Good, Scanned, Layer, FailuresIn, RoundsSoFar, CallLog, SetOf, Increasing, Distinct, ResultOf,
      Flatten, Successes, Retries, Attempts, CallsMatch, Addresses;
    SetOfEmpty(ready);
    AnotherRound(g, Good(s, g), batches, ready);
    RoundFacts(s, g, |batches|, ready);
    FlattenAppend(batches, ExecutionBatch(|batches|, ready));
    SuccessesJoin(s, Flatten(batches), ready);
    SuccessesJoin(s, order, Successes(s, ready));
    CallLogJoin(s, calls, Scanned(g, Good(s, g), |batches|), Batch(ready, s.analyze, s.maxAttempts, s.maxWorkers),
        made);
  }

  lemma ProgressDone(
    s: Settings, g: ProtocolGraph, results: map<string, NodeScanResult>, order: seq<string>,
    batches: seq<ExecutionBatch>,
    metrics: Metrics, calls: seq<string>, failed: set<string>)
    requires LegalSettings(s) && Progress(s, g, results, order, batches, metrics, calls, failed)
    requires Layer(g, Good(s, g), |batches|) == {}
    ensures batches == Batches(g, Good(s, g)) && order == Successes(s, Flatten(batches))
    ensures metrics == Metrics(|order|, |batches|, Retries(s, order))
    ensures CallLog(s, calls, EverScanned(g, Good(s, g)))
  {
    hide Ledger, Good, Layer, RoundsSoFar, CallLog, Flatten, Successes, Retries, Scanned, Batches, EverScanned;
    RoundsDone(s, g, batches);
  }

  class MetricsCollector {
    var nodesScanned: nat
    var parallelBatchesExecuted: nat
    var retryCount: nat

    /** `build`, without the durations. */
    function View(): Metrics
      reads this
    {
      Metrics(nodesScanned, parallelBatchesExecuted, retryCount)
    }

    constructor ()
      ensures View() == Metrics(0, 0, 0)
    {
      nodesScanned, parallelBatchesExecuted, retryCount := 0, 0, 0;
    }

    method RecordBatch()
      modifies this
      ensures View() == old(View()).(parallelBatchesExecuted := old(parallelBatchesExecuted) + 1)
    {
      parallelBatchesExecuted := parallelBatchesExecuted + 1;
    }

    method RecordNode(retries: nat)
      modifies this
      ensures View() == old(View()).(nodesScanned := old(nodesScanned) + 1, retryCount := old(retryCount) + retries)
    {
      nodesScanned := nodesScanned + 1;
      retryCount := retryCount + retries;
    }
  }

  /** Whatever had a result keeps it. */
  ghost predicate ResultsStay(was: map<string, NodeScanResult>, now: map<string, NodeScanResult>) {
    forall a | a in was && was[a].status != Pending :: a in now && now[a] == was[a]
  }

  /** The mutable state of one run. */
  class ScanRun {
    const s: Settings
    const g: ProtocolGraph
    const incoming: map<string, seq<string>>
    const metrics: MetricsCollector
    var nodeResults: map<string, NodeScanResult>
    var executionOrder: seq<string>
    var executionBatches: seq<ExecutionBatch>
    var calls: seq<string>

    constructor (s: Settings, g: ProtocolGraph)
      requires LegalSettings(s) && Consistent(g)
      ensures this.s == s && this.g == g && incoming == ReverseAdjacency(g) && fresh(metrics)
      ensures executionOrder == [] && executionBatches == [] && calls == []
      ensures metrics.View() == Metrics(0, 0, 0)
      ensures Ledger(s, g, nodeResults, {}, {})
    {
      this.s, this.g := s, g;
      var incomingMap, _ := BuildDependencyMaps(g);
      incoming := incomingMap;
      metrics := new MetricsCollector();
      nodeResults := map a | a in Addresses(g) :: PendingResult(a);
      executionOrder, executionBatches, calls := [], [], [];
      AllPending(s, g);
    }

    /** `_mark_skipped_nodes`: every pending node with a failed dependency becomes skipped. */
    method MarkSkippedNodes(ghost done: set<string>, ghost failed: set<string>)
      requires LegalSettings(s) && Consistent(g) && incoming == ReverseAdjacency(g)
      requires Ledger(s, g, nodeResults, done, failed) && failed <= FailuresIn(s, g, done)
      modifies this`nodeResults
      ensures Ledger(s, g, nodeResults, done, FailuresIn(s, g, done))
      ensures ResultsStay(old(nodeResults), nodeResults)
    {
      hide Marking, Ledger, Consistent, Dependencies, ReverseAdjacency, Addresses, FailuresIn, FailedDependency,
        SetOf, Distinct;
      ghost var after := FailuresIn(s, g, done);
      var addresses := AddressList(g.nodes);
      AddressesAreListed(g);
      NothingMarked(s, g, nodeResults, done, failed, after);
      SetOfTake(addresses, 0);
      for i := 0 to |addresses|
        invariant Marking(s, g, nodeResults, done, failed, after, SetOf(addresses[..i]))
        invariant ResultsStay(old(nodeResults), nodeResults)
      {
        var address := addresses[i];
        ghost var part := SetOf(addresses[..i]);
        SetOfTake(addresses, i);
        NotYetTaken(addresses, i);
        IncomingEntry(g, address);
        var dependencies := if address in incoming then incoming[address] else [];
        DependencyStatuses(s, g, nodeResults, done, failed, after, part, address, dependencies);
        MarkingKeys(s, g, nodeResults, done, failed, after, part);
        var anyFailed := exists k | 0 <= k < |dependencies| :: nodeResults[dependencies[k]].status == Failed;
        MarkOne(s, g, nodeResults, done, failed, after, part, address, anyFailed);
        if nodeResults[address].status == Pending && anyFailed {
          nodeResults := nodeResults[address := SkippedResult(address, DEPENDENCY_FAILED)];
        }
      }
      SetOfTake(addresses, |addresses|);
      AllMarked(s, g, nodeResults, done, failed, after);
    }

    /** `_ready_nodes`: the pending nodes whose dependencies have all completed, sorted. */
    method ReadyNodes(ghost n: nat) returns (ready: seq<string>)
      requires LegalSettings(s) && Consistent(g) && incoming == ReverseAdjacency(g)
      requires var done := Scanned(g, Good(s, g), n); Ledger(s, g, nodeResults, done, FailuresIn(s, g, done))
      ensures ready == SortedSet(Layer(g, Good(s, g), n))
    {
      hide Marking, Consistent, Dependencies, ReverseAdjacency, Addresses, FailuresIn, FailedDependency, SetOf,
        Distinct, Scanned, Layer, Good, Increasing;
      ghost var done := Scanned(g, Good(s, g), n);
      ghost var failed := FailuresIn(s, g, done);
      ghost var next := Layer(g, Good(s, g), n);
      var addresses := AddressList(g.nodes);
      AddressesAreListed(g);
      SetOfTake(addresses, 0);
      MarkingKeys(s, g, nodeResults, done, failed, failed, {});
      ready := [];
      NoneReady(next);
      for i := 0 to |addresses|
        invariant Distinct(ready) && SetOf(ready) == next * SetOf(addresses[..i])
      {
        var address := addresses[i];
        SetOfTake(addresses, i);
        NotYetTaken(addresses, i);
        IncomingEntry(g, address);
        EntryOf(s, g, nodeResults, done, failed, address);
        EntryStatus(s, g, done, failed, address);
        ReadyIsNextLayer(s, g, n, address);
        var dependencies := if address in incoming then incoming[address] else [];
        DependencyStatuses(s, g, nodeResults, done, failed, failed, {}, address, dependencies);
        var allCompleted := forall k | 0 <= k < |dependencies| :: nodeResults[dependencies[k]].status == Completed;
        assert allCompleted <==> Dependencies(g, address) <= done * Good(s, g);
        assert address in next <==> nodeResults[address].status == Pending && allCompleted;
        AppendReady(ready, next, SetOf(addresses[..i]), address);
        if nodeResults[address].status == Pending {
          if forall k | 0 <= k < |dependencies| :: nodeResults[dependencies[k]].status == Completed {
            ready := ready + [address];
          }
        }
      }
      SetOfTake(addresses, |addresses|);
      LayerWithin(s, g, n);
      ready := SortedStrings(ready);
    }

    /** `_mark_unresolved_nodes`: whatever is still pending is skipped. */
    method MarkUnresolvedNodes(ghost n: nat)
      requires LegalSettings(s) && Consistent(g)
      requires var done := Scanned(g, Good(s, g), n); Ledger(s, g, nodeResults, done, FailuresIn(s, g, done))
      requires Layer(g, Good(s, g), n) == {}
      modifies this`nodeResults
      ensures nodeResults.Keys == Addresses(g)
      ensures forall a | a in nodeResults :: nodeResults[a] == FinalResult(s, g, a)
      ensures ResultsStay(old(nodeResults), nodeResults)
    {
      hide Consistent, Addresses, SetOf, Distinct, Scanned, Layer, Good, FinalResult, Marking, Entry;
      ghost var done := Scanned(g, Good(s, g), n);
      ghost var failed := FailuresIn(s, g, done);
      var addresses := AddressList(g.nodes);
      AddressesAreListed(g);
      SetOfTake(addresses, 0);
      MarkingKeys(s, g, nodeResults, done, failed, failed, {});
      forall a | a in nodeResults
          ensures nodeResults[a] == Entry(s, g, done, failed, a) { EntryOf(s, g, nodeResults, done, failed, a); }
      for i := 0 to |addresses|
        invariant nodeResults.Keys == Addresses(g)
        invariant forall a | a in nodeResults ::
                    nodeResults[a] == if a in SetOf(addresses[..i]) then FinalResult(s, g, a)
                        else Entry(s, g, done, failed, a)
        invariant ResultsStay(old(nodeResults), nodeResults)
      {
        var address := addresses[i];
        SetOfTake(addresses, i);
        NotYetTaken(addresses, i);
        LastEntry(s, g, n, address);
        if nodeResults[address].status == Pending {
          nodeResults := nodeResults[address := SkippedResult(address, UNRESOLVED_DEPENDENCIES)];
        }
      }
      SetOfTake(addresses, |addresses|);
    }

    /** The body of the loop over a batch's results. */
    method AbsorbBatch(
      ready: seq<string>, results: seq<NodeScanResult>, ghost done: set<string>, ghost failed: set<string>)
      requires LegalSettings(s)
      requires Ledger(s, g, nodeResults, done, failed)
      requires SetOf(ready) <= Addresses(g) && |results| == |ready|
      requires forall i | 0 <= i < |ready| :: results[i] == ResultOf(s, ready[i])
      requires Distinct(ready) && forall a | a in ready :: a in nodeResults && nodeResults[a].status == Pending
      modifies this`nodeResults, this`executionOrder, metrics
      ensures Ledger(s, g, nodeResults, done + SetOf(ready), failed)
      ensures executionOrder == old(executionOrder) + Successes(s, ready)
      ensures metrics.View() == Metrics(
                old(metrics.nodesScanned) + |Successes(s, ready)|, old(metrics.parallelBatchesExecuted),
                old(metrics.retryCount) + Retries(s, Successes(s, ready)))
      ensures ResultsStay(old(nodeResults), nodeResults)
    {
      hide Ledger, ResultOf, Addresses, SetOf, Successes, Retries, Distinct, ResultsStay;
      SetOfTake(ready, 0);
      NothingAbsorbed(s, nodeResults, ready);
      assert done + {} == done;
      for i := 0 to |ready|
        invariant Ledger(s, g, nodeResults, done + SetOf(ready[..i]), failed)
        invariant executionOrder == old(executionOrder) + Successes(s, ready[..i])
        invariant metrics.nodesScanned == old(metrics.nodesScanned) + |Successes(s, ready[..i])|
        invariant metrics.retryCount == old(metrics.retryCount) + Retries(s, Successes(s, ready[..i]))
        invariant metrics.parallelBatchesExecuted == old(metrics.parallelBatchesExecuted)
        invariant ResultsStay(old(nodeResults), nodeResults)
        invariant forall k | i <= k < |ready| :: ready[k] in nodeResults && nodeResults[ready[k]].status == Pending
      {
        var result := results[i];
        SetOfTake(ready, i);
        IndexedIn(ready, i);
        ResultNames(s, ready[i]);
        AbsorbOne(s, g, nodeResults, done + SetOf(ready[..i]), failed, ready[i]);
        PendingReplaced(old(nodeResults), nodeResults, ready, i, MergeResult(nodeResults[ready[i]], result));
        SuccessesAppend(s, ready, i);
        var current := nodeResults[result.address];
        nodeResults := nodeResults[result.address := MergeResult(current, result)];
        assert done + SetOf(ready[..i]) + {ready[i]} == done + SetOf(ready[..i + 1]);
        if result.status == Completed {
          executionOrder := executionOrder + [result.address];
          metrics.RecordNode(result.retryCount);
        }
      }
      SetOfTake(ready, |ready|);
    }

    ghost predicate AfterRounds(failed: set<string>)
      reads this, metrics
    {
      && LegalSettings(s)
      && Progress(s, g, nodeResults, executionOrder, executionBatches, metrics.View(), calls, failed)
    }

    /** The part of the loop that follows the selection of a non-empty ready list. */
    method ExecuteBatch(ready: seq<string>)
      requires IsRound(s, g, |executionBatches|, ready)
      requires AfterRounds(FailuresIn(s, g, Scanned(g, Good(s, g), |executionBatches|)))
      modifies this, metrics
      ensures executionBatches == old(executionBatches) + [ExecutionBatch(|old(executionBatches)|, ready)]
      ensures AfterRounds(FailuresIn(s, g, Scanned(g, Good(s, g), |old(executionBatches)|)))
      ensures ResultsStay(old(nodeResults), nodeResults)
    {
      hide Ledger, Good, Scanned, Layer, FailuresIn, SetOf, Increasing, Distinct, ResultOf, Successes, Retries,
        CallsMatch, ScansOf, Addresses, Progress, IsRound, Flatten;
      ghost var n := |executionBatches|;
      ghost var done := Scanned(g, Good(s, g), n);
      ghost var failed := FailuresIn(s, g, done);
      ghost var before := nodeResults;
      ghost var recorded := metrics.View();
      ProgressFacts(s, g, nodeResults, executionOrder, executionBatches, metrics.View(), calls, failed);
      RoundFacts(s, g, n, ready);
      executionBatches := executionBatches + [ExecutionBatch(|executionBatches|, ready)];
      metrics.RecordBatch();
      var tasks := Batch(ready, s.analyze, s.maxAttempts, s.maxWorkers);
      var results, made := RunBatch(tasks);
      ScansAreResults(s, tasks);
      ReadyIsPending(s, g, nodeResults, n, ready);
      AbsorbBatch(ready, results, done, failed);
      ProgressStep(s, g, before, old(executionOrder), old(executionBatches), recorded, old(calls), ready, nodeResults,
          made);
      calls := calls + made;
    }

    /** The loop of `run`, up to the final marking. */
    method Execute()
      requires LegalSettings(s) && Consistent(g) && incoming == ReverseAdjacency(g)
      requires executionOrder == [] && executionBatches == [] && calls == []
      requires metrics.View() == Metrics(0, 0, 0)
      requires Ledger(s, g, nodeResults, {}, {})
      modifies this, metrics
      ensures executionBatches == Batches(g, Good(s, g))
      ensures executionOrder == Successes(s, Flatten(executionBatches))
      ensures nodeResults.Keys == Addresses(g) && forall a | a in nodeResults :: nodeResults[a] == FinalResult(s, g, a)
      ensures metrics.View() == Metrics(|executionOrder|, |executionBatches|, Retries(s, executionOrder))
      ensures CallLog(s, calls, EverScanned(g, Good(s, g)))
    {
      hide Ledger, Consistent, Addresses, Good, Scanned, Layer, EverScanned, FinalResult, FailuresIn, CallLog, SetOf,
        Batches, Increasing, Distinct, ResultOf, Flatten, Successes, Retries, ReverseAdjacency, Marking, Progress;
      ghost var failed: set<string> := {};
      ProgressStart(s, g, nodeResults);
      while true
        invariant AfterRounds(failed)
        decreases Unscanned(g, Good(s, g), |executionBatches|)
      {
        ghost var n := |executionBatches|;
        ghost var before := nodeResults;
        ProgressFacts(s, g, nodeResults, executionOrder, executionBatches, metrics.View(), calls, failed);
        MarkSkippedNodes(Scanned(g, Good(s, g), n), failed);
        ProgressMark(s, g, before, nodeResults, executionOrder, executionBatches, metrics.View(), calls, failed);
        failed := FailuresIn(s, g, Scanned(g, Good(s, g), n));
        var ready := ReadyNodes(n);
        SetOfEmpty(ready);
        if ready == [] {
          ProgressDone(s, g, nodeResults, executionOrder, executionBatches, metrics.View(), calls, failed);
          MarkUnresolvedNodes(n);
          break;
        }
        LayerShrinksRest(g, Good(s, g), n);
        ExecuteBatch(ready);
      }
    }
  }

  /** What is ready has no result yet. */
  lemma ReadyIsPending(s: Settings, g: ProtocolGraph, results: map<string, NodeScanResult>, n: nat, ready: seq<string>)
    requires LegalSettings(s) && IsRound(s, g, n, ready)
    requires var done := Scanned(g, Good(s, g), n); Ledger(s, g, results, done, FailuresIn(s, g, done))
    ensures forall a | a in ready :: a in results && results[a].status == Pending
  {
    hide Ledger, Good, Scanned, Layer, FailuresIn, SetOf, Increasing, Distinct, Addresses, FailedDependency;
    var done := Scanned(g, Good(s, g), n);
    RoundFacts(s, g, n, ready);
    LedgerKeys(s, g, results, done, FailuresIn(s, g, done));
    forall a | a in ready ensures a in results && results[a].status == Pending {
      NotInSetOf(ready, a);
      ReadyIsNextLayer(s, g, n, a);
      EntryStatus(s, g, done, FailuresIn(s, g, done), a);
      EntryOf(s, g, results, done, FailuresIn(s, g, done), a);
    }
  }

  lemma LedgerKeys(
    s: Settings, g: ProtocolGraph, results: map<string, NodeScanResult>, done: set<string>, failed: set<string>)
    requires LegalSettings(s) && Ledger(s, g, results, done, failed)
    ensures results.Keys == Addresses(g)
  {
  }

  lemma AllPending(s: Settings, g: ProtocolGraph)
    requires LegalSettings(s)
    ensures Ledger(s, g, map a | a in Addresses(g) :: PendingResult(a), {}, {})
  {
  }

  lemma AddressesAreListed(g: ProtocolGraph)
    ensures SetOf(AddressList(g.nodes)) == Addresses(g)
    ensures forall i | 0 <= i < |g.nodes| :: AddressList(g.nodes)[i] in Addresses(g)
    ensures Consistent(g) ==> Distinct(AddressList(g.nodes))
  {
    forall i | 0 <= i < |g.nodes|
        ensures AddressList(g.nodes)[i] in Addresses(g) { IndexedIn(AddressList(g.nodes), i); }
  }

  lemma IncomingEntry(g: ProtocolGraph, a: string)
    ensures a in Addresses(g) ==> a in ReverseAdjacency(g) && SetOf(ReverseAdjacency(g)[a]) == Dependencies(g, a)
  {
  }

  lemma MarkingKeys(
    s: Settings, g: ProtocolGraph, results: map<string, NodeScanResult>, done: set<string>, before: set<string>,
    after: set<string>,
    part: set<string>)
    requires LegalSettings(s) && Marking(s, g, results, done, before, after, part)
    ensures results.Keys == Addresses(g)
  {
  }

  lemma EntryOf(
    s: Settings, g: ProtocolGraph, results: map<string, NodeScanResult>, done: set<string>, failed: set<string>,
    a: string)
    requires LegalSettings(s) && Ledger(s, g, results, done, failed) && a in results
    ensures results[a] == Entry(s, g, done, failed, a)
  {
  }

  lemma NoneReady(next: set<string>)
    ensures Distinct<string>([]) && SetOf<string>([]) == next * {}
  {
  }

  lemma AppendReady(ready: seq<string>, next: set<string>, part: set<string>, a: string)
    requires Distinct(ready) && SetOf(ready) == next * part && a !in part
    ensures a in next ==> Distinct(ready + [a]) && SetOf(ready + [a]) == next * (part + {a})
    ensures a !in next ==> SetOf(ready) == next * (part + {a})
  {
    NotInSetOf(ready, a);
    if a in next { DistinctAppend(ready, a); }
  }

  lemma LayerWithin(s: Settings, g: ProtocolGraph, n: nat)
    ensures Layer(g, Good(s, g), n) * Addresses(g) == Layer(g, Good(s, g), n)
  {
    ScannedAreNodes(g, Good(s, g), n + 1);
  }

  /** When nothing is ready, an entry is final unless it is pending, and then it is to be
      skipped as unresolved. */
  lemma LastEntry(s: Settings, g: ProtocolGraph, n: nat, a: string)
    requires LegalSettings(s) && a in Addresses(g) && Layer(g, Good(s, g), n) == {}
    ensures var done := Scanned(g, Good(s, g), n);
            var e := Entry(s, g, done, FailuresIn(s, g, done), a);
            FinalResult(s, g, a) == if e.status == Pending then SkippedResult(a, UNRESOLVED_DEPENDENCIES) else e
  {
    Settles(g, Good(s, g));
    EntryStatus(s, g, Scanned(g, Good(s, g), n), FailuresIn(s, g, Scanned(g, Good(s, g), n)), a);
    ScanOutcome(s.analyze, s.maxAttempts, a);
    hide EverScanned, Scanned, Good, FailedDependency;
  }

  lemma NothingAbsorbed(s: Settings, results: map<string, NodeScanResult>, ready: seq<string>)
    requires s.maxAttempts >= 1
    ensures ResultsStay(results, results)
    ensures ready[..0] == [] && Successes(s, []) == [] && Retries(s, []) == 0
  {
  }

  /** Giving a result to the next pending entry of the batch disturbs nothing that had one. */
  lemma PendingReplaced(
    was: map<string, NodeScanResult>, now: map<string, NodeScanResult>, ready: seq<string>, i: nat, x: NodeScanResult)
    requires ResultsStay(was, now) && i < |ready| && Distinct(ready)
    requires forall k | i <= k < |ready| :: ready[k] in now && now[ready[k]].status == Pending
    ensures ResultsStay(was, now[ready[i] := x])
    ensures forall k | i < k < |ready| :: ready[k] in now && now[ready[i] := x][ready[k]].status == Pending
  {
  }

  lemma ResultNames(s: Settings, a: string)
    requires LegalSettings(s)
    ensures ResultOf(s, a).address == a
  {
  }

  lemma AbsorbOne(
    s: Settings, g: ProtocolGraph, results: map<string, NodeScanResult>, done: set<string>, failed: set<string>,
    a: string)
    requires LegalSettings(s) && Ledger(s, g, results, done, failed) && a in Addresses(g)
    ensures a in results
    ensures Ledger(s, g, results[a := MergeResult(results[a], ResultOf(s, a))], done + {a}, failed)
  {
    EntryStatus(s, g, done, failed, a);
    ResultNames(s, a);
    hide FailedDependency, Addresses, Good;
  }

  lemma SuccessesAppend(s: Settings, ready: seq<string>, i: nat)
    requires LegalSettings(s) && i < |ready|
    ensures Successes(s, ready[..i + 1]) ==
            Successes(s, ready[..i]) + (if ResultOf(s, ready[i]).status == Completed then [ready[i]] else [])
    ensures ResultOf(s, ready[i]).status != Completed ==> Successes(s, ready[..i + 1]) == Successes(s, ready[..i])
    ensures ResultOf(s, ready[i]).status == Completed ==>
              Retries(s, Successes(s, ready[..i + 1])) == Retries(s, Successes(s, ready[..i]))
                  + ResultOf(s, ready[i]).retryCount
  {
    assert ready[..i + 1][..i] == ready[..i];
    var before := Successes(s, ready[..i]);
    assert (before + [ready[i]])[..|before|] == before;
  }

  // ---- what a run returns ----

  /** One entry of the evidence: the node's own role and name, its analysis and its retries. */
  datatype NodeEvidence = NodeEvidence(role: ProtocolRole, protocolName: string, analysis: Analysis, retryCount: nat)

  datatype Evidence = Evidence(
    protocolRoot: string, nodeCount: nat, completedCount: nat, failedCount: nat, skippedCount: nat,
    highestRiskScore: real, riskLevels: seq<string>, nodes: map<string, NodeEvidence>)

  /** `calls` is not part of the original's result: it is the log of calls to the analyser. */
  datatype ProtocolScanResult = ProtocolScanResult(
    executionOrder: seq<string>, completedNodes: seq<string>, failedNodes: seq<string>, evidence: Evidence,
    metrics: Metrics,
    nodeResults: seq<NodeScanResult>, executionBatches: seq<ExecutionBatch>, calls: seq<string>)

  function WithStatus(results: map<string, NodeScanResult>, status: NodeScanStatus): set<string> {
    set a | a in results && results[a].status == status
  }

  /** The nodes whose completed analysis goes into the evidence. */
  function Evident(results: map<string, NodeScanResult>, addresses: set<string>): set<string> {
    set a | a in addresses && a in results && results[a].status == Completed && results[a].analysis.Some?
  }

  function LevelsOf(e: map<string, NodeEvidence>): set<string> { set a | a in e :: e[a].analysis.riskLevel }

  lemma LevelsAdd(e: map<string, NodeEvidence>, a: string, found: NodeEvidence)
    requires a in e ==> e[a].analysis == found.analysis
    ensures LevelsOf(e[a := found]) == LevelsOf(e) + {found.analysis.riskLevel}
  {
    var f := e[a := found];
    forall l | l in LevelsOf(e) + {found.analysis.riskLevel} ensures l in LevelsOf(f) {
      if l == found.analysis.riskLevel {
        assert a in f && f[a].analysis.riskLevel == l;
      } else {
        var x :| x in e && e[x].analysis.riskLevel == l;
        assert x in f && f[x].analysis.riskLevel == l;
      }
    }
  }

  /** The highest risk score, or zero when no score is above it. */
  ghost predicate HighestOf(e: map<string, NodeEvidence>, highest: real) {
    && 0.0 <= highest
    && (forall a | a in e :: e[a].analysis.riskScore <= highest)
    && (highest == 0.0 || exists a :: a in e && e[a].analysis.riskScore == highest)
  }

  lemma HighestAdd(e: map<string, NodeEvidence>, highest: real, a: string, found: NodeEvidence)
    requires HighestOf(e, highest) && (a in e ==> e[a].analysis == found.analysis)
    ensures HighestOf(e[a := found], if found.analysis.riskScore > highest then found.analysis.riskScore else highest)
  {
    var f := e[a := found];
    assert a in f && f[a] == found;
    if found.analysis.riskScore <= highest && highest != 0.0 {
      var x :| x in e && e[x].analysis.riskScore == highest;
      assert x in f && f[x].analysis.riskScore == highest;
    }
  }

  /** The entry for `a` is made of one of the nodes at that address and of its result. */
  ghost predicate EntryFor(
    nodes: seq<ProtocolNode>, results: map<string, NodeScanResult>, a: string, x: NodeEvidence)
  {
    && a in results && results[a].analysis == Some(x.analysis) && results[a].retryCount == x.retryCount
    && exists k :: 0 <= k < |nodes| && nodes[k].address == a && nodes[k].role == x.role
                   && nodes[k].protocolName == x.protocolName
  }

  ghost predicate Collected(
    nodes: seq<ProtocolNode>, results: map<string, NodeScanResult>, addresses: set<string>,
    e: map<string, NodeEvidence>, highest: real, levels: set<string>)
  {
    && e.Keys == Evident(results, addresses)
    && (forall a | a in e :: EntryFor(nodes, results, a, e[a]))
    && HighestOf(e, highest)
    && levels == LevelsOf(e)
  }

  lemma CollectedStep(
    nodes: seq<ProtocolNode>, results: map<string, NodeScanResult>, addresses: set<string>,
    e: map<string, NodeEvidence>, highest: real, levels: set<string>, a: string, found: NodeEvidence)
    requires Collected(nodes, results, addresses, e, highest, levels)
    requires a in Evident(results, {a}) && EntryFor(nodes, results, a, found)
    ensures Collected(
              nodes, results, addresses + {a}, e[a := found],
              if found.analysis.riskScore > highest then found.analysis.riskScore else highest,
              levels + {found.analysis.riskLevel})
  {
    assert a in e ==> EntryFor(nodes, results, a, e[a]);
    LevelsAdd(e, a, found);
    HighestAdd(e, highest, a, found);
    EvidentMore(results, addresses, a);
    hide HighestOf, LevelsOf, Evident, EntryFor;
  }

  lemma CollectedSkip(
    nodes: seq<ProtocolNode>, results: map<string, NodeScanResult>, addresses: set<string>,
    e: map<string, NodeEvidence>, highest: real, levels: set<string>, a: string)
    requires Collected(nodes, results, addresses, e, highest, levels) && a !in Evident(results, {a})
    ensures Collected(nodes, results, addresses + {a}, e, highest, levels)
  {
    EvidentMore(results, addresses, a);
    hide HighestOf, LevelsOf, Evident, EntryFor;
  }

  lemma EvidentMore(results: map<string, NodeScanResult>, addresses: set<string>, a: string)
    ensures Evident(results, addresses + {a}) == Evident(results, addresses) + Evident(results, {a})
    ensures Evident(results, {a}) == {} || Evident(results, {a}) == {a}
  {
  }

  lemma NothingCollected(nodes: seq<ProtocolNode>, results: map<string, NodeScanResult>)
    ensures Collected(nodes, results, {}, map[], 0.0, {})
  {
    assert LevelsOf(map[]) == {};
  }

  lemma EvidentOne(results: map<string, NodeScanResult>, a: string)
    ensures a in Evident(results, {a}) <==>
            a in results && results[a].status == Completed && results[a].analysis.Some?
  {
  }

  lemma CollectedKeys(
    nodes: seq<ProtocolNode>, results: map<string, NodeScanResult>, addresses: set<string>,
    e: map<string, NodeEvidence>, highest: real, levels: set<string>)
    requires Collected(nodes, results, addresses, e, highest, levels)
    ensures e.Keys == Evident(results, addresses) && |e| == |Evident(results, addresses)| && levels == LevelsOf(e)
    ensures forall a | a in e :: EntryFor(nodes, results, a, e[a])
    ensures HighestOf(e, highest)
  {
    assert |e| == |e.Keys|;
  }

  /** `aggregate_protocol_evidence`. */
  method AggregateProtocolEvidence(g: ProtocolGraph, results: map<string, NodeScanResult>) returns (e: Evidence)
    ensures e.protocolRoot == g.rootNode && e.nodeCount == |g.nodes|
    ensures e.completedCount == |Evident(results, Addresses(g))|
    ensures e.failedCount == |WithStatus(results, Failed)| && e.skippedCount == |WithStatus(results, Skipped)|
    ensures Collected(g.nodes, results, Addresses(g), e.nodes, e.highestRiskScore, LevelsOf(e.nodes))
    ensures e.riskLevels == SortedSet(LevelsOf(e.nodes))
  {
    hide Collected, Evident, Addresses, SetOf, Increasing, Distinct, LevelsOf, WithStatus;
    var nodes: map<string, NodeEvidence> := map[];
    var highest := 0.0;
    var levels: set<string> := {};
    ghost var addresses := AddressList(g.nodes);
    SetOfTake(addresses, 0);
    NothingCollected(g.nodes, results);
    for i := 0 to |g.nodes|
      invariant Collected(g.nodes, results, SetOf(addresses[..i]), nodes, highest, levels)
    {
      var a := g.nodes[i].address;
      SetOfTake(addresses, i);
      EvidentOne(results, a);
      if a in results && results[a].status == Completed && results[a].analysis.Some? {
        var analysis := results[a].analysis.value;
        var found := NodeEvidence(g.nodes[i].role, g.nodes[i].protocolName, analysis, results[a].retryCount);
        CollectedStep(g.nodes, results, SetOf(addresses[..i]), nodes, highest, levels, a, found);
        if analysis.riskScore > highest {
          highest := analysis.riskScore;
        }
        levels := levels + {analysis.riskLevel};
        nodes := nodes[a := found];
      } else {
        CollectedSkip(g.nodes, results, SetOf(addresses[..i]), nodes, highest, levels, a);
      }
    }
    SetOfTake(addresses, |addresses|);
    AddressesAreListed(g);
    CollectedKeys(g.nodes, results, Addresses(g), nodes, highest, levels);
    e := Evidence(
      g.rootNode, |g.nodes|, |nodes|, |WithStatus(results, Failed)|, |WithStatus(results, Skipped)|, highest,
      SortedSet(levels), nodes);
  }

  /** Every node ends in exactly one of the three terminal statuses, so the counts add up. */
  lemma StatusCounts(s: Settings, g: ProtocolGraph, results: map<string, NodeScanResult>)
    requires LegalSettings(s) && Consistent(g)
    requires results.Keys == Addresses(g) && forall a | a in results :: results[a] == FinalResult(s, g, a)
    ensures Evident(results, Addresses(g)) == EverScanned(g, Good(s, g)) * Good(s, g)
    ensures WithStatus(results, Failed) == FailuresIn(s, g, EverScanned(g, Good(s, g)))
    ensures |Evident(results, Addresses(g))| + |WithStatus(results, Failed)| + |WithStatus(results, Skipped)| ==
        |g.nodes|
  {
    hide EverScanned, Good, Consistent, FinalResult, Addresses, Evident, WithStatus, Distinct;
    var x, y, z := Evident(results, Addresses(g)), WithStatus(results, Failed), WithStatus(results, Skipped);
    forall a
      ensures a in x <==> a in EverScanned(g, Good(s, g)) * Good(s, g)
      ensures a in y <==> a in FailuresIn(s, g, EverScanned(g, Good(s, g)))
      ensures a in z <==> a in Addresses(g) && a !in EverScanned(g, Good(s, g))
      ensures a in EverScanned(g, Good(s, g)) ==> a in Addresses(g)
    {
      StatusOf(s, g, results, a);
    }
    AddressesAreListed(g);
    DistinctCardinality(AddressList(g.nodes));
    PartitionSize(x, y, z, Addresses(g));
  }

  lemma StatusOf(s: Settings, g: ProtocolGraph, results: map<string, NodeScanResult>, a: string)
    requires LegalSettings(s)
    requires results.Keys == Addresses(g) && forall a | a in results :: results[a] == FinalResult(s, g, a)
    ensures a in Evident(results, Addresses(g)) <==> a in EverScanned(g, Good(s, g)) * Good(s, g)
    ensures a in WithStatus(results, Failed) <==> a in FailuresIn(s, g, EverScanned(g, Good(s, g)))
    ensures a in WithStatus(results, Skipped) <==> a in Addresses(g) && a !in EverScanned(g, Good(s, g))
    ensures a in EverScanned(g, Good(s, g)) ==> a in Addresses(g)
  {
    ScannedAreNodes(g, Good(s, g), |Addresses(g)|);
    if a in Addresses(g) {
      FinalStatus(s, g, a);
      CompletedHasAnalysis(s, g, a);
    }
    hide Good, FinalResult, Addresses, Scanned;
  }

  lemma CompletedHasAnalysis(s: Settings, g: ProtocolGraph, a: string)
    requires LegalSettings(s)
    ensures FinalResult(s, g, a).status == Completed ==> FinalResult(s, g, a).analysis.Some?
  {
    ScanOutcome(s.analyze, s.maxAttempts, a);
  }

  /** The flattened rounds list each scanned node once. */
  lemma {:induction false} FlattenedRounds(g: ProtocolGraph, good: set<string>, batches: seq<ExecutionBatch>)
    requires RoundsSoFar(g, good, batches)
    ensures Distinct(Flatten(batches)) && SetOf(Flatten(batches)) == Scanned(g, good, |batches|)
    decreases |batches|
  {
    hide Scanned, Layer, Distinct, SetOf, BatchAt, Flatten, Increasing;
    if batches == [] {
      NoRoundsYet(g, good);
      NothingFlat();
    } else {
      var n := |batches| - 1;
      var rest := batches[..n];
      FlattenedRounds(g, good, rest);
      assert batches == rest + [batches[n]] && batches[n] == BatchAt(g, good, n);
      FlattenAppend(rest, batches[n]);
      NextScanned(g, good, n);
      LayerIsNew(g, good, n);
      DistinctJoin(Flatten(rest), batches[n].addresses);
    }
  }

  lemma NothingFlat()
    ensures Distinct(Flatten([])) && SetOf(Flatten([])) == {}
  {
  }

  lemma LayerIsNew(g: ProtocolGraph, good: set<string>, n: nat)
    ensures Scanned(g, good, n) !! Layer(g, good, n)
    ensures Distinct(BatchAt(g, good, n).addresses) && SetOf(BatchAt(g, good, n).addresses) == Layer(g, good, n)
  {
  }

  lemma DistinctJoin<T(!new)>(a: seq<T>, b: seq<T>)
    requires Distinct(a) && Distinct(b) && SetOf(a) !! SetOf(b)
    ensures Distinct(a + b) && SetOf(a + b) == SetOf(a) + SetOf(b)
  {
    forall i, j | 0 <= i < j < |a + b| ensures (a + b)[i] != (a + b)[j] {
      if i < |a| { IndexedIn(a, i); }
      if j >= |a| { IndexedIn(b, j - |a|); }
    }
  }

  /** What absorbing the results of a round needs to know about it. */
  lemma RoundFacts(s: Settings, g: ProtocolGraph, n: nat, ready: seq<string>)
    requires LegalSettings(s) && IsRound(s, g, n, ready)
    ensures Distinct(ready)
    ensures SetOf(ready) <= Addresses(g) && Scanned(g, Good(s, g), n) !! SetOf(ready)
    ensures Scanned(g, Good(s, g), n) + SetOf(ready) == Scanned(g, Good(s, g), n + 1)
    ensures FailuresIn(s, g, Scanned(g, Good(s, g), n)) <= FailuresIn(s, g, Scanned(g, Good(s, g), n + 1))
  {
    ScannedAreNodes(g, Good(s, g), n + 1);
    NextScanned(g, Good(s, g), n);
    ScannedGrows(g, Good(s, g), n);
    hide Scanned, Good, Addresses;
  }

  lemma ScansAreResults(s: Settings, b: Batch)
    requires LegalSettings(s) && b.analyze == s.analyze && b.maxAttempts == s.maxAttempts
    ensures |ScansOf(b)| == |b.addresses|
    ensures forall i | 0 <= i < |b.addresses| :: ScansOf(b)[i] == ResultOf(s, b.addresses[i])
  {
  }

  /** The addresses among `order` with the given status. */
  function FilterStatus(results: map<string, NodeScanResult>, order: seq<string>, status: NodeScanStatus): seq<string> {
    if order == [] then []
    else
      var last := order[|order| - 1];
      FilterStatus(results, order[..|order| - 1], status)
        + (if last in results && results[last].status == status then [last] else [])
  }

  lemma {:induction false} FilterAll(results: map<string, NodeScanResult>, order: seq<string>, status: NodeScanStatus)
    requires forall a | a in order :: a in results && results[a].status == status
    ensures FilterStatus(results, order, status) == order
  {
    if order != [] {
      FilterAll(results, order[..|order| - 1], status);
      assert order == order[..|order| - 1] + [order[|order| - 1]];
    }
  }

  lemma {:induction false} FilterSorted(
    results: map<string, NodeScanResult>, order: seq<string>, status: NodeScanStatus)
    requires Increasing(order, StringLess) && Distinct(order)
    ensures var f := FilterStatus(results, order, status);
            && Increasing(f, StringLess) && Distinct(f)
            && forall a :: a in f <==> a in order && a in WithStatus(results, status)
  {
    hide Increasing, Distinct, StringLess, WithStatus;
    if order == [] {
      NothingSorted();
    } else {
      var n := |order| - 1;
      IncreasingInit(order, StringLess);
      FilterSorted(results, order[..n], status);
      var f := FilterStatus(results, order[..n], status);
      StatusTest(results, order[n], status);
      if order[n] in WithStatus(results, status) {
        IncreasingAppend(f, order[n], StringLess);
        DistinctAppend(f, order[n]);
      } else {
        assert f + [] == f;
      }
    }
  }

  lemma NothingSorted()
    ensures Increasing<string>([], StringLess) && Distinct<string>([])
  {
  }

  lemma StatusTest(results: map<string, NodeScanResult>, a: string, status: NodeScanStatus)
    ensures a in WithStatus(results, status) <==> a in results && results[a].status == status
  {
  }

  lemma {:induction false} SuccessesAre(s: Settings, scanned: seq<string>)
    requires LegalSettings(s)
    ensures forall a | a in Successes(s, scanned) :: a in scanned && ResultOf(s, a).status == Completed
  {
    if scanned != [] {
      SuccessesAre(s, scanned[..|scanned| - 1]);
      hide ResultOf;
    }
  }

  lemma CompletedAreScanned(
    s: Settings, g: ProtocolGraph, batches: seq<ExecutionBatch>, results: map<string, NodeScanResult>,
    order: seq<string>)
    requires LegalSettings(s) && batches == Batches(g, Good(s, g)) && order == Successes(s, Flatten(batches))
    requires results.Keys == Addresses(g) && forall a | a in results :: results[a] == FinalResult(s, g, a)
    ensures FilterStatus(results, order, Completed) == order
  {
    BatchesAre(g, Good(s, g), batches);
    FlattenedRounds(g, Good(s, g), batches);
    Settles(g, Good(s, g));
    ScannedAreNodes(g, Good(s, g), |batches|);
    SuccessesAre(s, Flatten(batches));
    forall a | a in order ensures a in results && results[a].status == Completed {
      NotInSetOf(Flatten(batches), a);
      assert a in EverScanned(g, Good(s, g));
    }
    FilterAll(results, order, Completed);
  }

  /** The node addresses in sorted order. */
  function SortedAddresses(g: ProtocolGraph): seq<string> { SortedStrings(AddressList(g.nodes)) }

  lemma SortedAddressesAre(g: ProtocolGraph)
    ensures Increasing(SortedAddresses(g), StringLess) && SetOf(SortedAddresses(g)) == Addresses(g)
    ensures |SortedAddresses(g)| == |g.nodes|
    ensures Consistent(g) ==> Distinct(SortedAddresses(g))
    ensures forall i | 0 <= i < |g.nodes| :: SortedAddresses(g)[i] in Addresses(g)
  {
    hide Increasing, StringLess;
    var sorted := SortedAddresses(g);
    forall i | 0 <= i < |sorted| ensures sorted[i] in SetOf(sorted) { IndexedIn(sorted, i); }
  }

  lemma FailuresSorted(g: ProtocolGraph, results: map<string, NodeScanResult>)
    requires Consistent(g) && results.Keys == Addresses(g)
    ensures FilterStatus(results, SortedAddresses(g), Failed) == SortedSet(WithStatus(results, Failed))
  {
    hide StringLess, Increasing, Distinct, SortedAddresses, Consistent, SetOf, FilterStatus;
    SortedAddressesAre(g);
    FilterSorted(results, SortedAddresses(g), Failed);
    var f := FilterStatus(results, SortedAddresses(g), Failed);
    forall a ensures a in SetOf(f) <==> a in WithStatus(results, Failed) {
      NotInSetOf(f, a);
      NotInSetOf(SortedAddresses(g), a);
    }
    SortedSetIs(f, WithStatus(results, Failed));
  }

  /** The part of the result that lists failures and per-node results. */
  method ListResults(
    g: ProtocolGraph, results: map<string, NodeScanResult>) returns (ordered: seq<NodeScanResult>, failed: seq<string>)
    requires Consistent(g) && results.Keys == Addresses(g)
    ensures |ordered| == |g.nodes| == |SortedAddresses(g)|
    ensures forall i | 0 <= i < |g.nodes| ::
        SortedAddresses(g)[i] in results && ordered[i] == results[SortedAddresses(g)[i]]
    ensures failed == SortedSet(WithStatus(results, Failed))
  {
    hide SortedAddresses, Consistent, Addresses, SetOf, FilterStatus, WithStatus, Increasing, Distinct;
    var sorted := SortedAddresses(g);
    SortedAddressesAre(g);
    ordered := seq(|sorted|, i requires 0 <= i < |sorted| => results[sorted[i]]);
    failed := FilterStatus(results, sorted, Failed);
    FailuresSorted(g, results);
  }

  lemma ScannedCalls(s: Settings, g: ProtocolGraph, batches: seq<ExecutionBatch>, calls: seq<string>)
    requires LegalSettings(s) && batches == Batches(g, Good(s, g))
    requires CallLog(s, calls, EverScanned(g, Good(s, g)))
    ensures |calls| == Attempts(s, Flatten(batches))
  {
    hide EverScanned, Scanned, Layer, Good, Flatten, ResultOf, Batches, Distinct, SetOf, CallLog, Attempts;
    FlattenedRun(s, g, batches);
    CallLogTotal(s, calls, EverScanned(g, Good(s, g)), Flatten(batches));
  }

  /** The flattened batches list everything that is ever scanned, once each. */
  lemma FlattenedRun(s: Settings, g: ProtocolGraph, batches: seq<ExecutionBatch>)
    requires batches == Batches(g, Good(s, g))
    ensures Distinct(Flatten(batches)) && SetOf(Flatten(batches)) == EverScanned(g, Good(s, g))
  {
    hide EverScanned, Scanned, Good, Flatten, Batches, Distinct, SetOf, BatchAt;
    BatchesAre(g, Good(s, g), batches);
    FlattenedRounds(g, Good(s, g), batches);
    Settles(g, Good(s, g));
  }

  lemma CallLogTotal(s: Settings, calls: seq<string>, done: set<string>, flat: seq<string>)
    requires s.maxAttempts >= 1 && CallLog(s, calls, done) && Distinct(flat) && SetOf(flat) == done
    ensures |calls| == Attempts(s, flat)
  {
    hide ResultOf, SetOf, Distinct, Attempts;
    forall a ensures a in flat <==> a in done { NotInSetOf(flat, a); }
    assert |multiset(calls)| == |calls|;
    CallTotal(s, multiset(calls), flat);
  }

  lemma RoundsDone(s: Settings, g: ProtocolGraph, batches: seq<ExecutionBatch>)
    requires RoundsSoFar(g, Good(s, g), batches) && Layer(g, Good(s, g), |batches|) == {}
    ensures batches == Batches(g, Good(s, g))
    ensures Scanned(g, Good(s, g), |batches|) == EverScanned(g, Good(s, g))
  {
    RoundsComplete(g, Good(s, g), batches);
    Settles(g, Good(s, g));
  }

  /** The entry repeats the node's role and name and its result's analysis and retries. */
  ghost predicate EvidenceOf(n: ProtocolNode, r: NodeScanResult, x: NodeEvidence) {
    x.role == n.role && x.protocolName == n.protocolName && r.analysis == Some(x.analysis)
        && r.retryCount == x.retryCount
  }

  lemma EvidenceMatches(
    s: Settings, g: ProtocolGraph, results: map<string, NodeScanResult>, e: map<string, NodeEvidence>)
    requires LegalSettings(s) && Consistent(g) && forall a | a in results :: results[a] == FinalResult(s, g, a)
    requires forall a | a in e :: EntryFor(g.nodes, results, a, e[a])
    ensures forall i | 0 <= i < |g.nodes| && g.nodes[i].address in e ::
              EvidenceOf(g.nodes[i], FinalResult(s, g, g.nodes[i].address), e[g.nodes[i].address])
  {
    hide FinalResult;
    forall i | 0 <= i < |g.nodes| && g.nodes[i].address in e
      ensures EvidenceOf(g.nodes[i], FinalResult(s, g, g.nodes[i].address), e[g.nodes[i].address])
    {
      var a := g.nodes[i].address;
      assert EntryFor(g.nodes, results, a, e[a]);
      var k :| 0 <= k < |g.nodes| && g.nodes[k].address == a && g.nodes[k].role == e[a].role
        && g.nodes[k].protocolName == e[a].protocolName;
      assert AddressList(g.nodes)[i] == AddressList(g.nodes)[k];
    }
  }

  /** `run`: each executed batch is the next dependency layer among the nodes whose
      dependencies have completed; the order lists the completed nodes batch by batch; every
      node ends as `FinalResult` says; and the analyser is called for scanned nodes only, as
      often as their attempts require. None of it depends on how a batch is interleaved. */
  method RunScan(s: Settings, g: ProtocolGraph) returns (r: ProtocolScanResult)
    requires LegalSettings(s) && Consistent(g)
    ensures r.executionBatches == Batches(g, Good(s, g))
    ensures r.executionOrder == Successes(s, Flatten(r.executionBatches))
    ensures r.completedNodes == r.executionOrder
    ensures r.failedNodes == SortedSet(FailuresIn(s, g, EverScanned(g, Good(s, g))))
    ensures |r.nodeResults| == |g.nodes|
    ensures |SortedAddresses(g)| == |g.nodes|
    ensures forall i | 0 <= i < |g.nodes| :: r.nodeResults[i] == FinalResult(s, g, SortedAddresses(g)[i])
    ensures forall i | 0 <= i < |g.nodes| :: ReportedFor(s, r.nodeResults[i], SortedAddresses(g)[i])
    ensures forall i | 0 <= i < |r.executionBatches| :: InPlace(r.executionBatches[i], i)
    ensures r.metrics == Metrics(|r.executionOrder|, |r.executionBatches|, Retries(s, r.executionOrder))
    ensures r.evidence.completedCount + r.evidence.failedCount + r.evidence.skippedCount == r.evidence.nodeCount ==
        |g.nodes|
    ensures r.evidence.failedCount == |FailuresIn(s, g, EverScanned(g, Good(s, g)))|
    ensures r.evidence.completedCount == |EverScanned(g, Good(s, g)) * Good(s, g)|
    ensures r.evidence.protocolRoot == g.rootNode && r.evidence.riskLevels == SortedSet(LevelsOf(r.evidence.nodes))
    ensures r.evidence.nodes.Keys == EverScanned(g, Good(s, g)) * Good(s, g)
    ensures forall i | 0 <= i < |g.nodes| && g.nodes[i].address in r.evidence.nodes ::
              EvidenceOf(g.nodes[i], FinalResult(s, g, g.nodes[i].address), r.evidence.nodes[g.nodes[i].address])
    ensures HighestOf(r.evidence.nodes, r.evidence.highestRiskScore)
    ensures CallLog(s, r.calls, EverScanned(g, Good(s, g)))
    ensures |r.calls| == Attempts(s, Flatten(r.executionBatches))
  {
    hide Consistent, Addresses, Good, EverScanned, FinalResult, FailuresIn, CallLog, SetOf, Batches, Distinct,
      ResultOf, Flatten, Successes, Retries, Attempts, Ledger, Increasing, WithStatus, Evident, FilterStatus,
      Collected, LevelsOf, SortedAddresses, HighestOf, EntryFor, EvidenceOf, ReportedFor, InPlace;
    var run := new ScanRun(s, g);
    run.Execute();
    var completed := FilterStatus(run.nodeResults, run.executionOrder, Completed);
    CompletedAreScanned(s, g, run.executionBatches, run.nodeResults, run.executionOrder);
    var ordered, failed := ListResults(g, run.nodeResults);
    StatusCounts(s, g, run.nodeResults);
    ScannedCalls(s, g, run.executionBatches, run.calls);
    var evidence := AggregateProtocolEvidence(g, run.nodeResults);
    CollectedKeys(
      g.nodes, run.nodeResults, Addresses(g), evidence.nodes, evidence.highestRiskScore, LevelsOf(evidence.nodes));
    EvidenceMatches(s, g, run.nodeResults, evidence.nodes);
    forall a ensures ReportedFor(s, FinalResult(s, g, a), a) { FinalReport(s, g, a); }
    AllInPlace(g, Good(s, g), run.executionBatches);
    r := ProtocolScanResult(
      run.executionOrder, completed, failed, evidence, run.metrics.View(), ordered, run.executionBatches, run.calls);
  }
}
