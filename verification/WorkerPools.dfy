/** A batch of node scans under a semaphore, one atomic step at a time. A task waits for a
    permit, then makes its attempts one by one while holding it, and gives the permit back
    in the step in which it finishes. Any enabled task may take the next step. */
module WorkerPools {
  import opened Ordering
  import opened Text
  import opened NodeScans

  datatype Batch = Batch(addresses: seq<string>, analyze: Analyzer, maxAttempts: nat, maxWorkers: nat)

  datatype TaskState = Waiting | Holding(attempts: nat) | Finished(result: NodeScanResult)

  datatype Pool = Pool(permits: nat, tasks: seq<TaskState>, calls: seq<string>)

  /** What the constructors of the pool and the retry policy insist on; the addresses of a
      batch are keys of one dictionary. */
  ghost predicate Legal(b: Batch) {
    b.maxWorkers >= 1 && b.maxAttempts >= 1 && Distinct(b.addresses)
  }

  function Start(b: Batch): Pool {
    Pool(b.maxWorkers, seq(|b.addresses|, _ => Waiting), [])
  }

  predicate Enabled(p: Pool, i: nat) {
    && i < |p.tasks|
    && match p.tasks[i]
       case Waiting => p.permits > 0
       case Holding(_) => true
       case Finished(_) => false
  }

  /** Task `i` takes its next step: acquire a permit, or make one attempt; a successful or a
      last failing attempt finishes the task and releases its permit. */
  function Advance(b: Batch, p: Pool, i: nat): Pool
    requires |p.tasks| == |b.addresses| && Enabled(p, i)
  {
    var a := b.addresses[i];
    match p.tasks[i]
    case Waiting =>
      p.(permits := p.permits - 1, tasks := p.tasks[i := Holding(0)])
    case Holding(k) =>
      match b.analyze(a, k)
      case Analysed(analysis) =>
        Pool(p.permits + 1, p.tasks[i := Finished(NodeScanResult(a, Completed, Some(analysis), None, k))], p.calls
            + [a])
      case Raised(message) =>
        if k + 1 < b.maxAttempts
        then Pool(p.permits, p.tasks[i := Holding(k + 1)], p.calls + [a])
        else Pool(p.permits + 1, p.tasks[i := Finished(NodeScanResult(a, Failed, None, Some(message), k))], p.calls
            + [a])
  }

  ghost predicate Step(b: Batch, p: Pool, q: Pool) {
    |p.tasks| == |b.addresses| && exists i: nat :: Enabled(p, i) && q == Advance(b, p, i)
  }

  /** A possible history of the batch, one pool per moment. */
  ghost predicate Run(b: Batch, history: seq<Pool>) {
    && history != [] && history[0] == Start(b)
    && forall t | 0 <= t < |history| - 1 :: Step(b, history[t], history[t + 1])
  }

  predicate AllFinished(p: Pool) {
    forall i | 0 <= i < |p.tasks| :: p.tasks[i].Finished?
  }

  function Holders(p: Pool): set<nat> {
    set i | 0 <= i < |p.tasks| && p.tasks[i].Holding?
  }

  /** How often a task has called the analyser. */
  function CallsOf(t: TaskState): nat {
    match t
    case Waiting => 0
    case Holding(k) => k
    case Finished(r) => r.retryCount + 1
  }

  ghost predicate TaskSound(b: Batch, a: string, t: TaskState)
    requires b.maxAttempts >= 1
  {
    match t
    case Waiting => true
    case Holding(k) => k < b.maxAttempts && forall j | 0 <= j < k :: b.analyze(a, j).Raised?
    case Finished(r) => r == ScanOf(b.analyze, b.maxAttempts, a)
  }

  /** What every moment of every run satisfies: permits are conserved, a holder has only
      failed so far and has attempts left, a finished task has the result its scan has in
      isolation, and the call log holds exactly the attempts made. */
  ghost predicate Sound(b: Batch, p: Pool)
    requires b.maxAttempts >= 1
  {
    && |p.tasks| == |b.addresses|
    && p.permits + |Holders(p)| == b.maxWorkers
    && (forall i | 0 <= i < |p.tasks| :: TaskSound(b, b.addresses[i], p.tasks[i]))
    && (forall i | 0 <= i < |p.tasks| :: multiset(p.calls)[b.addresses[i]] == CallsOf(p.tasks[i]))
    && (forall a | a in p.calls :: a in b.addresses)
  }

  lemma StartIsSound(b: Batch)
    requires Legal(b)
    ensures Sound(b, Start(b))
  {
    assert Holders(Start(b)) == {};
  }

  lemma HoldersAfter(p: Pool, q: Pool, i: nat, t: TaskState)
    requires i < |p.tasks| && q.tasks == p.tasks[i := t]
    ensures Holders(q) == if t.Holding? then Holders(p) + {i} else Holders(p) - {i}
    ensures i in Holders(p) <==> p.tasks[i].Holding?
  {
  }

  /** How a step changes the permits: one is taken on starting, given back on finishing. */
  lemma StepMovesPermit(b: Batch, p: Pool, i: nat)
    requires |p.tasks| == |b.addresses| && Enabled(p, i)
    ensures var q := Advance(b, p, i);
            && q.tasks == p.tasks[i := q.tasks[i]]
            && q.permits + (if q.tasks[i].Holding? then 1 else 0) == p.permits + (if p.tasks[i].Holding? then 1 else 0)
  {
  }

  lemma SizeAfter(s: set<nat>, x: nat)
    ensures |s + {x}| == |s| + (if x in s then 0 else 1)
    ensures |s - {x}| == |s| - (if x in s then 1 else 0)
  {
    if x in s {
      assert s + {x} == s && s == (s - {x}) + {x};
    } else {
      assert s - {x} == s;
    }
  }

  /** Permits are conserved by a step. */
  lemma StepKeepsPermits(b: Batch, p: Pool, i: nat)
    requires |p.tasks| == |b.addresses| && Enabled(p, i)
    ensures var q := Advance(b, p, i); q.permits + |Holders(q)| == p.permits + |Holders(p)|
  {
    StepMovesPermit(b, p, i);
    EnabledIsTask(p, i);
    hide Advance, Enabled, Holders;
    var q := Advance(b, p, i);
    HoldersAfter(p, q, i, q.tasks[i]);
    SizeAfter(Holders(p), i);
  }

  lemma EnabledIsTask(p: Pool, i: nat)
    requires Enabled(p, i)
    ensures i < |p.tasks|
  {
  }

  lemma StepKeepsTasks(b: Batch, p: Pool, i: nat)
    requires Legal(b) && |p.tasks| == |b.addresses| && Enabled(p, i)
    requires TaskSound(b, b.addresses[i], p.tasks[i])
    ensures TaskSound(b, b.addresses[i], Advance(b, p, i).tasks[i])
    ensures CallsOf(Advance(b, p, i).tasks[i]) == CallsOf(p.tasks[i]) + |Advance(b, p, i).calls| - |p.calls|
  {
    var a := b.addresses[i];
    if p.tasks[i].Holding? {
      var k := p.tasks[i].attempts;
      var first := FirstReturn(b.analyze, a, 0, b.maxAttempts);
      if b.analyze(a, k).Analysed? {
        assert first == k;
      } else if k + 1 == b.maxAttempts {
        assert first == b.maxAttempts;
      }
    }
  }

  lemma StepKeepsSound(b: Batch, p: Pool, i: nat)
    requires Legal(b) && Sound(b, p) && Enabled(p, i)
    ensures Sound(b, Advance(b, p, i))
  {
    StepKeepsPermits(b, p, i);
    StepKeepsTasks(b, p, i);
    var q := Advance(b, p, i);
    forall j | 0 <= j < |q.tasks| ensures multiset(q.calls)[b.addresses[j]] == CallsOf(q.tasks[j]) {
      if q.calls != p.calls {
        assert multiset(q.calls) == multiset(p.calls) + multiset{b.addresses[i]};
      }
    }
  }

  /** Every moment of every run is sound; at most `maxWorkers` tasks hold a permit, and no
      task has made more than `maxAttempts` attempts. */
  lemma {:induction false} EveryMomentIsSound(b: Batch, history: seq<Pool>, t: nat)
    requires Legal(b) && Run(b, history) && t < |history|
    ensures Sound(b, history[t])
    ensures |Holders(history[t])| <= b.maxWorkers
    ensures forall i | 0 <= i < |b.addresses| :: multiset(history[t].calls)[b.addresses[i]] <= b.maxAttempts
  {
    if t == 0 {
      StartIsSound(b);
    } else {
      EveryMomentIsSound(b, history, t - 1);
      assert Step(b, history[t - 1], history[(t - 1) + 1]);
      var i: nat :| Enabled(history[t - 1], i) && history[t] == Advance(b, history[t - 1], i);
      StepKeepsSound(b, history[t - 1], i);
    }
    CallsWithinLimit(b, history[t]);
  }

  lemma CallsWithinLimit(b: Batch, p: Pool)
    requires Legal(b) && Sound(b, p)
    ensures forall i | 0 <= i < |b.addresses| :: multiset(p.calls)[b.addresses[i]] <= b.maxAttempts
  {
    forall i | 0 <= i < |b.addresses| ensures CallsOf(p.tasks[i]) <= b.maxAttempts {
      assert TaskSound(b, b.addresses[i], p.tasks[i]);
      ScanOutcome(b.analyze, b.maxAttempts, b.addresses[i]);
    }
  }

  /** No batch gets stuck: until all tasks have finished, some task can move. */
  lemma NeverStuck(b: Batch, p: Pool) returns (i: nat)
    requires Legal(b) && Sound(b, p) && !AllFinished(p)
    ensures Enabled(p, i)
  {
    i :| i < |p.tasks| && !p.tasks[i].Finished?;
    if !Enabled(p, i) {
      assert |Holders(p)| > 0;
      i :| i in Holders(p);
    }
  }

  // ---- termination ----

  /** Steps task `t` can still take. */
  function StepsLeft(maxAttempts: nat, t: TaskState): int {
    match t
    case Waiting => maxAttempts + 1
    case Holding(k) => maxAttempts - k
    case Finished(_) => 0
  }

  function TotalStepsLeft(maxAttempts: nat, tasks: seq<TaskState>): int {
    if tasks == [] then 0 else StepsLeft(maxAttempts, tasks[0]) + TotalStepsLeft(maxAttempts, tasks[1..])
  }

  lemma {:induction false} StepsLeftUpdate(maxAttempts: nat, tasks: seq<TaskState>, i: nat, t: TaskState)
    requires i < |tasks|
    ensures TotalStepsLeft(maxAttempts, tasks[i := t]) ==
            TotalStepsLeft(maxAttempts, tasks) + StepsLeft(maxAttempts, t) - StepsLeft(maxAttempts, tasks[i])
  {
    if i == 0 {
      assert tasks[i := t][1..] == tasks[1..];
    } else {
      StepsLeftUpdate(maxAttempts, tasks[1..], i - 1, t);
      assert tasks[i := t][1..] == tasks[1..][i - 1 := t];
    }
  }

  lemma {:induction false} StepsLeftNonNegative(b: Batch, tasks: seq<TaskState>)
    requires forall i | 0 <= i < |tasks| :: StepsLeft(b.maxAttempts, tasks[i]) >= 0
    ensures TotalStepsLeft(b.maxAttempts, tasks) >= 0
  {
    if tasks != [] { StepsLeftNonNegative(b, tasks[1..]); }
  }

  lemma SoundIsBounded(b: Batch, p: Pool)
    requires b.maxAttempts >= 1 && Sound(b, p)
    ensures TotalStepsLeft(b.maxAttempts, p.tasks) >= 0
  {
    forall i | 0 <= i < |p.tasks| ensures StepsLeft(b.maxAttempts, p.tasks[i]) >= 0 {
      assert TaskSound(b, b.addresses[i], p.tasks[i]);
    }
    StepsLeftNonNegative(b, p.tasks);
  }

  lemma StepShrinks(b: Batch, p: Pool, i: nat)
    requires Legal(b) && Sound(b, p) && Enabled(p, i)
    ensures TotalStepsLeft(b.maxAttempts, Advance(b, p, i).tasks) < TotalStepsLeft(b.maxAttempts, p.tasks)
  {
    var q := Advance(b, p, i);
    assert TaskSound(b, b.addresses[i], p.tasks[i]);
    StepsLeftUpdate(b.maxAttempts, p.tasks, i, q.tasks[i]);
    assert q.tasks == p.tasks[i := q.tasks[i]];
  }

  /** Every run is finite: it has at most `maxAttempts + 1` steps per task. */
  lemma {:induction false} RunsAreBounded(b: Batch, history: seq<Pool>, t: nat)
    requires Legal(b) && Run(b, history) && t < |history|
    ensures t + TotalStepsLeft(b.maxAttempts, history[t].tasks) <= (b.maxAttempts + 1) * |b.addresses|
    ensures t <= (b.maxAttempts + 1) * |b.addresses|
  {
    EveryMomentIsSound(b, history, t);
    SoundIsBounded(b, history[t]);
    if t == 0 {
      AllWaiting(b.maxAttempts, history[0].tasks);
    } else {
      RunsAreBounded(b, history, t - 1);
      EveryMomentIsSound(b, history, t - 1);
      assert Step(b, history[t - 1], history[(t - 1) + 1]);
      var i: nat :| Enabled(history[t - 1], i) && history[t] == Advance(b, history[t - 1], i);
      StepShrinks(b, history[t - 1], i);
    }
  }

  lemma {:induction false} AllWaiting(maxAttempts: nat, tasks: seq<TaskState>)
    requires forall i | 0 <= i < |tasks| :: tasks[i].Waiting?
    ensures TotalStepsLeft(maxAttempts, tasks) == (maxAttempts + 1) * |tasks|
  {
    if tasks != [] { AllWaiting(maxAttempts, tasks[1..]); }
  }

  // ---- the outcome ----

  /** `gather`: results in task order. */
  function ScansOf(b: Batch): seq<NodeScanResult>
    requires b.maxAttempts >= 1
  {
    seq(|b.addresses|, i requires 0 <= i < |b.addresses| => ScanOf(b.analyze, b.maxAttempts, b.addresses[i]))
  }

  function Gathered(p: Pool): seq<NodeScanResult>
    requires AllFinished(p)
  {
    seq(|p.tasks|, i requires 0 <= i < |p.tasks| => p.tasks[i].result)
  }

  /** The call log of a finished batch: each address as often as its scan made attempts,
      and nothing else. */
  ghost predicate CallsMatch(b: Batch, calls: seq<string>)
    requires b.maxAttempts >= 1
  {
    && (forall a | a in b.addresses :: multiset(calls)[a] == ScanOf(b.analyze, b.maxAttempts, a).retryCount + 1)
    && (forall a | a in calls :: a in b.addresses)
  }

  lemma FinishedOutcome(b: Batch, p: Pool)
    requires Legal(b) && Sound(b, p) && AllFinished(p)
    ensures Gathered(p) == ScansOf(b) && CallsMatch(b, p.calls)
  {
    assert forall i | 0 <= i < |p.tasks| :: TaskSound(b, b.addresses[i], p.tasks[i]);
    forall a | a in b.addresses ensures multiset(p.calls)[a] == ScanOf(b.analyze, b.maxAttempts, a).retryCount + 1 {
      var i :| 0 <= i < |b.addresses| && b.addresses[i] == a;
      assert CallsOf(p.tasks[i]) == p.tasks[i].result.retryCount + 1;
    }
  }

  /** The interleaving does not matter: any two runs that finish gather the same results, in
      the same order, and make the same calls to the analyser. */
  lemma OutcomeIgnoresInterleaving(b: Batch, first: seq<Pool>, second: seq<Pool>)
    requires Legal(b) && Run(b, first) && Run(b, second)
    requires AllFinished(first[|first| - 1]) && AllFinished(second[|second| - 1])
    ensures Gathered(first[|first| - 1]) == Gathered(second[|second| - 1]) == ScansOf(b)
    ensures multiset(first[|first| - 1].calls) == multiset(second[|second| - 1].calls)
  {
    var p, q := first[|first| - 1], second[|second| - 1];
    EveryMomentIsSound(b, first, |first| - 1);
    EveryMomentIsSound(b, second, |second| - 1);
    FinishedOutcome(b, p);
    FinishedOutcome(b, q);
    SameCalls(b, p.calls, q.calls);
  }

  lemma SameCalls(b: Batch, c: seq<string>, d: seq<string>)
    requires b.maxAttempts >= 1 && CallsMatch(b, c) && CallsMatch(b, d)
    ensures multiset(c) == multiset(d)
  {
    forall a ensures multiset(c)[a] == multiset(d)[a] {
      assert a in multiset(c) <==> a in c;
      assert a in multiset(d) <==> a in d;
    }
  }

  /** `run_batch`: whatever task moves next, position `i` of the returned list is the result
      of task `i`. */
  method RunBatch(b: Batch) returns (results: seq<NodeScanResult>, calls: seq<string>)
    requires Legal(b)
    ensures results == ScansOf(b)
    ensures CallsMatch(b, calls)
  {
    if b.addresses == [] {
      return [], [];
    }
    var pool := Start(b);
    StartIsSound(b);
    SoundIsBounded(b, pool);
    while !AllFinished(pool)
      invariant Sound(b, pool) && TotalStepsLeft(b.maxAttempts, pool.tasks) >= 0
      decreases TotalStepsLeft(b.maxAttempts, pool.tasks)
    {
      ghost var witnessTask := NeverStuck(b, pool);
      var i: nat :| i < |pool.tasks| && Enabled(pool, i);
      StepKeepsSound(b, pool, i);
      StepShrinks(b, pool, i);
      pool := Advance(b, pool, i);
      SoundIsBounded(b, pool);
    }
    FinishedOutcome(b, pool);
    return Gathered(pool), pool.calls;
  }
}
