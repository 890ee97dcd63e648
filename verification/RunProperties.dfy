/** What plan and run have to do with each other and with the graph. */
module RunProperties {
  import opened Ordering
  import opened ProtocolGraphs
  import opened Kahn
  import opened ScanPlan
  import opened DependencyResolvers
  import opened NodeScans
  import opened Schedulers

  ghost function Keep(good: set<string>, xs: seq<string>): seq<string> {
    if xs == [] then []
    else
      var last := xs[|xs| - 1];
      Keep(good, xs[..|xs| - 1]) + (if last in good then [last] else [])
  }

  lemma {:induction false} KeepJoin(good: set<string>, a: seq<string>, b: seq<string>)
    ensures Keep(good, a + b) == Keep(good, a) + Keep(good, b)
  {
    if b == [] {
      assert a + b == a;
    } else {
      KeepJoin(good, a, b[..|b| - 1]);
      assert (a + b)[..|a + b| - 1] == a + b[..|b| - 1];
    }
  }

  lemma {:induction false} KeepMembers(good: set<string>, xs: seq<string>)
    ensures SetOf(Keep(good, xs)) == SetOf(xs) * good
    ensures Distinct(xs) ==> Distinct(Keep(good, xs))
  {
    if xs != [] {
      var last, rest := xs[|xs| - 1], xs[..|xs| - 1];
      KeepMembers(good, rest);
      assert xs == rest + [last];
      assert SetOf(xs) == SetOf(rest) + {last};
      if Distinct(xs) {
        NotInSetOf(rest, last);
        NotInSetOf(Keep(good, rest), last);
      }
      if last in good {
        assert SetOf(Keep(good, rest) + [last]) == SetOf(Keep(good, rest)) + {last};
      } else {
        assert Keep(good, rest) + [] == Keep(good, rest);
      }
    }
  }

  lemma {:induction false} KeepEverything(good: set<string>, xs: seq<string>)
    requires SetOf(xs) <= good
    ensures Keep(good, xs) == xs
  {
    if xs != [] {
      var rest := xs[..|xs| - 1];
      assert xs == rest + [xs[|xs| - 1]];
      IndexedIn(xs, |xs| - 1);
      forall x | x in SetOf(rest) ensures x in good { assert x in SetOf(xs); }
      KeepEverything(good, rest);
    }
  }

  lemma ListedJoin(g: ProtocolGraph, a: seq<string>, b: seq<string>)
    requires DependenciesListed(g, a)
    requires forall v | v in b :: Dependencies(g, v) <= SetOf(a)
    ensures DependenciesListed(g, a + b)
  {
    hide Dependencies;
    forall i | 0 <= i < |a + b| ensures Dependencies(g, (a + b)[i]) <= SetOf((a + b)[..i]) {
      if i < |a| {
        assert (a + b)[..i] == a[..i];
      } else {
        assert (a + b)[i] in b;
        assert (a + b)[..i] == a + b[..i - |a|];
        assert SetOf(a) <= SetOf(a + b[..i - |a|]);
      }
    }
  }

  /** The completed nodes, round by round: each once, and everything a node depends on comes
      before it. */
  lemma {:induction false} CompletedInOrder(g: ProtocolGraph, good: set<string>, batches: seq<ExecutionBatch>)
    requires RoundsSoFar(g, good, batches)
    ensures var kept := Keep(good, Flatten(batches));
            && DependenciesListed(g, kept) && Distinct(kept)
            && SetOf(kept) == Scanned(g, good, |batches|) * good
    decreases |batches|
  {
    hide Scanned, Layer, BatchAt, Flatten, Keep, Increasing, Distinct, SetOf, DependenciesListed, Dependencies;
    FlattenedRounds(g, good, batches);
    KeepMembers(good, Flatten(batches));
    if batches == [] {
      NothingKept(g, good);
    } else {
      var n := |batches| - 1;
      var rest := batches[..n];
      CompletedInOrder(g, good, rest);
      assert batches == rest + [batches[n]] && batches[n] == BatchAt(g, good, n);
      FlattenAppend(rest, batches[n]);
      LayerIsNew(g, good, n);
      KeepJoin(good, Flatten(rest), batches[n].addresses);
      KeepMembers(good, batches[n].addresses);
      var added := Keep(good, batches[n].addresses);
      forall v | v in added ensures Dependencies(g, v) <= SetOf(Keep(good, Flatten(rest))) {
        NotInSetOf(added, v);
        LayerDependencies(g, good, n, v);
      }
      ListedJoin(g, Keep(good, Flatten(rest)), added);
    }
  }

  lemma NothingKept(g: ProtocolGraph, good: set<string>)
    ensures DependenciesListed(g, Keep(good, Flatten([])))
  {
  }

  lemma LayerDependencies(g: ProtocolGraph, good: set<string>, n: nat, v: string)
    requires v in Layer(g, good, n)
    ensures Dependencies(g, v) <= Scanned(g, good, n) * good
  {
  }

  /** On an acyclic graph the planned execution order is a topological order of all nodes;
      on a cyclic one it leaves some node out. */
  lemma PlanIsTopologicalOrder(g: ProtocolGraph)
    requires Consistent(g)
    ensures !Cyclic(g) <==> TopologicalOrder(g, Flatten(Batches(g, Addresses(g))))
  {
    hide EverScanned, Flatten, Layer, Scanned, Increasing, Distinct, BatchAt, Keep;
    var all := Addresses(g);
    var order := Flatten(Batches(g, all));
    BatchesAre(g, all, Batches(g, all));
    Settles(g, all);
    CompletedInOrder(g, all, Batches(g, all));
    FlattenedRounds(g, all, Batches(g, all));
    ScannedAreNodes(g, all, |Batches(g, all)|);
    KeepEverything(all, order);
    if Cyclic(g) {
      if TopologicalOrder(g, order) { OrderForbidsCycle(g, order); }
    } else {
      forall v | v in all ensures v in EverScanned(g, all) { UnplannedIsDownstreamOfCycle(g, v); }
      assert SetOf(order) == all;
      DependenciesFirst(g, order);
    }
  }

  lemma {:induction false} SuccessesAreKept(s: Settings, g: ProtocolGraph, xs: seq<string>)
    requires LegalSettings(s) && SetOf(xs) <= Addresses(g)
    ensures Successes(s, xs) == Keep(Good(s, g), xs)
  {
    if xs != [] {
      var last, rest := xs[|xs| - 1], xs[..|xs| - 1];
      assert xs == rest + [last];
      IndexedIn(xs, |xs| - 1);
      forall x | x in SetOf(rest) ensures x in Addresses(g) { assert x in SetOf(xs); }
      SuccessesAreKept(s, g, rest);
      ScanOutcome(s.analyze, s.maxAttempts, last);
    }
  }

  /** The execution order of a run: the completed nodes, each once, and everything a node
      depends on has completed before it. */
  lemma RunOrderRespectsDependencies(s: Settings, g: ProtocolGraph)
    requires LegalSettings(s) && Consistent(g)
    ensures var order := Successes(s, Flatten(Batches(g, Good(s, g))));
            && Distinct(order) && SetOf(order) == EverScanned(g, Good(s, g)) * Good(s, g)
            && DependenciesListed(g, order)
  {
    hide EverScanned, Flatten, Layer, Scanned, Increasing, Distinct, BatchAt, Keep, Good, Consistent, Addresses,
      SetOf, DependenciesListed, Successes;
    var batches := Batches(g, Good(s, g));
    BatchesAre(g, Good(s, g), batches);
    Settles(g, Good(s, g));
    FlattenedRounds(g, Good(s, g), batches);
    ScannedAreNodes(g, Good(s, g), |batches|);
    CompletedInOrder(g, Good(s, g), batches);
    SuccessesAreKept(s, g, Flatten(batches));
  }

  lemma AllGood(s: Settings, g: ProtocolGraph)
    requires forall a | a in Addresses(g) :: Succeeds(s.analyze, s.maxAttempts, a)
    ensures Good(s, g) == Addresses(g)
  {
    hide Addresses, Succeeds;
  }

  /** When every scan succeeds, the executed batches are the planned ones and the execution
      order is the planned order. */
  lemma SuccessfulRunFollowsThePlan(s: Settings, g: ProtocolGraph)
    requires LegalSettings(s) && Consistent(g)
    requires forall a | a in Addresses(g) :: Succeeds(s.analyze, s.maxAttempts, a)
    ensures Batches(g, Good(s, g)) == Batches(g, Addresses(g))
    ensures Successes(s, Flatten(Batches(g, Good(s, g)))) == Flatten(Batches(g, Addresses(g)))
  {
    hide EverScanned, Flatten, Layer, Scanned, Increasing, Distinct, BatchAt, Keep, Good, Consistent, Addresses,
      SetOf, Successes, Succeeds;
    AllGood(s, g);
    var batches := Batches(g, Good(s, g));
    BatchesAre(g, Good(s, g), batches);
    FlattenedRounds(g, Good(s, g), batches);
    ScannedAreNodes(g, Good(s, g), |batches|);
    SuccessesAreKept(s, g, Flatten(batches));
    KeepEverything(Good(s, g), Flatten(batches));
  }

  // ---- calls to the analyser ----

  /** A node is analysed at most as often as attempts are allowed, not at all exactly when it
      ends up skipped, and otherwise once more than the retries its result reports. */
  lemma CallsPerNode(s: Settings, g: ProtocolGraph, calls: seq<string>, a: string)
    requires LegalSettings(s) && a in Addresses(g) && CallLog(s, calls, EverScanned(g, Good(s, g)))
    ensures var r := FinalResult(s, g, a);
            && multiset(calls)[a] <= s.maxAttempts
            && (r.status == Skipped <==> a !in calls)
            && (r.status != Skipped ==> multiset(calls)[a] == r.retryCount + 1)
  {
    FinalStatus(s, g, a);
    ScanOutcome(s.analyze, s.maxAttempts, a);
    hide EverScanned, Good, Addresses;
    assert a in calls <==> a in multiset(calls);
  }

  // ---- terminal statuses ----

  /** Once an entry is no longer pending it never changes: not in a later round, not by
      skipping more dependents, and not by the final marking. */
  lemma TerminalStatusesStay(
    s: Settings, g: ProtocolGraph, m: nat, n: nat, early: set<string>, late: set<string>, a: string)
    requires LegalSettings(s) && a in Addresses(g) && m <= n
    requires early <= FailuresIn(s, g, Scanned(g, Good(s, g), m)) && early <= late
    requires late <= FailuresIn(s, g, Scanned(g, Good(s, g), n))
    requires Entry(s, g, Scanned(g, Good(s, g), m), early, a).status != Pending
    ensures Entry(s, g, Scanned(g, Good(s, g), n), late, a) == Entry(s, g, Scanned(g, Good(s, g), m), early, a)
    ensures FinalResult(s, g, a) == Entry(s, g, Scanned(g, Good(s, g), m), early, a)
  {
    hide Scanned, Good, Addresses, FailedDependency;
    var done := Scanned(g, Good(s, g), m);
    ScannedMonotone(g, Good(s, g), m, n);
    Settles(g, Good(s, g));
    assert done <= EverScanned(g, Good(s, g));
    if a !in done {
      assert FailedDependency(g, early, a);
      FailureBlocks(g, Good(s, g), early, a, n);
      FailureBlocks(g, Good(s, g), early, a, |Addresses(g)|);
      FailedDependencyGrows(g, early, late, a);
      FailedDependencyGrows(g, early, EverScanned(g, Good(s, g)) - Good(s, g), a);
    }
  }

  /** A node with a failed dependency is never scanned. */
  lemma FailureBlocks(g: ProtocolGraph, good: set<string>, failed: set<string>, a: string, n: nat)
    requires failed !! good && FailedDependency(g, failed, a)
    ensures a !in Scanned(g, good, n)
  {
    hide Dependencies, Addresses;
    var d :| d in Dependencies(g, a) * failed;
  }

  // ---- the topological sort against the plan ----

  lemma {:induction false} DownwardClosedIsPrefix(r: seq<string>, part: set<string>) returns (k: nat)
    requires part <= SetOf(r)
    requires forall i, j | 0 <= i < j < |r| && r[j] in part :: r[i] in part
    ensures k <= |r| && part == SetOf(r[..k])
  {
    if r == [] || r[|r| - 1] in part {
      k := |r|;
      assert r[..k] == r;
    } else {
      var rest := r[..|r| - 1];
      assert r == rest + [r[|r| - 1]];
      k := DownwardClosedIsPrefix(rest, part);
      assert rest[..k] == r[..k];
    }
  }

  lemma FreedTogether(g: ProtocolGraph, r: seq<string>, k: nat, i: nat, j: nat)
    requires Consistent(g) && OwnLists(g) && QueueOrder(g, r)
    requires i < j < |r| && k <= |r| && Dependencies(g, r[j]) <= SetOf(r[..k])
    ensures Dependencies(g, r[i]) <= SetOf(r[..k])
  {
    FreedByPrefix(g, r, k, r[i]);
    FreedByPrefix(g, r, k, r[j]);
    MetPrefix(g, r, k);
    hide Dependencies, Consistent, OwnLists, Released, Met, Freed, InTurn, Addresses, SetOf;
    InTurnFreed(g, Met(g, r[..k]), Met(g, r), r[i], r[j]);
  }

  lemma PlannedTogether(g: ProtocolGraph, r: seq<string>, k: nat, n: nat, i: nat, j: nat)
    requires Consistent(g) && OwnLists(g) && QueueOrder(g, r)
    requires i < j < |r| && k <= |r| && Scanned(g, Addresses(g), n) == SetOf(r[..k])
    requires r[j] in Scanned(g, Addresses(g), n + 1)
    ensures r[i] in Scanned(g, Addresses(g), n + 1)
  {
    hide Dependencies, Scanned, Consistent, OwnLists, Released, InTurnAll, SetOf, Addresses;
    IndexedIn(r, i);
    IndexedIn(r, j);
    NextRound(g, r[i], n);
    NextRound(g, r[j], n);
    FreedTogether(g, r, k, i, j);
  }

  /** The nodes planned in the first `n` rounds are a prefix of the topological sort. */
  lemma {:induction false} RoundsArePrefixes(g: ProtocolGraph, r: seq<string>, n: nat) returns (k: nat)
    requires Consistent(g) && OwnLists(g) && QueueOrder(g, r)
    ensures k <= |r| && Scanned(g, Addresses(g), n) == SetOf(r[..k])
  {
    hide Dependencies, Consistent, OwnLists, Released, InTurnAll, Addresses, Distinct;
    if n == 0 {
      k := 0;
    } else {
      var h := RoundsArePrefixes(g, r, n - 1);
      ScannedAreNodes(g, Addresses(g), n);
      hide Scanned, SetOf;
      forall i, j | 0 <= i < j < |r| && r[j] in Scanned(g, Addresses(g), n)
          ensures r[i] in Scanned(g, Addresses(g), n) {
        PlannedTogether(g, r, h, n - 1, i, j);
      }
      k := DownwardClosedIsPrefix(r, Scanned(g, Addresses(g), n));
    }
  }

  /** The topological sort lists the nodes round by round of the planner, which layers the
      same graph with a different algorithm. */
  lemma SortFollowsThePlan(g: ProtocolGraph, r: seq<string>, i: nat, j: nat, a: nat, b: nat)
    requires Consistent(g) && OwnLists(g) && QueueOrder(g, r)
    requires i < j < |r| && r[i] in Layer(g, Addresses(g), a) && r[j] in Layer(g, Addresses(g), b)
    ensures a <= b
  {
    hide Neighbors, Consistent, OwnLists, Released, InTurnAll, Addresses, Scanned;
    if b < a {
      var k := RoundsArePrefixes(g, r, b + 1);
      assert r[j] in SetOf(r[..k]);
      assert r[i] == r[..k][i];
      ScannedMonotone(g, Addresses(g), b + 1, a);
    }
  }
}
