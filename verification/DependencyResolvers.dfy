/** The static planner: Kahn layering over the indegree table. */
module DependencyResolvers {
  import opened Ordering
  import opened ProtocolGraphs
  import opened Kahn
  import opened ScanPlan

  /** Incoming and outgoing maps keyed by node address. */
  method BuildDependencyMaps(g: ProtocolGraph)
    returns (incoming: map<string, seq<string>>, outgoing: map<string, seq<string>>)
    ensures incoming == ReverseAdjacency(g) && outgoing == g.adjacency
  {
    incoming := BuildReverseAdjacency(g);
    outgoing := g.adjacency;
  }

  lemma IncomingAre(g: ProtocolGraph, v: string)
    requires v in Addresses(g)
    ensures v in ReverseAdjacency(g)
    ensures SetOf(ReverseAdjacency(g)[v]) == Dependencies(g, v)
    ensures Distinct(ReverseAdjacency(g)[v]) && Increasing(ReverseAdjacency(g)[v], StringLess)
    ensures |ReverseAdjacency(g)[v]| == |Dependencies(g, v)|
  {
  }

  /** How many dependencies of `v` have not been removed. */
  ghost function Outstanding(g: ProtocolGraph, v: string, removed: set<string>): nat {
    |Dependencies(g, v) - removed|
  }

  /** The table counts, for every address it still holds, the dependencies not yet removed;
      for the addresses in `part` the next removal has already been subtracted. */
  ghost predicate Degrees(g: ProtocolGraph, table: map<string, int>, removed: set<string>, part: set<string>) {
    forall v | v in table :: table[v] == Outstanding(g, v, removed) - (if v in part then 1 else 0)
  }

  /** After subtracting for everything that depends on `u`, `u` itself counts as removed. */
  lemma DegreesRemove(g: ProtocolGraph, table: map<string, int>, removed: set<string>, u: string, part: set<string>)
    requires u !in removed && Degrees(g, table, removed, part)
    requires forall v :: v in part <==> u in Dependencies(g, v)
    ensures Degrees(g, table, removed + {u}, {})
  {
    hide Dependencies;
    forall v | v in table ensures table[v] == Outstanding(g, v, removed + {u}) {
      DifferenceStep(Dependencies(g, v), removed, u);
    }
  }

  lemma DegreesStep(g: ProtocolGraph, table: map<string, int>, removed: set<string>, part: set<string>, w: string)
    requires Degrees(g, table, removed, part) && w !in part && w in table
    ensures Degrees(g, table[w := table[w] - 1], removed, part + {w})
  {
  }

  lemma DegreesSkip(g: ProtocolGraph, table: map<string, int>, removed: set<string>, part: set<string>, w: string)
    requires Degrees(g, table, removed, part) && w !in table
    ensures Degrees(g, table, removed, part + {w})
  {
  }

  lemma ZeroDegree(g: ProtocolGraph, table: map<string, int>, removed: set<string>, v: string)
    requires Degrees(g, table, removed, {}) && v in table
    ensures table[v] == 0 <==> Dependencies(g, v) <= removed
  {
    hide Dependencies;
    DifferenceEmpty(Dependencies(g, v), removed);
  }

  /** The indegree table between two rounds, or within one: it holds the addresses not yet
      removed and counts their dependencies not yet removed. */
  ghost predicate Planning(g: ProtocolGraph, indegree: map<string, int>, removed: set<string>) {
    && removed <= Addresses(g)
    && indegree.Keys == Addresses(g) - removed
    && Degrees(g, indegree, removed, {})
  }

  lemma NothingRemoved(g: ProtocolGraph, v: string)
    ensures Outstanding(g, v, {}) == |Dependencies(g, v)|
  {
    assert Dependencies(g, v) - {} == Dependencies(g, v);
  }

  lemma PlanningStart(g: ProtocolGraph, indegree: map<string, int>)
    requires indegree == map a | a in Addresses(g) :: |ReverseAdjacency(g)[a]|
    ensures Planning(g, indegree, Scanned(g, Addresses(g), 0))
  {
    hide Outstanding, ReverseAdjacency;
    forall v | v in indegree ensures indegree[v] == Outstanding(g, v, {}) {
      IncomingAre(g, v);
      NothingRemoved(g, v);
    }
  }

  /** The addresses with count zero are exactly the next round. */
  lemma ZerosAreNextLayer(g: ProtocolGraph, indegree: map<string, int>, n: nat)
    requires Consistent(g) && Planning(g, indegree, Scanned(g, Addresses(g), n))
    ensures ZeroSet(indegree) == Layer(g, Addresses(g), n)
  {
    hide Consistent, Dependencies, Outstanding;
    var removed := Scanned(g, Addresses(g), n);
    ScannedGrows(g, Addresses(g), n);
    ScannedAreNodes(g, Addresses(g), n + 1);
    forall v | v in indegree ensures v in ZeroSet(indegree) <==> v in Layer(g, Addresses(g), n) {
      ZeroDegree(g, indegree, removed, v);
      NextRound(g, v, n);
    }
  }

  lemma NextRound(g: ProtocolGraph, v: string, n: nat)
    requires v in Addresses(g)
    ensures v in Scanned(g, Addresses(g), n + 1) <==> Dependencies(g, v) <= Scanned(g, Addresses(g), n)
  {
    ScannedAreNodes(g, Addresses(g), n);
    hide Dependencies, Addresses;
    assert Scanned(g, Addresses(g), n) * Addresses(g) == Scanned(g, Addresses(g), n);
  }

  /** `outgoing.get(u, ())`. */
  function Children(g: ProtocolGraph, u: string): seq<string> {
    if u in g.adjacency then g.adjacency[u] else []
  }

  /** Within a round, while `u` is being removed: it is out of the table, and the edges from
      it into `part` have been subtracted. */
  ghost predicate Releasing(
    g: ProtocolGraph, indegree: map<string, int>, removed: set<string>, u: string, part: set<string>) {
    && u in Addresses(g) && u !in removed && removed <= Addresses(g)
    && indegree.Keys == Addresses(g) - removed - {u}
    && Degrees(g, indegree, removed, part)
  }

  lemma ReleasingStart(g: ProtocolGraph, indegree: map<string, int>, removed: set<string>, u: string)
    requires Planning(g, indegree, removed) && u in indegree
    ensures Releasing(g, indegree - {u}, removed, u, {}) && u in Addresses(g)
    ensures (indegree - {u}).Keys == indegree.Keys - {u}
  {
    hide Outstanding, Dependencies;
  }

  lemma ReleasingChild(
    g: ProtocolGraph, table: map<string, int>, removed: set<string>, u: string, part: set<string>, w: string)
    requires Releasing(g, table, removed, u, part) && w !in part
    ensures var t := if w in table then table[w := table[w] - 1] else table;
            Releasing(g, t, removed, u, part + {w}) && t.Keys == table.Keys
  {
    hide Outstanding, Dependencies;
    if w in table { DegreesStep(g, table, removed, part, w); } else { DegreesSkip(g, table, removed, part, w); }
    hide Degrees;
  }

  lemma ChildDepends(g: ProtocolGraph, u: string, v: string)
    ensures v in SetOf(Children(g, u)) <==> u in Dependencies(g, v)
  {
  }

  lemma ReleasingEnd(g: ProtocolGraph, indegree: map<string, int>, removed: set<string>, u: string)
    requires Releasing(g, indegree, removed, u, SetOf(Children(g, u)))
    ensures Planning(g, indegree, removed + {u})
  {
    hide Degrees, Dependencies, SetOf, Children, Addresses;
    forall v ensures v in SetOf(Children(g, u)) <==> u in Dependencies(g, v) { ChildDepends(g, u, v); }
    DegreesRemove(g, indegree, removed, u, SetOf(Children(g, u)));
    assert Addresses(g) - removed - {u} == Addresses(g) - (removed + {u});
  }

  /** One round of the planner: every ready address leaves the table, and one is subtracted
      from every address still in it for each edge from a ready one. */
  method ReleaseRound(
    g: ProtocolGraph, outgoing: map<string, seq<string>>, indegree: map<string, int>, ready: seq<string>,
    ghost base: set<string>)
    returns (next: map<string, int>)
    requires Consistent(g) && outgoing == g.adjacency
    requires Planning(g, indegree, base)
    requires Distinct(ready) && SetOf(ready) <= indegree.Keys
    ensures Planning(g, next, base + SetOf(ready))
  {
    hide Planning, Releasing, Consistent, Addresses, SetOf, Distinct;
    next := indegree;
    RoundStart(g, indegree, base, ready);
    for k := 0 to |ready|
      invariant Planning(g, next, base + SetOf(ready[..k]))
      invariant forall i | k <= i < |ready| :: ready[i] in next
    {
      var address := ready[k];
      ghost var removed := base + SetOf(ready[..k]);
      SetOfTake(ready, k);
      ReleasingStart(g, next, removed, address);
      DistinctRest(ready, k);
      next := next - {address};
      var children := if address in outgoing then outgoing[address] else [];
      ChildrenDistinct(g, address);
      SetOfTake(children, 0);
      for j := 0 to |children|
        invariant Releasing(g, next, removed, address, SetOf(children[..j]))
        invariant forall i | k < i < |ready| :: ready[i] in next
      {
        var child := children[j];
        SetOfTake(children, j);
        NotYetTaken(children, j);
        ReleasingChild(g, next, removed, address, SetOf(children[..j]), child);
        if child in next {
          next := next[child := next[child] - 1];
        }
      }
      SetOfTake(children, |children|);
      ReleasingEnd(g, next, removed, address);
      assert removed + {address} == base + SetOf(ready[..k + 1]);
    }
    SetOfTake(ready, |ready|);
  }

  /** The batches of a run in which every scan succeeds, that is, the dependency layers. */
  method ResolveBatches(g: ProtocolGraph) returns (batches: seq<ExecutionBatch>)
    requires Consistent(g)
    ensures batches == Batches(g, Addresses(g))
    ensures forall i | 0 <= i < |batches| :: InPlace(batches[i], i)
  {
    hide Planning, Consistent, Scanned, Layer, Addresses, SetOf, ZeroSet, ReverseAdjacency, Batches, RoundsSoFar,
      Increasing, Distinct, Unscanned, InPlace;
    var incoming, outgoing := BuildDependencyMaps(g);
    AddressesHaveIncoming(g);
    var indegree: map<string, int> := map a | a in Addresses(g) :: |incoming[a]|;
    ghost var all := Addresses(g);
    batches := [];
    NoRoundsYet(g, all);
    PlanningStart(g, indegree);
    while true
      invariant Planning(g, indegree, Scanned(g, all, |batches|))
      invariant RoundsSoFar(g, all, batches)
      decreases Unscanned(g, all, |batches|)
    {
      ghost var n := |batches|;
      ZerosAreNextLayer(g, indegree, n);
      var ready := SortedSet(ZeroSet(indegree));
      SetOfEmpty(ready);
      if ready == [] {
        break;
      }
      LayerShrinksRest(g, all, n);
      AnotherRound(g, all, batches, ready);
      ZerosAreHeld(indegree);
      NextScanned(g, all, n);
      batches := batches + [ExecutionBatch(|batches|, ready)];
      indegree := ReleaseRound(g, outgoing, indegree, ready, Scanned(g, all, n));
    }
    RoundsComplete(g, all, batches);
    AllInPlace(g, all, batches);
  }

  lemma ZerosAreHeld(table: map<string, int>)
    ensures ZeroSet(table) <= table.Keys
  {
  }

  lemma RoundStart(g: ProtocolGraph, indegree: map<string, int>, base: set<string>, ready: seq<string>)
    requires SetOf(ready) <= indegree.Keys && Planning(g, indegree, base)
    ensures Planning(g, indegree, base + SetOf(ready[..0]))
    ensures forall i | 0 <= i < |ready| :: ready[i] in indegree
  {
    hide Planning;
    SetOfTake(ready, 0);
    assert base + {} == base;
    forall i | 0 <= i < |ready| ensures ready[i] in indegree { IndexedIn(ready, i); }
  }

  lemma AddressesHaveIncoming(g: ProtocolGraph)
    ensures forall a | a in Addresses(g) :: a in ReverseAdjacency(g)
  {
  }

  lemma DistinctRest<T(!new)>(s: seq<T>, k: nat)
    requires Distinct(s) && k < |s|
    ensures forall i | k < i < |s| :: s[i] != s[k]
  {
  }

  lemma ChildrenDistinct(g: ProtocolGraph, u: string)
    requires Consistent(g)
    ensures Distinct(Children(g, u))
  {
  }

  lemma NextScanned(g: ProtocolGraph, good: set<string>, n: nat)
    ensures Scanned(g, good, n) + Layer(g, good, n) == Scanned(g, good, n + 1)
  {
    ScannedGrows(g, good, n);
    hide Scanned;
  }

  /** The planned batches, one after the other. */
  method ResolveExecutionOrder(g: ProtocolGraph) returns (order: seq<string>)
    requires Consistent(g)
    ensures order == Flatten(Batches(g, Addresses(g)))
  {
    hide Batches, Flatten;
    var batches := ResolveBatches(g);
    order := Flatten(batches);
  }
}
