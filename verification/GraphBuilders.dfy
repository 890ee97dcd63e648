/** The graph builder: nodes, edges, adjacency map, validation. */
module GraphBuilders {
  import opened Ordering
  import opened Text
  import opened ProtocolGraphs
  import opened ShortestWalks
  import opened DepthFirst
  import opened EdgeBuilders
  import opened NodeClassifiers
  import opened GraphValidators

  function EdgeTargets(edges: seq<ProtocolEdge>, u: string): set<string> {
    set e | e in edges && e.source == u :: e.target
  }

  ghost predicate TargetsSoFar(all: set<string>, edges: seq<ProtocolEdge>, m: map<string, set<string>>) {
    && m.Keys == all + Endpoints(edges)
    && forall u | u in m :: m[u] == EdgeTargets(edges, u)
  }

  lemma TargetsStep(all: set<string>, edges: seq<ProtocolEdge>, m: map<string, set<string>>, e: ProtocolEdge)
    requires TargetsSoFar(all, edges, m)
    ensures var added := m[e.source := (if e.source in m then m[e.source] else {}) + {e.target}];
            TargetsSoFar(all, edges + [e], if e.target in added then added else added[e.target := {}])
  {
    hide Endpoints, EdgeTargets;
    var added := m[e.source := (if e.source in m then m[e.source] else {}) + {e.target}];
    var next := if e.target in added then added else added[e.target := {}];
    EndpointsStep(edges, e);
    forall u | u in next ensures next[u] == EdgeTargets(edges + [e], u) {
      NewTargets(edges, e, u);
      if u !in m { NoTargets(edges, u); }
    }
  }

  lemma NewTargets(edges: seq<ProtocolEdge>, e: ProtocolEdge, u: string)
    ensures EdgeTargets(edges + [e], u) == EdgeTargets(edges, u) + (if e.source == u then {e.target} else {})
  {
    assert forall f :: f in edges + [e] <==> f in edges || f == e;
  }

  lemma NoTargets(edges: seq<ProtocolEdge>, u: string)
    requires u !in Endpoints(edges)
    ensures EdgeTargets(edges, u) == {}
  {
  }

  /** `_build_adjacency_map`: for every node and endpoint, its edges' targets, sorted. */
  method BuildAdjacencyMap(
    nodes: seq<ProtocolNode>, edges: seq<ProtocolEdge>) returns (adjacency: map<string, seq<string>>)
    ensures adjacency.Keys == SetOf(AddressList(nodes)) + Endpoints(edges)
    ensures forall u | u in adjacency :: Lists(adjacency[u], EdgeTargets(edges, u))
  {
    hide SetOf, TargetsSoFar, Endpoints, EdgeTargets;
    var all := SetOf(AddressList(nodes));
    var targets: map<string, set<string>> := map a | a in all :: {};
    assert TargetsSoFar(all, [], targets) by { TargetsStart(all); }
    for i := 0 to |edges|
      invariant TargetsSoFar(all, edges[..i], targets)
    {
      var edge := edges[i];
      TargetsStep(all, edges[..i], targets, edge);
      assert edges[..i + 1] == edges[..i] + [edge];
      targets := targets[edge.source := (if edge.source in targets then targets[edge.source] else {}) + {edge.target}];
      if edge.target !in targets {
        targets := targets[edge.target := {}];
      }
    }
    assert edges[..|edges|] == edges;
    TargetsDone(all, edges, targets);
    adjacency := map a | a in targets :: SortedSet(targets[a]);
  }

  lemma TargetsStart(all: set<string>)
    ensures TargetsSoFar(all, [], map a | a in all :: {})
  {
  }

  lemma TargetsDone(all: set<string>, edges: seq<ProtocolEdge>, m: map<string, set<string>>)
    requires TargetsSoFar(all, edges, m)
    ensures m.Keys == all + Endpoints(edges)
    ensures forall u | u in m :: m[u] == EdgeTargets(edges, u)
  {
  }

  datatype Built = Graph(graph: ProtocolGraph) | Invalid(issues: seq<Issue>)

  /** What a caller can check before building: the root is among the discovered contracts and
      nothing is linked to itself. */
  ghost predicate Buildable(d: Discovery) {
    RootOf(d) in Known(d) && forall u :: !Linked(d, u, u)
  }

  /** The members of the set, sorted, each once. */
  ghost predicate Lists(r: seq<string>, s: set<string>) {
    Increasing(r, StringLess) && Distinct(r) && SetOf(r) == s
  }

  /** The graph before validation. */
  ghost predicate Assembled(d: Discovery, g: ProtocolGraph) {
    && g.rootNode == RootOf(d)
    && Distinct(AddressList(g.nodes)) && Addresses(g) == Known(d)
    && (forall u, v :: Joins(g.edges, u, v) <==> Linked(d, u, v))
    && g.adjacency.Keys == Known(d) + Endpoints(g.edges)
    && (forall u | u in g.adjacency :: Lists(g.adjacency[u], EdgeTargets(g.edges, u)))
  }

  /** What the graph holds: the best of the edges the discovery infers, and the nodes of the
      contracts that represent the addresses, sorted and then marked. */
  ghost predicate FilledFrom(d: Discovery, g: ProtocolGraph) {
    && (forall e :: e in g.edges <==> BestInferred(d, e)) && InKeyOrder(g.edges)
    && exists kept :: MarkedFrom(d, g, kept)
  }

  ghost predicate MarkedFrom(d: Discovery, g: ProtocolGraph, kept: seq<ProtocolNode>) {
    && |kept| == |g.nodes| && NodesInOrder(kept)
    && (forall n :: n in kept <==> Chosen(d, n)) && (forall n | n in kept :: Represents(d, n))
    && forall i | 0 <= i < |kept| :: MarkedAs(kept[i], RootOf(d), g.nodes[i])
  }

  method Assemble(d: Discovery) returns (g: ProtocolGraph)
    ensures Assembled(d, g) && FilledFrom(d, g)
  {
    hide Distinct, Known, Linked, Joins, SetOf, Endpoints, EdgeTargets, BestInferred, NodesInOrder, Chosen,
      Represents, InKeyOrder, Increasing, AddressList, MarkedNode, MarkedAs, Assembled, FilledFrom, Lower, IsBest,
      CandidateEdges;
    var root := RootOf(d);
    var kept := BuildNodes(d);
    var nodes := MarkRootNode(kept, root);
    var edges := BuildEdges(d);
    var adjacency := BuildAdjacencyMap(nodes, edges);
    g := ProtocolGraph(nodes, edges, root, adjacency);
    AssembledFrom(d, g);
    FilledWith(d, g, kept);
  }

  lemma AssembledFrom(d: Discovery, g: ProtocolGraph)
    requires g.rootNode == RootOf(d) && Distinct(AddressList(g.nodes)) && SetOf(AddressList(g.nodes)) == Known(d)
    requires forall u, v :: Joins(g.edges, u, v) <==> Linked(d, u, v)
    requires g.adjacency.Keys == SetOf(AddressList(g.nodes)) + Endpoints(g.edges)
    requires forall u | u in g.adjacency :: Lists(g.adjacency[u], EdgeTargets(g.edges, u))
    ensures Assembled(d, g)
  {
    hide Distinct, Known, Linked, Joins, SetOf, Endpoints, EdgeTargets, Increasing, AddressList, Lower;
    AddressesAre(g);
  }

  lemma FilledWith(d: Discovery, g: ProtocolGraph, kept: seq<ProtocolNode>)
    requires (forall e :: e in g.edges <==> BestInferred(d, e)) && InKeyOrder(g.edges)
    requires |kept| == |g.nodes| && NodesInOrder(kept) && forall n :: n in kept <==> Chosen(d, n)
    requires forall n | n in kept :: Represents(d, n)
    requires forall i | 0 <= i < |kept| :: MarkedAs(kept[i], RootOf(d), g.nodes[i])
    ensures FilledFrom(d, g)
  {
    hide BestInferred, NodesInOrder, Chosen, Represents, InKeyOrder, MarkedAs, Lower;
    assert MarkedFrom(d, g, kept);
  }

  lemma AdjacencyIsLinked(d: Discovery, g: ProtocolGraph)
    requires Assembled(d, g)
    ensures AdjacencyMatchesEdges(g)
    ensures forall u, v :: u in g.adjacency && v in g.adjacency[u] <==> Linked(d, u, v)
  {
    hide Linked, Known, Distinct, Increasing;
    forall u, v ensures u in g.adjacency && v in g.adjacency[u] <==> Joins(g.edges, u, v) {
      assert Joins(g.edges, u, v) ==> u in Endpoints(g.edges);
      if u in g.adjacency {
        NotInSetOf(g.adjacency[u], v);
        assert v in EdgeTargets(g.edges, u) <==> Joins(g.edges, u, v);
      }
    }
  }

  lemma LinkedEndsAreKnown(d: Discovery, u: string, v: string)
    requires Linked(d, u, v)
    ensures u in Known(d) && (v in Known(d) || v == RootOf(d))
  {
  }

  /** Validity of the assembled graph, in terms of the discovery. */
  lemma ValidWhenBuildable(d: Discovery, g: ProtocolGraph)
    requires Assembled(d, g)
    ensures HasSelfLoop(g.edges) <==> exists u :: Linked(d, u, u)
    ensures HasInvalidEdge(g, g.edges) <==> RootOf(d) !in Known(d) && exists u :: Linked(d, u, RootOf(d))
  {
    hide Linked, Known, Distinct, Increasing, Endpoints, EdgeTargets, Joins, HasSelfLoop, HasInvalidEdge, Addresses,
      Lower;
    LoopWhenLinked(d, g.edges);
    DanglingWhenRootMissing(d, g);
  }

  lemma LoopWhenLinked(d: Discovery, edges: seq<ProtocolEdge>)
    requires forall u, v :: Joins(edges, u, v) <==> Linked(d, u, v)
    ensures HasSelfLoop(edges) <==> exists u :: Linked(d, u, u)
  {
    hide Linked;
    if e :| e in edges && e.source == e.target {
      assert Joins(edges, e.source, e.source);
    }
    if u :| Linked(d, u, u) {
      assert Joins(edges, u, u);
    }
  }

  lemma DanglingWhenRootMissing(d: Discovery, g: ProtocolGraph)
    requires forall u, v :: Joins(g.edges, u, v) <==> Linked(d, u, v)
    requires Addresses(g) == Known(d)
    ensures HasInvalidEdge(g, g.edges) <==> RootOf(d) !in Known(d) && exists u :: Linked(d, u, RootOf(d))
  {
    hide Linked, Known, Addresses, Lower;
    if e :| e in g.edges && (e.source !in Addresses(g) || e.target !in Addresses(g)) {
      assert Joins(g.edges, e.source, e.target);
      LinkedEndsAreKnown(d, e.source, e.target);
      assert Linked(d, e.source, RootOf(d));
    }
    if u :| Linked(d, u, RootOf(d)) && RootOf(d) !in Known(d) {
      assert Joins(g.edges, u, RootOf(d));
    }
  }

  /** Whatever the discovery, the planner and the scheduler can take the assembled graph. */
  lemma AssembledIsConsistent(d: Discovery, g: ProtocolGraph)
    requires Assembled(d, g)
    ensures Consistent(g)
  {
    hide Assembled, Linked, Known, Distinct, Addresses, AddressList;
    AssembledNodes(d, g);
    forall a | a in g.adjacency
      ensures Distinct(g.adjacency[a]) && (g.adjacency[a] != [] ==> a in Known(d))
    {
      AssembledList(d, g, a);
    }
  }

  /** Each list of targets is sorted and without repetition, and a source of edges is known. */
  lemma AssembledList(d: Discovery, g: ProtocolGraph, a: string)
    requires Assembled(d, g) && a in g.adjacency
    ensures Distinct(g.adjacency[a]) && Increasing(g.adjacency[a], StringLess)
    ensures g.adjacency[a] != [] ==> a in Known(d)
  {
    AdjacencyIsLinked(d, g);
    hide Linked, Known, Joins, Endpoints, EdgeTargets, Increasing, Distinct, Addresses, AddressList, StringLess;
    if g.adjacency[a] != [] {
      assert g.adjacency[a][0] in g.adjacency[a];
      LinkedEndsAreKnown(d, a, g.adjacency[a][0]);
    }
  }

  /** So on every assembled graph the path search finds the least of the shortest paths. */
  lemma AssembledListsAreSorted(d: Discovery, g: ProtocolGraph)
    requires Assembled(d, g)
    ensures SortedLists(g)
  {
    hide Assembled, Increasing, Distinct, StringLess;
    forall a | a in g.adjacency ensures Increasing(g.adjacency[a], StringLess) && Distinct(g.adjacency[a]) {
      AssembledList(d, g, a);
    }
  }

  /** And case makes no difference on it exactly when the contracts are lower case. */
  lemma LowerCaseWhenContractsAre(d: Discovery, g: ProtocolGraph)
    requires Assembled(d, g)
    ensures LowerCase(g) <==> forall a | a in Known(d) :: IsLower(a)
  {
    AdjacencyIsLinked(d, g);
    RootIsLower(d);
    hide Linked, Known, Joins, Endpoints, EdgeTargets, Increasing, Distinct, Addresses, IsLower, Lower;
    forall t | t in Targets(g) ensures t in Known(d) || t == RootOf(d) {
      var k :| k in g.adjacency && t in g.adjacency[k];
      LinkedEndsAreKnown(d, k, t);
    }
  }

  lemma BuiltKeys(d: Discovery, g: ProtocolGraph)
    requires Assembled(d, g) && Buildable(d)
    ensures g.adjacency.Keys == Addresses(g) && Distinct(AddressList(g.nodes))
  {
    hide Linked, Distinct, EdgeTargets, Increasing, Known, Endpoints;
    forall a | a in Endpoints(g.edges) ensures a in Known(d) {
      EndpointIsKnown(d, g, a);
    }
  }

  lemma BuiltTargets(d: Discovery, g: ProtocolGraph, u: string)
    requires Assembled(d, g) && Buildable(d) && u in g.adjacency
    ensures Distinct(g.adjacency[u]) && SetOf(g.adjacency[u]) <= Addresses(g)
  {
    AdjacencyIsLinked(d, g);
    hide Linked, Distinct, EdgeTargets, Increasing, Known, Joins, Endpoints, Addresses;
    forall v | v in SetOf(g.adjacency[u]) ensures v in Known(d) {
      NotInSetOf(g.adjacency[u], v);
      assert Linked(d, u, v);
      LinkedEndsAreKnown(d, u, v);
    }
  }

  /** A buildable discovery with lower-case contracts yields a well-formed graph, and only
      such a one does. */
  lemma WellFormedWhenLower(d: Discovery, g: ProtocolGraph)
    requires Assembled(d, g) && Buildable(d)
    ensures WellFormed(g) <==> forall a | a in Known(d) :: IsLower(a)
  {
    hide Assembled, Buildable, Addresses, AddressList, Known, IsLower, Distinct, SetOf;
    BuiltKeys(d, g);
    AssembledNodes(d, g);
    forall u | u in g.adjacency ensures Distinct(g.adjacency[u]) && SetOf(g.adjacency[u]) <= Addresses(g) {
      BuiltTargets(d, g, u);
    }
  }

  lemma AssembledNodes(d: Discovery, g: ProtocolGraph)
    requires Assembled(d, g)
    ensures Addresses(g) == Known(d) && Distinct(AddressList(g.nodes))
  {
    hide Linked, Known, Joins, Endpoints, EdgeTargets, Increasing, Distinct, Addresses, AddressList;
  }

  lemma EndpointIsKnown(d: Discovery, g: ProtocolGraph, a: string)
    requires Assembled(d, g) && Buildable(d) && a in Endpoints(g.edges)
    ensures a in Known(d)
  {
    var e :| e in g.edges && (e.source == a || e.target == a);
    assert Joins(g.edges, e.source, e.target);
    LinkedEndsAreKnown(d, e.source, e.target);
  }

  /** `build`: it raises exactly on discoveries that are not buildable. Otherwise the graph
      holds the best edges and the chosen nodes, joins exactly the linked pairs, and is
      well-formed if and only if every contract address is lower case. A duplicate node is
      never the reason to raise, and an edge to a missing node only when the root is missing
      too. */
  method Build(d: Discovery) returns (r: Built)
    ensures r.Graph? <==> Buildable(d)
    ensures r.Graph? ==>
              && Assembled(d, r.graph) && FilledFrom(d, r.graph) && Consistent(r.graph)
              && (forall u, v :: u in r.graph.adjacency && v in r.graph.adjacency[u] <==> Linked(d, u, v))
              && (WellFormed(r.graph) <==> forall a | a in Known(d) :: IsLower(a))
    ensures r.Invalid? ==>
              && (Reported(r.issues, MissingRoot) <==> RootOf(d) !in Known(d))
              && (Reported(r.issues, SelfLoop) <==> exists u :: Linked(d, u, u))
              && (Reported(r.issues, InvalidEdge) <==> RootOf(d) !in Known(d) && exists u :: Linked(d, u, RootOf(d)))
              && !Reported(r.issues, DuplicateNodes)
  {
    hide Linked, Known, IsLower, Distinct, EdgeTargets, Increasing, Endpoints, HasSelfLoop, HasInvalidEdge, Reported,
      Describes, WellFormed, Addresses, AddressList, FilledFrom, Consistent, Joins, Disconnected, SimpleCycle,
      CycleWithinReach, Rooted, MeetsReport, ClosedWalk, Lower;
    var g := Assemble(d);
    AdjacencyIsLinked(d, g);
    ValidWhenBuildable(d, g);
    AssembledIsConsistent(d, g);
    var report := Validate(g);
    if !report.isValid {
      return Invalid(report.issues);
    }
    WellFormedWhenLower(d, g);
    return Graph(g);
  }

  /** `build_with_validation`: the graph with its report, unless it is invalid and the caller
      did not allow that. Its orphans are among its disconnected nodes. */
  method BuildWithValidation(d: Discovery, allowInvalid: bool) returns (r: Built, report: Report)
    ensures r.Graph? <==> Buildable(d) || allowInvalid
    ensures r.Graph? ==> Assembled(d, r.graph) && FilledFrom(d, r.graph) && Consistent(r.graph)
    ensures r.Graph? ==> Describes(r.graph, report)
    ensures report.isValid <==> Buildable(d)
    ensures forall a | a in report.orphans :: a in report.disconnected
    ensures r.Graph? ==> (report.cycles == [] <==> !CycleWithinReach(r.graph))
    ensures r.Graph? && (forall a | a in Known(d) :: IsLower(a)) ==> (report.cycles == [] <==> !Cyclic(r.graph))
  {
    hide Linked, Known, IsLower, Distinct, EdgeTargets, Increasing, Endpoints, HasSelfLoop, HasInvalidEdge, Reported,
      Describes, LowerCase, Addresses, AddressList, FilledFrom, Consistent, Joins, Disconnected, SimpleCycle,
      CycleWithinReach, Rooted, MeetsReport, ClosedWalk, Lower, Cyclic;
    var g := Assemble(d);
    AdjacencyIsLinked(d, g);
    ValidWhenBuildable(d, g);
    AssembledIsConsistent(d, g);
    LowerCaseWhenContractsAre(d, g);
    if Sortable(g) { ReachIsNoRestriction(g); }
    report := Validate(g);
    RootIsLower(d);
    forall a | a in report.orphans ensures a in report.disconnected { OrphansAreDisconnected(g, a); }
    if !report.isValid && !allowInvalid {
      return Invalid(report.issues), report;
    }
    return Graph(g), report;
  }

  lemma RootIsLower(d: Discovery)
    ensures IsLower(RootOf(d))
  {
    LowerIsIdempotent(d.rootAddress);
  }

  // ---- the exceptional cases occur ----

  /** An edge can lead to a missing node: an oracle is linked to a root nobody discovered. */
  lemma MissingRootCanBeLinked() returns (d: Discovery)
    ensures RootOf(d) !in Known(d) && exists u :: Linked(d, u, RootOf(d))
  {
    var oracle := ProtocolContract("0xo", Oracle, 1, "", map[]);
    d := Discovery("0xr", "", "", [oracle], []);
    assert RootOf(d) == "0xr";
    assert oracle in d.contracts && Known(d) == {"0xo"};
    assert Linked(d, "0xo", RootOf(d));
  }

  /** Without relationships, entries and oracles nothing is linked. */
  lemma NothingLinked(d: Discovery)
    requires d.relationships == [] && forall c | c in d.contracts :: c.metadata == map[] && c.role != Oracle
    ensures forall u, v :: !Linked(d, u, v)
  {
    hide Known, Lower, RootOf;
  }

  /** Mixed-case contracts do not stop a graph from being built. */
  lemma MixedCaseIsBuildable() returns (d: Discovery)
    ensures Buildable(d) && exists a :: a in Known(d) && !IsLower(a)
  {
    hide Linked;
    var root, token := ProtocolContract("0xr", Root, 1, "", map[]), ProtocolContract("0xA", Token, 1, "", map[]);
    d := Discovery("0xr", "", "", [root, token], []);
    NothingLinked(d);
    assert RootOf(d) == "0xr";
    assert root in d.contracts && token in d.contracts;
    assert "0xA" in Known(d);
    assert Lower("0xA")[2] == 'a';
    assert !IsLower("0xA");
  }
}
