/** The dependency graph value and the theory of its walks. */
module ProtocolGraphs {
  import opened Ordering
  import opened Text

  datatype ProtocolRole =
    | Root | Proxy | Implementation | Governor | Timelock | Router | Factory | Pool | Vault
    | Strategy | Token | Treasury | Oracle | Bridge | Messenger | Unknown

  datatype GraphEdgeType =
    | ProxyToImplementation | AdminToProxy | GovernorToTimelock | RouterToFactory | FactoryToPool
    | VaultToStrategy | TokenToTreasury | BridgeToMessenger | OracleToProtocol | DependsOn

  /** The metadata values graph construction reads or writes. */
  datatype Meta = Literal(text: string) | Number(n: int) | Flag(b: bool) | Other(repr: string)

  datatype ProtocolNode = ProtocolNode(
    address: string, role: ProtocolRole, protocolName: string, metadata: map<string, Meta>)

  datatype ProtocolEdge = ProtocolEdge(
    source: string, target: string, relationshipType: GraphEdgeType, confidence: int)

  datatype ProtocolGraph = ProtocolGraph(
    nodes: seq<ProtocolNode>, edges: seq<ProtocolEdge>, rootNode: string,
    adjacency: map<string, seq<string>>)

  /** The addresses some edge names. */
  function Endpoints(edges: seq<ProtocolEdge>): set<string> {
    (set e | e in edges :: e.source) + (set e | e in edges :: e.target)
  }

  lemma EndpointsStep(edges: seq<ProtocolEdge>, e: ProtocolEdge)
    ensures Endpoints(edges + [e]) == Endpoints(edges) + {e.source, e.target}
  {
    assert forall f :: f in edges + [e] <==> f in edges || f == e;
  }

  function AddressList(nodes: seq<ProtocolNode>): (r: seq<string>)
    ensures |r| == |nodes| && forall i | 0 <= i < |nodes| :: r[i] == nodes[i].address
  {
    seq(|nodes|, i requires 0 <= i < |nodes| => nodes[i].address)
  }

  function Addresses(g: ProtocolGraph): set<string> { SetOf(AddressList(g.nodes)) }

  lemma AddressesAre(g: ProtocolGraph)
    ensures Addresses(g) == SetOf(AddressList(g.nodes))
  {
  }

  /** What `ProtocolGraphBuilder.build` establishes: the adjacency keys are exactly the
      node addresses, which are unique and lower case, and every list of targets names
      nodes without repetition. */
  ghost predicate WellFormed(g: ProtocolGraph) {
    && Distinct(AddressList(g.nodes))
    && g.adjacency.Keys == Addresses(g)
    && (forall a | a in Addresses(g) :: IsLower(a))
    && (forall a | a in g.adjacency :: Distinct(g.adjacency[a]))
    && (forall a | a in g.adjacency :: SetOf(g.adjacency[a]) <= Addresses(g))
  }

  /** `self._outgoing.get(address.lower(), ())`. */
  function Neighbors(g: ProtocolGraph, address: string): seq<string> {
    if Lower(address) in g.adjacency then g.adjacency[Lower(address)] else []
  }

  /** The sources of the edges into `address`. */
  function Dependencies(g: ProtocolGraph, address: string): set<string> {
    set s | s in g.adjacency && address in g.adjacency[s]
  }

  /** Every address a traversal can meet besides its origin. */
  function Targets(g: ProtocolGraph): set<string> {
    set k, t | k in g.adjacency && t in g.adjacency[k] :: t
  }

  /** What holds of every graph the builder assembles, valid or not: the nodes are unique, no
      list of targets repeats one, and the sources of edges are nodes. */
  ghost predicate Consistent(g: ProtocolGraph) {
    && Distinct(AddressList(g.nodes))
    && (forall a | a in g.adjacency :: Distinct(g.adjacency[a]))
    && (forall a | a in g.adjacency && g.adjacency[a] != [] :: a in Addresses(g))
  }

  ghost predicate LowerCase(g: ProtocolGraph) {
    forall a | a in Addresses(g) + Targets(g) :: IsLower(a)
  }

  /** The graphs on which looking an address up lowered or as it is makes no difference. */
  ghost predicate Sortable(g: ProtocolGraph) { Consistent(g) && LowerCase(g) }

  lemma WellFormedIsSortable(g: ProtocolGraph)
    requires WellFormed(g)
    ensures Sortable(g)
  {
    forall t | t in Targets(g) ensures t in Addresses(g) {
      var k :| k in g.adjacency && t in g.adjacency[k];
      assert t in SetOf(g.adjacency[k]);
    }
  }

  lemma EdgeIsDependency(g: ProtocolGraph, u: string, v: string)
    requires IsLower(u)
    ensures v in Neighbors(g, u) <==> u in Dependencies(g, v)
  {
  }

  lemma NodesAreLower(g: ProtocolGraph, u: string)
    requires Sortable(g) && u in Addresses(g)
    ensures IsLower(u)
  {
  }

  lemma DependenciesAreNodes(g: ProtocolGraph, v: string)
    requires Consistent(g)
    ensures Dependencies(g, v) <= Addresses(g)
  {
  }

  /** The map from every node or target to the sorted sources of the edges into it. */
  function ReverseAdjacency(g: ProtocolGraph): map<string, seq<string>> {
    map a | a in Addresses(g) + Targets(g) :: SortedSet(Dependencies(g, a))
  }

  ghost function HeadsOf(g: ProtocolGraph, done: set<string>): set<string>
    requires done <= g.adjacency.Keys
  {
    set k, t | k in done && t in g.adjacency[k] :: t
  }

  /** The parent sets after the edges out of `done` and those from `source` into `part`. */
  ghost predicate Reversing(
    g: ProtocolGraph, parents: map<string, set<string>>, done: set<string>, source: string, part: set<string>) {
    && done <= g.adjacency.Keys
    && parents.Keys == Addresses(g) + HeadsOf(g, done) + part
    && forall a | a in parents :: parents[a] == Dependencies(g, a) * done + (if a in part then {source} else {})
  }

  lemma ReversingTarget(
    g: ProtocolGraph, parents: map<string, set<string>>, done: set<string>, source: string, part: set<string>,
    t: string)
    requires Reversing(g, parents, done, source, part)
    ensures Reversing(g, parents[t := (if t in parents then parents[t] else {}) + {source}], done, source, part + {t})
  {
    assert t !in parents ==> Dependencies(g, t) * done == {};
  }

  lemma ReversingSource(
    g: ProtocolGraph, parents: map<string, set<string>>, done: set<string>, source: string, next: string)
    requires source in g.adjacency
    requires Reversing(g, parents, done, source, SetOf(g.adjacency[source]))
    ensures Reversing(g, parents, done + {source}, next, {})
  {
    assert HeadsOf(g, done + {source}) == HeadsOf(g, done) + SetOf(g.adjacency[source]);
  }

  lemma ReversingAll(g: ProtocolGraph, parents: map<string, set<string>>, source: string)
    requires Reversing(g, parents, g.adjacency.Keys, source, {})
    ensures (map a | a in parents :: SortedSet(parents[a])) == ReverseAdjacency(g)
  {
    assert HeadsOf(g, g.adjacency.Keys) == Targets(g);
    assert forall a | a in parents :: parents[a] == Dependencies(g, a);
  }

  lemma ReverseIs(g: ProtocolGraph)
    ensures forall a :: a in ReverseAdjacency(g) <==>
              a in Addresses(g) || exists s :: s in g.adjacency && a in g.adjacency[s]
    ensures forall a | a in ReverseAdjacency(g) :: var r := ReverseAdjacency(g)[a];
              Increasing(r, StringLess) && Distinct(r) && SetOf(r) == Dependencies(g, a)
  {
    hide Increasing, Distinct, StringLess, Addresses, Dependencies;
  }

  /** `_build_reverse_adjacency`, and the first map of `build_dependency_maps`. */
  method BuildReverseAdjacency(g: ProtocolGraph) returns (incoming: map<string, seq<string>>)
    ensures incoming == ReverseAdjacency(g)
    ensures forall a :: a in incoming <==> a in Addresses(g) || exists s :: s in g.adjacency && a in g.adjacency[s]
    ensures forall a | a in incoming ::
              Increasing(incoming[a], StringLess) && Distinct(incoming[a]) && SetOf(incoming[a]) == Dependencies(g, a)
  {
    var parents: map<string, set<string>> := map a | a in Addresses(g) :: {};
    var todo := g.adjacency.Keys;
    assert Reversing(g, parents, g.adjacency.Keys - todo, "", {});
    hide Reversing, Addresses, SetOf, ReverseAdjacency, Dependencies, Increasing, Distinct, StringLess;
    while todo != {}
      invariant todo <= g.adjacency.Keys
      invariant Reversing(g, parents, g.adjacency.Keys - todo, "", {})
    {
      var source :| source in todo;
      var targets := g.adjacency[source];
      ghost var done := g.adjacency.Keys - todo;
      ReversingFrom(g, parents, done, source);
      for i := 0 to |targets|
        invariant Reversing(g, parents, done, source, SetOf(targets[..i]))
      {
        var t := targets[i];
        SetOfTake(targets, i);
        ReversingTarget(g, parents, done, source, SetOf(targets[..i]), t);
        parents := parents[t := (if t in parents then parents[t] else {}) + {source}];
      }
      SetOfTake(targets, |targets|);
      ReversingSource(g, parents, done, source, "");
      assert g.adjacency.Keys - (todo - {source}) == done + {source};
      todo := todo - {source};
    }
    assert g.adjacency.Keys - todo == g.adjacency.Keys;
    ReversingAll(g, parents, "");
    ReverseIs(g);
    incoming := map a | a in parents :: SortedSet(parents[a]);
  }

  lemma ReversingFrom(g: ProtocolGraph, parents: map<string, set<string>>, done: set<string>, source: string)
    requires Reversing(g, parents, done, "", {})
    ensures Reversing(g, parents, done, source, {}) && SetOf<string>([]) == {}
  {
  }

  // ---- walks ----

  /** A non-empty sequence of vertices, each joined to the next by an edge. */
  ghost predicate Walk(g: ProtocolGraph, p: seq<string>) {
    p != [] && forall i | 0 <= i < |p| - 1 :: p[i + 1] in Neighbors(g, p[i])
  }

  ghost predicate WalkBetween(g: ProtocolGraph, p: seq<string>, u: string, v: string) {
    Walk(g, p) && p[0] == u && p[|p| - 1] == v
  }

  ghost predicate Reaches(g: ProtocolGraph, u: string, v: string) {
    exists p :: WalkBetween(g, p, u, v)
  }

  /** Reaches along at least one edge. */
  ghost predicate ReachesProperly(g: ProtocolGraph, u: string, v: string) {
    exists p :: WalkBetween(g, p, u, v) && |p| > 1
  }

  ghost predicate ClosedWalk(g: ProtocolGraph, p: seq<string>) {
    Walk(g, p) && |p| > 1 && p[0] == p[|p| - 1]
  }

  /** A cycle as `find_cycles` writes it: a closed walk whose vertices are distinct but for the
      first, which is repeated at the end. */
  ghost predicate SimpleCycle(g: ProtocolGraph, c: seq<string>) {
    ClosedWalk(g, c) && Distinct(c[..|c| - 1])
  }

  /** Each entry depends on the one before; addresses are taken as they are. */
  ghost predicate Chain(g: ProtocolGraph, p: seq<string>) {
    p != [] && forall i | 0 <= i < |p| - 1 :: p[i] in Dependencies(g, p[i + 1])
  }

  ghost predicate ClosedChain(g: ProtocolGraph, p: seq<string>) {
    Chain(g, p) && |p| > 1 && p[0] == p[|p| - 1]
  }

  /** Some address depends on itself, directly or through others. */
  ghost predicate Cyclic(g: ProtocolGraph) {
    exists p :: ClosedChain(g, p)
  }

  /** `v` depends on `u`, directly or through others. */
  ghost predicate FeedsInto(g: ProtocolGraph, u: string, v: string) {
    exists p :: Chain(g, p) && |p| > 1 && p[0] == u && p[|p| - 1] == v
  }

  lemma WalkJoin(g: ProtocolGraph, p: seq<string>, q: seq<string>)
    requires Walk(g, p) && Walk(g, q) && p[|p| - 1] == q[0]
    ensures Walk(g, p + q[1..])
    ensures (p + q[1..])[0] == p[0]
    ensures (p + q[1..])[|p| + |q| - 2] == q[|q| - 1]
  {
    var r := p + q[1..];
    forall i | 0 <= i < |r| - 1 ensures r[i + 1] in Neighbors(g, r[i]) {
      if i >= |p| - 1 {
        assert r[i + 1] == q[i + 2 - |p|];
        assert r[i] == q[i + 1 - |p|];
      }
    }
  }

  lemma WalkSlice(g: ProtocolGraph, p: seq<string>, i: nat, j: nat)
    requires Walk(g, p) && i < j <= |p|
    ensures WalkBetween(g, p[i..j], p[i], p[j - 1])
  {
  }

  lemma WalkStep(g: ProtocolGraph, p: seq<string>, v: string)
    requires Walk(g, p) && v in Neighbors(g, p[|p| - 1])
    ensures WalkBetween(g, p + [v], p[0], v)
  {
  }

  lemma ReachesItself(g: ProtocolGraph, u: string)
    ensures Reaches(g, u, u)
  {
    assert WalkBetween(g, [u], u, u);
  }

  lemma ReachesStep(g: ProtocolGraph, u: string, v: string, w: string)
    requires Reaches(g, u, v) && w in Neighbors(g, v)
    ensures Reaches(g, u, w) && ReachesProperly(g, u, w)
  {
    var p :| WalkBetween(g, p, u, v);
    WalkStep(g, p, w);
    assert WalkBetween(g, p + [w], u, w);
  }

  /** Some node leads to it. */
  ghost predicate Rooted(g: ProtocolGraph, v: string) {
    exists r :: r in Addresses(g) && Reaches(g, r, v)
  }

  lemma RootedNode(g: ProtocolGraph, v: string)
    requires v in Addresses(g)
    ensures Rooted(g, v)
  {
    ReachesItself(g, v);
  }

  lemma RootedStep(g: ProtocolGraph, v: string, w: string)
    requires Rooted(g, v) && w in Neighbors(g, v)
    ensures Rooted(g, w)
  {
    var r :| r in Addresses(g) && Reaches(g, r, v);
    ReachesStep(g, r, v, w);
  }

  /** A set closed under edges that contains the start of a walk contains all of it. */
  lemma {:induction false} ClosedSetHoldsWalk(g: ProtocolGraph, s: set<string>, p: seq<string>)
    requires Walk(g, p) && p[0] in s
    requires forall u, w | u in s && w in Neighbors(g, u) :: w in s
    ensures SetOf(p) <= s
  {
    var i := 0;
    while i < |p| - 1
      invariant 0 <= i < |p|
      invariant forall j | 0 <= j <= i :: p[j] in s
    {
      assert p[i + 1] in Neighbors(g, p[i]);
      i := i + 1;
    }
  }

  lemma WalkMeetsTargets(g: ProtocolGraph, p: seq<string>)
    requires Walk(g, p)
    ensures SetOf(p) <= {p[0]} + Targets(g)
  {
    forall i | 0 <= i < |p| ensures p[i] in {p[0]} + Targets(g) {
      if i > 0 { assert p[(i - 1) + 1] in Neighbors(g, p[i - 1]); }
    }
  }

  // ---- chains ----

  lemma ChainSlice(g: ProtocolGraph, p: seq<string>, i: nat, j: nat)
    requires Chain(g, p) && i < j <= |p|
    ensures Chain(g, p[i..j])
  {
  }

  /** All entries but the last are nodes. */
  lemma ChainStaysInside(g: ProtocolGraph, p: seq<string>)
    requires Consistent(g) && Chain(g, p)
    ensures forall i | 0 <= i < |p| - 1 :: p[i] in Addresses(g)
    ensures p[|p| - 1] in Addresses(g) ==> SetOf(p) <= Addresses(g)
  {
    forall i | 0 <= i < |p| - 1 ensures p[i] in Addresses(g) { DependenciesAreNodes(g, p[i + 1]); }
  }

  lemma ClosedChainInside(g: ProtocolGraph, p: seq<string>)
    requires Consistent(g) && ClosedChain(g, p)
    ensures SetOf(p) <= Addresses(g)
  {
    ChainStaysInside(g, p);
  }

  /** Where case makes no difference, chains are walks. */
  lemma ChainIsWalk(g: ProtocolGraph, p: seq<string>)
    requires Sortable(g) && Chain(g, p)
    ensures Walk(g, p) && (|p| > 1 ==> IsLower(p[0]))
  {
    ChainStaysInside(g, p);
    forall i | 0 <= i < |p| - 1 ensures IsLower(p[i]) && p[i + 1] in Neighbors(g, p[i]) {
      NodesAreLower(g, p[i]);
      EdgeIsDependency(g, p[i], p[i + 1]);
    }
  }

  lemma WalkIsChain(g: ProtocolGraph, p: seq<string>)
    requires LowerCase(g) && Walk(g, p) && IsLower(p[0])
    ensures Chain(g, p)
  {
    WalkMeetsTargets(g, p);
    forall i | 0 <= i < |p| - 1 ensures p[i] in Dependencies(g, p[i + 1]) {
      assert p[i] in SetOf(p);
      EdgeIsDependency(g, p[i], p[i + 1]);
    }
  }

  lemma CyclicMeansClosedWalk(g: ProtocolGraph)
    requires Sortable(g)
    ensures Cyclic(g) <==> exists p :: ClosedWalk(g, p)
  {
    if p :| ClosedChain(g, p) {
      ChainIsWalk(g, p);
      assert ClosedWalk(g, p);
    }
    if p :| ClosedWalk(g, p) {
      assert p[(|p| - 2) + 1] in Neighbors(g, p[|p| - 2]);
      assert p[0] in Targets(g);
      WalkIsChain(g, p);
      assert ClosedChain(g, p);
    }
  }

  /** A chain with more entries than there are to visit contains a closed one. */
  lemma LongChainCloses(g: ProtocolGraph, p: seq<string>, universe: set<string>) returns (i: nat, j: nat)
    requires Chain(g, p) && SetOf(p) <= universe && |p| > |universe|
    ensures i < j < |p| && ClosedChain(g, p[i..j + 1])
  {
    Pigeonhole(p, universe);
    i, j :| i < j < |p| && p[i] == p[j];
    ChainSlice(g, p, i, j + 1);
  }

  /** Every member depends on a member. */
  ghost predicate Trapped(g: ProtocolGraph, s: set<string>) {
    forall v | v in s :: Dependencies(g, v) * s != {}
  }

  /** In a trapped set, chains ending at a given member can be made as long as wanted. */
  lemma {:induction false} BackwardChain(g: ProtocolGraph, s: set<string>, v: string, n: nat) returns (p: seq<string>)
    requires v in s && Trapped(g, s)
    ensures Chain(g, p) && |p| == n + 1 && p[n] == v && SetOf(p) <= s
    decreases n
  {
    hide Dependencies;
    if n == 0 {
      p := [v];
    } else {
      var u :| u in Dependencies(g, v) * s;
      var q := BackwardChain(g, s, u, n - 1);
      p := q + [v];
    }
  }

  /** So a trapped set, when non-empty, contains a cycle. */
  lemma TrappedSetIsCyclic(g: ProtocolGraph, s: set<string>)
    requires s != {} && Trapped(g, s)
    ensures Cyclic(g)
  {
    var v :| v in s;
    var p := BackwardChain(g, s, v, |s|);
    var i, j := LongChainCloses(g, p, s);
  }

  // ---- topological order ----

  /** `order` lists exactly the nodes, once each, and every edge points forward in it. */
  ghost predicate TopologicalOrder(g: ProtocolGraph, order: seq<string>) {
    && Distinct(order)
    && SetOf(order) == Addresses(g)
    && forall i, j | 0 <= i < |order| && 0 <= j < |order| && order[i] in Dependencies(g, order[j]) :: i < j
  }

  lemma {:induction false} OrderedChainAscends(g: ProtocolGraph, order: seq<string>, p: seq<string>, at: seq<nat>)
    requires TopologicalOrder(g, order) && Chain(g, p) && |at| == |p|
    requires forall k | 0 <= k < |p| :: at[k] < |order| && order[at[k]] == p[k]
    ensures |p| > 1 ==> at[0] < at[|p| - 1]
  {
    hide Dependencies, Addresses;
    if |p| > 1 {
      assert p[0] in Dependencies(g, p[0 + 1]);
      ChainSlice(g, p, 1, |p|);
      OrderedChainAscends(g, order, p[1..], at[1..]);
    }
  }

  lemma OrderForbidsCycle(g: ProtocolGraph, order: seq<string>)
    requires Consistent(g) && TopologicalOrder(g, order)
    ensures !Cyclic(g)
  {
    if p :| ClosedChain(g, p) {
      ClosedChainInside(g, p);
      assert forall k | 0 <= k < |p| :: p[k] in SetOf(order);
      var at := seq(|p|, k requires 0 <= k < |p| => IndexIn(order, p[k]));
      OrderedChainAscends(g, order, p, at);
      assert false;
    }
  }
}
