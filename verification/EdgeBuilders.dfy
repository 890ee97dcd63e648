/** Discovery results, and the typed edges built from them. */
module EdgeBuilders {
  import opened Ordering
  import opened Text
  import opened ProtocolGraphs

  datatype RelationshipType =
    | RelProxyToImplementation | RelGovernorToTimelock | RelRouterToFactory | RelFactoryToPool
    | RelVaultToStrategy | RelTokenToTreasury | RelBridgeToMessenger

  datatype ProtocolContract = ProtocolContract(
    address: string, role: ProtocolRole, confidence: int, detectionSource: string, metadata: map<string, Meta>)

  datatype ProtocolRelationship = ProtocolRelationship(
    sourceAddress: string, targetAddress: string, relationshipType: RelationshipType, confidence: int)

  datatype Discovery = Discovery(
    rootAddress: string, protocolName: string, protocolFamily: string,
    contracts: seq<ProtocolContract>, relationships: seq<ProtocolRelationship>)

  function RootOf(d: Discovery): string { Lower(d.rootAddress) }

  /** `known_addresses`. */
  function Known(d: Discovery): set<string> { set c | c in d.contracts :: c.address }

  function EdgeTypeOf(t: RelationshipType): GraphEdgeType {
    match t
    case RelProxyToImplementation => ProxyToImplementation
    case RelGovernorToTimelock => GovernorToTimelock
    case RelRouterToFactory => RouterToFactory
    case RelFactoryToPool => FactoryToPool
    case RelVaultToStrategy => VaultToStrategy
    case RelTokenToTreasury => TokenToTreasury
    case RelBridgeToMessenger => BridgeToMessenger
  }

  /** The value of a relationship type in a discovery result. */
  function RelationshipText(t: RelationshipType): string {
    match t
    case RelProxyToImplementation => "PROXY_TO_IMPLEMENTATION"
    case RelGovernorToTimelock => "GOVERNOR_TO_TIMELOCK"
    case RelRouterToFactory => "ROUTER_TO_FACTORY"
    case RelFactoryToPool => "FACTORY_TO_POOL"
    case RelVaultToStrategy => "VAULT_TO_STRATEGY"
    case RelTokenToTreasury => "TOKEN_TO_TREASURY"
    case RelBridgeToMessenger => "BRIDGE_TO_MESSENGER"
  }

  function EdgeTypeText(t: GraphEdgeType): string {
    match t
    case ProxyToImplementation => "PROXY_TO_IMPLEMENTATION"
    case AdminToProxy => "ADMIN_TO_PROXY"
    case GovernorToTimelock => "GOVERNOR_TO_TIMELOCK"
    case RouterToFactory => "ROUTER_TO_FACTORY"
    case FactoryToPool => "FACTORY_TO_POOL"
    case VaultToStrategy => "VAULT_TO_STRATEGY"
    case TokenToTreasury => "TOKEN_TO_TREASURY"
    case BridgeToMessenger => "BRIDGE_TO_MESSENGER"
    case OracleToProtocol => "ORACLE_TO_PROTOCOL"
    case DependsOn => "DEPENDS_ON"
  }

  /** An edge of a discovered relationship has the type of the same name. */
  lemma TypeKeepsName(t: RelationshipType)
    ensures EdgeTypeText(EdgeTypeOf(t)) == RelationshipText(t)
  {
  }

  function RoleText(r: ProtocolRole): string {
    match r
    case Root => "root" case Proxy => "proxy" case Implementation => "implementation" case Governor => "governor"
    case Timelock => "timelock" case Router => "router" case Factory => "factory" case Pool => "pool"
    case Vault => "vault" case Strategy => "strategy" case Token => "token" case Treasury => "treasury"
    case Oracle => "oracle" case Bridge => "bridge" case Messenger => "messenger" case Unknown => "unknown"
  }

  /** The types in the order of their names. */
  const EDGE_TYPES := [
    AdminToProxy, BridgeToMessenger, DependsOn, FactoryToPool, GovernorToTimelock, OracleToProtocol,
    ProxyToImplementation, RouterToFactory, TokenToTreasury, VaultToStrategy]

  lemma EdgeTypesInOrder(i: nat)
    requires i < 9
    ensures Precedes(EdgeTypeText(EDGE_TYPES[i]), EdgeTypeText(EDGE_TYPES[i + 1]))
  {
    var a, b := EdgeTypeText(EDGE_TYPES[i]), EdgeTypeText(EDGE_TYPES[i + 1]);
    assert a[..0] == b[..0];
  }

  /** The roles in the order of their names. */
  const ROLES := [
    Bridge, Factory, Governor, Implementation, Messenger, Oracle, Pool, Proxy, Root, Router, Strategy, Timelock, Token,
    Treasury, Unknown, Vault]

  lemma DifferAt(a: string, b: string, k: nat)
    requires k < |a| && k < |b| && (forall j | 0 <= j < k :: a[j] == b[j]) && a[k] < b[k]
    ensures Precedes(a, b)
  {
    assert a[..k] == b[..k];
  }

  lemma RolesToMessenger(i: nat)
    requires 0 <= i < 4
    ensures Precedes(RoleText(ROLES[i]), RoleText(ROLES[i + 1]))
  {
    hide Precedes;
    match i
    case 0 => DifferAt("bridge", "factory", 0);
    case 1 => DifferAt("factory", "governor", 0);
    case 2 => DifferAt("governor", "implementation", 0);
    case 3 => DifferAt("implementation", "messenger", 0);
  }

  lemma RolesToRoot(i: nat)
    requires 4 <= i < 8
    ensures Precedes(RoleText(ROLES[i]), RoleText(ROLES[i + 1]))
  {
    hide Precedes;
    match i
    case 4 => DifferAt("messenger", "oracle", 0);
    case 5 => DifferAt("oracle", "pool", 0);
    case 6 => DifferAt("pool", "proxy", 1);
    case 7 => DifferAt("proxy", "root", 0);
  }

  lemma RolesToToken(i: nat)
    requires 8 <= i < 12
    ensures Precedes(RoleText(ROLES[i]), RoleText(ROLES[i + 1]))
  {
    hide Precedes;
    match i
    case 8 => DifferAt("root", "router", 2);
    case 9 => DifferAt("router", "strategy", 0);
    case 10 => DifferAt("strategy", "timelock", 0);
    case 11 => DifferAt("timelock", "token", 1);
  }

  lemma RolesToVault(i: nat)
    requires 12 <= i < 15
    ensures Precedes(RoleText(ROLES[i]), RoleText(ROLES[i + 1]))
  {
    hide Precedes;
    match i
    case 12 => DifferAt("token", "treasury", 1);
    case 13 => DifferAt("treasury", "unknown", 0);
    case 14 => DifferAt("unknown", "vault", 0);
  }

  lemma RolesInOrder(i: nat)
    requires i < 15
    ensures Precedes(RoleText(ROLES[i]), RoleText(ROLES[i + 1]))
  {
    hide Precedes, RoleText;
    if i < 4 {
      RolesToMessenger(i);
    } else if i < 8 {
      RolesToRoot(i);
    } else if i < 12 {
      RolesToToken(i);
    } else {
      RolesToVault(i);
    }
  }

  /** `from_relationship`. */
  function FromRelationship(r: ProtocolRelationship): ProtocolEdge {
    ProtocolEdge(r.sourceAddress, r.targetAddress, EdgeTypeOf(r.relationshipType), r.confidence)
  }

  /** A metadata entry that is a string, lowered. */
  function TextEntry(c: ProtocolContract, key: string): Option<string> {
    if key in c.metadata && c.metadata[key].Literal? then Some(Lower(c.metadata[key].text)) else None
  }

  /** `contracts_by_address`: the last contract listed under an address. */
  function ByAddress(contracts: seq<ProtocolContract>): map<string, ProtocolContract> {
    if contracts == [] then map[]
    else
      var last := contracts[|contracts| - 1];
      ByAddress(contracts[..|contracts| - 1])[last.address := last]
  }

  lemma {:induction false} ByAddressKeys(contracts: seq<ProtocolContract>)
    ensures forall a :: a in ByAddress(contracts) <==> exists c :: c in contracts && c.address == a
  {
    if contracts != [] {
      var rest, last := contracts[..|contracts| - 1], contracts[|contracts| - 1];
      ByAddressKeys(rest);
      assert contracts == rest + [last];
    }
  }

  lemma ByAddressKnows(d: Discovery)
    ensures forall a :: a in ByAddress(d.contracts) <==> a in Known(d)
  {
    ByAddressKeys(d.contracts);
  }

  // ---- what each inference yields for one contract or relationship ----

  ghost function RelationshipEdge(d: Discovery, r: ProtocolRelationship): Option<ProtocolEdge> {
    if r.sourceAddress in Known(d) && r.targetAddress in Known(d) then Some(FromRelationship(r)) else None
  }

  ghost function AdminEdge(d: Discovery, c: ProtocolContract): Option<ProtocolEdge> {
    var admin := TextEntry(c, "admin_address");
    if (c.role == Proxy || c.role == Root) && admin.Some? && admin.value in ByAddress(d.contracts) then
      var other := ByAddress(d.contracts)[admin.value].confidence;
      Some(ProtocolEdge(admin.value, c.address, AdminToProxy, if c.confidence <= other then c.confidence else other))
    else None
  }

  ghost function OracleEdge(d: Discovery, c: ProtocolContract): Option<ProtocolEdge> {
    if c.role == Oracle then Some(ProtocolEdge(c.address, RootOf(d), OracleToProtocol, c.confidence)) else None
  }

  function ExistingPairs(d: Discovery): set<(string, string)> {
    set r | r in d.relationships :: (r.sourceAddress, r.targetAddress)
  }

  ghost function DependsOnEdge(d: Discovery, c: ProtocolContract): Option<ProtocolEdge> {
    var target := TextEntry(c, "depends_on");
    if c.address != RootOf(d) && target.Some? && target.value in Known(d)
        && (c.address, target.value) !in ExistingPairs(d)
    then Some(ProtocolEdge(c.address, target.value, DependsOn, c.confidence)) else None
  }

  datatype Inference = DeclaredRelationship | AdminOfProxy | OracleOfRoot | DeclaredDependency

  function Items(d: Discovery, kind: Inference): nat {
    if kind.DeclaredRelationship? then |d.relationships| else |d.contracts|
  }

  ghost function Yield(d: Discovery, kind: Inference, i: nat): Option<ProtocolEdge>
    requires i < Items(d, kind)
  {
    match kind
    case DeclaredRelationship => RelationshipEdge(d, d.relationships[i])
    case AdminOfProxy => AdminEdge(d, d.contracts[i])
    case OracleOfRoot => OracleEdge(d, d.contracts[i])
    case DeclaredDependency => DependsOnEdge(d, d.contracts[i])
  }

  /** The edges the first `n` items yield, in order. */
  ghost function Gather(d: Discovery, kind: Inference, n: nat): seq<ProtocolEdge>
    requires n <= Items(d, kind)
  {
    if n == 0 then []
    else Gather(d, kind, n - 1) + (match Yield(d, kind, n - 1) case Some(e) => [e] case None => [])
  }

  lemma {:induction false} GatheredAre(d: Discovery, kind: Inference, n: nat, e: ProtocolEdge)
    requires n <= Items(d, kind)
    ensures e in Gather(d, kind, n) <==> exists i: nat :: i < n && Yield(d, kind, i) == Some(e)
  {
    hide Yield;
    if n > 0 {
      GatheredAre(d, kind, n - 1, e);
      if e in Gather(d, kind, n) && e !in Gather(d, kind, n - 1) { assert Yield(d, kind, n - 1) == Some(e); }
    }
  }

  /** Every edge the discovery gives rise to, before duplicates are dropped. */
  ghost function CandidateEdges(d: Discovery): seq<ProtocolEdge> {
    Gather(d, DeclaredRelationship, |d.relationships|) + Gather(d, AdminOfProxy, |d.contracts|)
      + Gather(d, OracleOfRoot, |d.contracts|) + Gather(d, DeclaredDependency, |d.contracts|)
  }

  method InferAdminToProxy(d: Discovery) returns (edges: seq<ProtocolEdge>)
    ensures edges == Gather(d, AdminOfProxy, |d.contracts|)
  {
    edges := [];
    var byAddress := ByAddress(d.contracts);
    for i := 0 to |d.contracts|
      invariant edges == Gather(d, AdminOfProxy, i)
    {
      var contract := d.contracts[i];
      if contract.role == Proxy || contract.role == Root {
        var admin := TextEntry(contract, "admin_address");
        if admin.Some? && admin.value in byAddress {
          var other := byAddress[admin.value].confidence;
          edges := edges + [ProtocolEdge(
                              admin.value, contract.address, AdminToProxy,
                              if contract.confidence <= other then contract.confidence else other)];
        }
      }
    }
  }

  method InferOracleToProtocol(d: Discovery) returns (edges: seq<ProtocolEdge>)
    ensures edges == Gather(d, OracleOfRoot, |d.contracts|)
  {
    edges := [];
    var root := RootOf(d);
    for i := 0 to |d.contracts|
      invariant edges == Gather(d, OracleOfRoot, i)
    {
      var contract := d.contracts[i];
      if contract.role == Oracle {
        edges := edges + [ProtocolEdge(contract.address, root, OracleToProtocol, contract.confidence)];
      }
    }
  }

  method InferDependsOn(d: Discovery, known: set<string>) returns (edges: seq<ProtocolEdge>)
    requires known == Known(d)
    ensures edges == Gather(d, DeclaredDependency, |d.contracts|)
  {
    edges := [];
    var existing := ExistingPairs(d);
    var root := RootOf(d);
    for i := 0 to |d.contracts|
      invariant edges == Gather(d, DeclaredDependency, i)
    {
      var contract := d.contracts[i];
      if contract.address != root {
        var target := TextEntry(contract, "depends_on");
        if target.Some? && target.value in known && (contract.address, target.value) !in existing {
          edges := edges + [ProtocolEdge(contract.address, target.value, DependsOn, contract.confidence)];
        }
      }
    }
  }

  // ---- dropping duplicates ----

  /** The key duplicates share, in the order edges are sorted by. */
  function EdgeKey(e: ProtocolEdge): seq<string> {
    [EdgeTypeText(e.relationshipType), e.source, e.target]
  }

  /** By type name, then source, then target. */
  ghost predicate EdgePrecedes(e: ProtocolEdge, f: ProtocolEdge) {
    var s, t := EdgeTypeText(e.relationshipType), EdgeTypeText(f.relationshipType);
    || Precedes(s, t)
    || (s == t && (Precedes(e.source, f.source) || (e.source == f.source && Precedes(e.target, f.target))))
  }

  lemma EdgeOrder(e: ProtocolEdge, f: ProtocolEdge)
    ensures TupleLess(EdgeKey(e), EdgeKey(f)) <==> EdgePrecedes(e, f)
  {
    hide EdgeTypeText, Precedes, TupleLess;
    var s, t := EdgeTypeText(e.relationshipType), EdgeTypeText(f.relationshipType);
    TripleOrder(s, e.source, e.target, t, f.source, f.target);
  }

  ghost predicate SameEdge(e: ProtocolEdge, f: ProtocolEdge) {
    e.source == f.source && e.target == f.target && e.relationshipType == f.relationshipType
  }

  lemma TextTellsType(t: GraphEdgeType, u: GraphEdgeType)
    ensures EdgeTypeText(t) == EdgeTypeText(u) <==> t == u
  {
  }

  lemma KeyTellsEdge(e: ProtocolEdge, f: ProtocolEdge)
    ensures EdgeKey(e) == EdgeKey(f) <==> SameEdge(e, f)
  {
    TextTellsType(e.relationshipType, f.relationshipType);
    hide EdgeTypeText;
    if EdgeKey(e) == EdgeKey(f) {
      assert EdgeKey(e)[0] == EdgeKey(f)[0] && EdgeKey(e)[1] == EdgeKey(f)[1] && EdgeKey(e)[2] == EdgeKey(f)[2];
    }
  }

  lemma EdgeKeyInjective(e: ProtocolEdge, f: ProtocolEdge)
    requires EdgeKey(e) == EdgeKey(f) && e.confidence == f.confidence
    ensures e == f
  {
    hide EdgeKey;
    KeyTellsEdge(e, f);
  }

  /** No edge with the same key has a higher confidence. */
  ghost predicate IsBest(edges: seq<ProtocolEdge>, e: ProtocolEdge) {
    e in edges && forall f | f in edges && EdgeKey(f) == EdgeKey(e) :: f.confidence <= e.confidence
  }

  ghost predicate BestSoFar(edges: seq<ProtocolEdge>, best: map<seq<string>, ProtocolEdge>) {
    && (forall k | k in best :: IsBest(edges, best[k]) && EdgeKey(best[k]) == k)
    && (forall e | e in edges :: EdgeKey(e) in best)
  }

  lemma BestStep(edges: seq<ProtocolEdge>, best: map<seq<string>, ProtocolEdge>, e: ProtocolEdge)
    requires BestSoFar(edges, best)
    ensures BestSoFar(
              edges + [e],
              if EdgeKey(e) !in best || e.confidence > best[EdgeKey(e)].confidence then best[EdgeKey(e) := e] else best)
  {
    assert forall f :: f in edges + [e] <==> f in edges || f == e;
    hide EdgeKey;
  }

  /** One edge for every source, target and type, the most confident, sorted by type, source
      and target. */
  method DedupeEdges(edges: seq<ProtocolEdge>) returns (r: seq<ProtocolEdge>)
    ensures forall e :: e in r <==> IsBest(edges, e)
    ensures InKeyOrder(r)
  {
    hide BestSoFar, IsBest, EdgeKey, TupleLess, InKeyOrder, SetOf;
    var best: map<seq<string>, ProtocolEdge> := map[];
    assert BestSoFar([], best) by { NothingBest(); }
    for i := 0 to |edges|
      invariant BestSoFar(edges[..i], best)
    {
      var edge := edges[i];
      var key := EdgeKey(edge);
      BestStep(edges[..i], best, edge);
      assert edges[..i + 1] == edges[..i] + [edge];
      if key !in best || edge.confidence > best[key].confidence {
        best := best[key := edge];
      }
    }
    assert edges[..|edges|] == edges;
    var keys := SortedTuples(best.Keys);
    r := seq(|keys|, i requires 0 <= i < |keys| => best[keys[i]]);
    ListedInKeyOrder(edges, best, keys, r);
  }

  ghost predicate InKeyOrder(r: seq<ProtocolEdge>) {
    forall i, j | 0 <= i < j < |r| :: EdgePrecedes(r[i], r[j])
  }

  lemma NothingBest()
    ensures BestSoFar([], map[])
  {
  }

  lemma ListedInKeyOrder(
    edges: seq<ProtocolEdge>, best: map<seq<string>, ProtocolEdge>, keys: seq<seq<string>>, r: seq<ProtocolEdge>)
    requires BestSoFar(edges, best) && SetOf(keys) == best.Keys
    requires forall i | 0 <= i < |keys| :: keys[i] in best
    requires |r| == |keys| && forall i | 0 <= i < |r| :: r[i] == best[keys[i]]
    requires forall i, j | 0 <= i < j < |keys| :: TupleLess(keys[i], keys[j])
    ensures forall e :: e in r <==> IsBest(edges, e)
    ensures InKeyOrder(r)
  {
    hide TupleLess, EdgeKey, EdgePrecedes;
    forall e | IsBest(edges, e) ensures e in r {
      assert EdgeKey(e) in SetOf(keys);
      var i :| 0 <= i < |keys| && keys[i] == EdgeKey(e);
      EdgeKeyInjective(e, best[keys[i]]);
      assert r[i] == e;
    }
    forall i, j | 0 <= i < j < |r| ensures EdgePrecedes(r[i], r[j]) {
      assert EdgeKey(r[i]) == keys[i] && EdgeKey(r[j]) == keys[j];
      EdgeOrder(r[i], r[j]);
    }
  }

  // ---- which edges there are, by what the discovery says ----

  /** Some contract is listed at the address. */
  ghost predicate IsListed(d: Discovery, a: string) { exists c :: c in d.contracts && c.address == a }

  /** The metadata entry is a text, and lowered it is `v`. */
  ghost predicate Says(c: ProtocolContract, key: string, v: string) {
    key in c.metadata && c.metadata[key].Literal? && v == Lower(c.metadata[key].text)
  }

  /** The contract at position `i` is the last one listed at the address. */
  ghost predicate LastAt(d: Discovery, i: nat, a: string) {
    i < |d.contracts| && d.contracts[i].address == a && forall j | i < j < |d.contracts| :: d.contracts[j].address != a
  }

  /** A relationship between listed contracts says so, with this type and confidence. */
  ghost predicate FromRelation(d: Discovery, e: ProtocolEdge) {
    exists r :: r in d.relationships && r.sourceAddress == e.source && r.targetAddress == e.target
      && IsListed(d, e.source) && IsListed(d, e.target) && r.confidence == e.confidence
      && RelationshipText(r.relationshipType) == EdgeTypeText(e.relationshipType)
  }

  /** `x` is the lower of the two. */
  ghost predicate IsMin(x: int, a: int, b: int) { x <= a && x <= b && (x == a || x == b) }

  /** The contract, a proxy or root, names the contract at position `i` as its admin; the
      lower confidence of the two counts. */
  ghost predicate NamesAdmin(d: Discovery, e: ProtocolEdge, c: ProtocolContract, i: nat) {
    && c in d.contracts && c.address == e.target && (c.role == Proxy || c.role == Root)
    && Says(c, "admin_address", e.source) && LastAt(d, i, e.source)
    && IsMin(e.confidence, c.confidence, d.contracts[i].confidence)
  }

  ghost predicate FromAdmin(d: Discovery, e: ProtocolEdge) {
    e.relationshipType == AdminToProxy && exists c, i: nat :: NamesAdmin(d, e, c, i)
  }

  ghost predicate Serves(d: Discovery, e: ProtocolEdge, c: ProtocolContract) {
    c in d.contracts && c.role == Oracle && c.address == e.source && c.confidence == e.confidence
  }

  /** An oracle serves the root. */
  ghost predicate FromOracle(d: Discovery, e: ProtocolEdge) {
    e.relationshipType == OracleToProtocol && e.target == Lower(d.rootAddress) && exists c :: Serves(d, e, c)
  }

  ghost predicate Declares(d: Discovery, e: ProtocolEdge, c: ProtocolContract) {
    c in d.contracts && c.address == e.source && Says(c, "depends_on", e.target) && c.confidence == e.confidence
  }

  /** A contract other than the root declares a listed dependency that no relationship covers. */
  ghost predicate FromDependency(d: Discovery, e: ProtocolEdge) {
    && e.relationshipType == DependsOn && e.source != Lower(d.rootAddress) && IsListed(d, e.target)
    && (forall r | r in d.relationships :: r.sourceAddress != e.source || r.targetAddress != e.target)
    && exists c :: Declares(d, e, c)
  }

  ghost predicate Inferred(d: Discovery, e: ProtocolEdge) {
    FromRelation(d, e) || FromAdmin(d, e) || FromOracle(d, e) || FromDependency(d, e)
  }

  /** Nothing else infers the edge with a higher confidence. */
  ghost predicate BestInferred(d: Discovery, e: ProtocolEdge) {
    Inferred(d, e) && forall f | Inferred(d, f) && SameEdge(f, e) :: f.confidence <= e.confidence
  }

  lemma TextEntryIs(c: ProtocolContract, key: string, v: string)
    ensures TextEntry(c, key) == Some(v) <==> Says(c, key, v)
  {
  }

  lemma KnownIsListed(d: Discovery, a: string)
    ensures a in Known(d) <==> IsListed(d, a)
  {
  }

  lemma {:induction false} ByAddressIsLast(d: Discovery, n: nat, i: nat, a: string)
    requires n <= |d.contracts| && i < n && d.contracts[i].address == a
    requires forall j | i < j < n :: d.contracts[j].address != a
    ensures a in ByAddress(d.contracts[..n]) && ByAddress(d.contracts[..n])[a] == d.contracts[i]
  {
    assert d.contracts[..n][..n - 1] == d.contracts[..n - 1];
    if i < n - 1 { ByAddressIsLast(d, n - 1, i, a); }
  }

  lemma {:induction false} HasLast(d: Discovery, n: nat, a: string) returns (i: nat)
    requires n <= |d.contracts| && exists k :: 0 <= k < n && d.contracts[k].address == a
    ensures i < n && d.contracts[i].address == a && forall j | i < j < n :: d.contracts[j].address != a
  {
    i := n - 1;
    if d.contracts[n - 1].address != a { i := HasLast(d, n - 1, a); }
  }

  lemma LastIs(d: Discovery, a: string) returns (i: nat)
    requires a in Known(d)
    ensures LastAt(d, i, a) && a in ByAddress(d.contracts) && ByAddress(d.contracts)[a] == d.contracts[i]
  {
    var c :| c in d.contracts && c.address == a;
    var k :| 0 <= k < |d.contracts| && d.contracts[k] == c;
    hide ByAddress, Known;
    i := HasLast(d, |d.contracts|, a);
    ByAddressIsLast(d, |d.contracts|, i, a);
    assert d.contracts[..|d.contracts|] == d.contracts;
  }

  lemma LastIsOne(d: Discovery, i: nat, j: nat, a: string)
    requires LastAt(d, i, a) && LastAt(d, j, a)
    ensures i == j
  {
  }

  lemma YieldIsInferred(d: Discovery, kind: Inference, i: nat, e: ProtocolEdge)
    requires i < Items(d, kind) && Yield(d, kind, i) == Some(e)
    ensures Inferred(d, e)
  {
    hide ByAddress, Known, TextEntry, ExistingPairs, Says, IsListed, LastAt, EdgeTypeOf, EdgeTypeText, Lower;
    KnownIsListed(d, e.source);
    KnownIsListed(d, e.target);
    match kind
    case DeclaredRelationship =>
      TypeKeepsName(d.relationships[i].relationshipType);
      assert d.relationships[i] in d.relationships;
    case AdminOfProxy => AdminIsInferred(d, i, e);
    case OracleOfRoot => assert Serves(d, e, d.contracts[i]);
    case DeclaredDependency => DependencyIsInferred(d, i, e);
  }

  lemma AdminIsInferred(d: Discovery, i: nat, e: ProtocolEdge)
    requires i < |d.contracts| && AdminEdge(d, d.contracts[i]) == Some(e)
    ensures FromAdmin(d, e)
  {
    ByAddressKnows(d);
    hide ByAddress, Known, TextEntry, Says, LastAt;
    var c := d.contracts[i];
    TextEntryIs(c, "admin_address", e.source);
    var k := LastIs(d, e.source);
    LastIsKnown(d, k, e.source);
    assert NamesAdmin(d, e, c, k);
  }

  lemma DependencyIsInferred(d: Discovery, i: nat, e: ProtocolEdge)
    requires i < |d.contracts| && DependsOnEdge(d, d.contracts[i]) == Some(e)
    ensures FromDependency(d, e)
  {
    KnownIsListed(d, e.target);
    TextEntryIs(d.contracts[i], "depends_on", e.target);
    NotCovered(d, e.source, e.target);
    hide Known, TextEntry, Says, IsListed, ExistingPairs, Lower;
    assert Declares(d, e, d.contracts[i]);
  }

  lemma NotCovered(d: Discovery, u: string, v: string)
    ensures (u, v) !in ExistingPairs(d) <==>
            forall r | r in d.relationships :: r.sourceAddress != u || r.targetAddress != v
  {
    if r :| r in d.relationships && r.sourceAddress == u && r.targetAddress == v {
      assert (r.sourceAddress, r.targetAddress) in ExistingPairs(d);
    }
  }

  lemma InferredIsCandidate(d: Discovery, e: ProtocolEdge)
    requires Inferred(d, e)
    ensures e in CandidateEdges(d)
  {
    hide Known, TextEntry, Says, IsListed, ExistingPairs, Lower, LastAt, EdgeTypeOf, EdgeTypeText, CandidateEdges,
      Yield, Items, FromRelation, FromAdmin, FromOracle, FromDependency;
    var kind, i;
    if FromRelation(d, e) {
      kind, i := RelationYields(d, e);
    } else if FromAdmin(d, e) {
      kind, i := InferredAdminYields(d, e);
    } else if FromOracle(d, e) {
      kind, i := InferredOracleYields(d, e);
    } else {
      kind, i := InferredDependencyYields(d, e);
    }
    YieldIsCandidate(d, kind, i, e);
  }

  lemma RelationYields(d: Discovery, e: ProtocolEdge) returns (kind: Inference, i: nat)
    requires FromRelation(d, e)
    ensures i < Items(d, kind) && Yield(d, kind, i) == Some(e)
  {
    hide Known, IsListed, EdgeTypeOf, EdgeTypeText;
    var r :| r in d.relationships && r.sourceAddress == e.source && r.targetAddress == e.target
      && IsListed(d, e.source) && IsListed(d, e.target) && r.confidence == e.confidence
      && RelationshipText(r.relationshipType) == EdgeTypeText(e.relationshipType);
    KnownIsListed(d, e.source);
    KnownIsListed(d, e.target);
    TypeKeepsName(r.relationshipType);
    TextTellsType(EdgeTypeOf(r.relationshipType), e.relationshipType);
    kind := DeclaredRelationship;
    i :| i < |d.relationships| && d.relationships[i] == r;
  }

  lemma InferredAdminYields(d: Discovery, e: ProtocolEdge) returns (kind: Inference, i: nat)
    requires FromAdmin(d, e)
    ensures i < Items(d, kind) && Yield(d, kind, i) == Some(e)
  {
    hide Known, TextEntry, Says, LastAt, ByAddress;
    var c, k: nat :| NamesAdmin(d, e, c, k);
    TextEntryIs(c, "admin_address", e.source);
    LastIsKnown(d, k, e.source);
    var j := LastIs(d, e.source);
    LastIsOne(d, j, k, e.source);
    kind := AdminOfProxy;
    i :| i < |d.contracts| && d.contracts[i] == c;
  }

  lemma LastIsKnown(d: Discovery, i: nat, a: string)
    requires LastAt(d, i, a)
    ensures i < |d.contracts| && a in Known(d)
  {
    assert d.contracts[i] in d.contracts;
  }

  lemma InferredOracleYields(d: Discovery, e: ProtocolEdge) returns (kind: Inference, i: nat)
    requires FromOracle(d, e)
    ensures i < Items(d, kind) && Yield(d, kind, i) == Some(e)
  {
    hide Lower;
    var c :| Serves(d, e, c);
    kind := OracleOfRoot;
    i :| i < |d.contracts| && d.contracts[i] == c;
  }

  lemma InferredDependencyYields(d: Discovery, e: ProtocolEdge) returns (kind: Inference, i: nat)
    requires FromDependency(d, e)
    ensures i < Items(d, kind) && Yield(d, kind, i) == Some(e)
  {
    hide Lower, Says, IsListed, Known, ExistingPairs, TextEntry;
    var c :| Declares(d, e, c);
    TextEntryIs(c, "depends_on", e.target);
    KnownIsListed(d, e.target);
    NotCovered(d, e.source, e.target);
    kind := DeclaredDependency;
    i :| i < |d.contracts| && d.contracts[i] == c;
  }

  lemma CandidatesAreInferred(d: Discovery, e: ProtocolEdge)
    ensures e in CandidateEdges(d) <==> Inferred(d, e)
  {
    hide CandidateEdges, Inferred, Yield;
    if e in CandidateEdges(d) {
      var kind, i := CandidateOrigin(d, e);
      YieldIsInferred(d, kind, i, e);
    }
    if Inferred(d, e) { InferredIsCandidate(d, e); }
  }

  lemma BestAreInferred(d: Discovery, e: ProtocolEdge)
    ensures IsBest(CandidateEdges(d), e) <==> BestInferred(d, e)
  {
    hide CandidateEdges, Inferred, EdgeKey, SameEdge;
    forall f
      ensures f in CandidateEdges(d) <==> Inferred(d, f)
      ensures EdgeKey(f) == EdgeKey(e) <==> SameEdge(f, e)
    {
      CandidatesAreInferred(d, f);
      KeyTellsEdge(f, e);
    }
  }

  /** Each inferred edge is listed with at least its confidence. */
  lemma InferredIsListed(d: Discovery, r: seq<ProtocolEdge>, e: ProtocolEdge) returns (b: ProtocolEdge)
    requires (forall f :: f in r <==> BestInferred(d, f)) && Inferred(d, e)
    ensures b in r && SameEdge(b, e) && b.confidence >= e.confidence
  {
    hide CandidateEdges, Inferred, EdgeKey, SameEdge, BestInferred;
    CandidatesAreInferred(d, e);
    b := HasBest(CandidateEdges(d), e);
    BestAreInferred(d, b);
    KeyTellsEdge(b, e);
  }

  /** `build_edges`: the best candidates, joining exactly the linked pairs. */
  method BuildEdges(d: Discovery) returns (r: seq<ProtocolEdge>)
    ensures forall e :: e in r <==> BestInferred(d, e)
    ensures forall e :: e in r <==> IsBest(CandidateEdges(d), e)
    ensures InKeyOrder(r)
    ensures forall u, v :: Joins(r, u, v) <==> Linked(d, u, v)
  {
    hide IsBest, Linked, Joins, InKeyOrder, ExistingPairs, BestInferred;
    var edges: seq<ProtocolEdge> := [];
    var known := Known(d);
    for i := 0 to |d.relationships|
      invariant edges == Gather(d, DeclaredRelationship, i)
    {
      var edge := FromRelationship(d.relationships[i]);
      if edge.source in known && edge.target in known {
        edges := edges + [edge];
      }
    }
    var admin := InferAdminToProxy(d);
    var oracle := InferOracleToProtocol(d);
    var depends := InferDependsOn(d, known);
    r := DedupeEdges(edges + admin + oracle + depends);
    BestJoinsWhatAllJoin(CandidateEdges(d), r);
    CandidatesLink(d);
    forall e ensures IsBest(CandidateEdges(d), e) <==> BestInferred(d, e) { BestAreInferred(d, e); }
  }

  // ---- which pairs get joined ----

  ghost predicate Joins(edges: seq<ProtocolEdge>, u: string, v: string) {
    exists e :: e in edges && e.source == u && e.target == v
  }

  lemma {:induction false} HasBest(edges: seq<ProtocolEdge>, e: ProtocolEdge) returns (b: ProtocolEdge)
    requires e in edges
    ensures IsBest(edges, b) && EdgeKey(b) == EdgeKey(e)
  {
    hide EdgeKey;
    var n := |edges| - 1;
    var rest, last := edges[..n], edges[n];
    assert edges == rest + [last];
    if f :| f in rest && EdgeKey(f) == EdgeKey(e) {
      b := HasBest(rest, f);
      if EdgeKey(last) == EdgeKey(e) && last.confidence > b.confidence { b := last; }
    } else {
      b := last;
    }
    assert forall f :: f in edges <==> f in rest || f == last;
  }

  lemma BestJoinsWhatAllJoin(all: seq<ProtocolEdge>, r: seq<ProtocolEdge>)
    requires forall e :: e in r <==> IsBest(all, e)
    ensures forall u, v :: Joins(r, u, v) <==> Joins(all, u, v)
  {
    forall u, v ensures Joins(r, u, v) <==> Joins(all, u, v) {
      if e :| e in all && e.source == u && e.target == v {
        var b := HasBest(all, e);
        assert EdgeKey(b)[1] == EdgeKey(e)[1] && EdgeKey(b)[2] == EdgeKey(e)[2];
        assert b in r;
      }
    }
  }

  /** Which ordered pairs the discovery links, by what it says and nothing else. */
  ghost predicate Linked(d: Discovery, u: string, v: string) {
    || (u in Known(d) && v in Known(d) && (u, v) in ExistingPairs(d))
    || (u in Known(d) && exists c :: c in d.contracts && c.address == v && (c.role == Proxy || c.role == Root)
                                     && TextEntry(c, "admin_address") == Some(u))
    || (v == RootOf(d) && exists c :: c in d.contracts && c.address == u && c.role == Oracle)
    || (v in Known(d) && u != RootOf(d) && exists c ::
        c in d.contracts && c.address == u && TextEntry(c, "depends_on") == Some(v))
  }

  /** The candidates join exactly the linked pairs. In particular leaving out the declared
      dependencies that a relationship already covers never loses a pair. */
  lemma CandidatesLink(d: Discovery)
    ensures forall u, v :: Joins(CandidateEdges(d), u, v) <==> Linked(d, u, v)
  {
    hide CandidateEdges, Linked;
    forall u, v ensures Joins(CandidateEdges(d), u, v) <==> Linked(d, u, v) {
      if Joins(CandidateEdges(d), u, v) {
        var e :| e in CandidateEdges(d) && e.source == u && e.target == v;
        var kind, i := CandidateOrigin(d, e);
        CandidateIsLinked(d, kind, i, e);
      }
      if Linked(d, u, v) {
        var kind, i, e := LinkedHasCandidate(d, u, v);
        YieldIsCandidate(d, kind, i, e);
      }
    }
  }

  lemma CandidateOrigin(d: Discovery, e: ProtocolEdge) returns (kind: Inference, i: nat)
    requires e in CandidateEdges(d)
    ensures i < Items(d, kind) && Yield(d, kind, i) == Some(e)
  {
    hide Gather, Yield;
    kind :| kind in {DeclaredRelationship, AdminOfProxy, OracleOfRoot, DeclaredDependency}
        && e in Gather(d, kind, Items(d, kind));
    GatheredAre(d, kind, Items(d, kind), e);
    i :| i < Items(d, kind) && Yield(d, kind, i) == Some(e);
  }

  lemma YieldIsCandidate(d: Discovery, kind: Inference, i: nat, e: ProtocolEdge)
    requires i < Items(d, kind) && Yield(d, kind, i) == Some(e)
    ensures e in CandidateEdges(d)
  {
    hide Gather, Yield;
    GatheredAre(d, kind, Items(d, kind), e);
  }

  lemma CandidateIsLinked(d: Discovery, kind: Inference, i: nat, e: ProtocolEdge)
    requires i < Items(d, kind) && Yield(d, kind, i) == Some(e)
    ensures Linked(d, e.source, e.target)
  {
    ByAddressKnows(d);
    if kind.DeclaredRelationship? {
      var r := d.relationships[i];
      assert (r.sourceAddress, r.targetAddress) in ExistingPairs(d);
    } else {
      assert d.contracts[i] in d.contracts;
    }
  }

  lemma LinkedHasCandidate(d: Discovery, u: string, v: string) returns (kind: Inference, i: nat, e: ProtocolEdge)
    requires Linked(d, u, v)
    ensures i < Items(d, kind) && Yield(d, kind, i) == Some(e) && e.source == u && e.target == v
  {
    hide Known, ExistingPairs, TextEntry, Yield, Items, RootOf;
    if u in Known(d) && v in Known(d) && (u, v) in ExistingPairs(d) {
      kind := DeclaredRelationship;
      i, e := RelatedPairYields(d, u, v);
    } else if c :| u in Known(d) && c in d.contracts && c.address == v && (c.role == Proxy || c.role == Root)
                   && TextEntry(c, "admin_address") == Some(u) {
      kind := AdminOfProxy;
      i, e := AdminYields(d, u, c);
    } else if c :| v == RootOf(d) && c in d.contracts && c.address == u && c.role == Oracle {
      kind := OracleOfRoot;
      i, e := OracleYields(d, c);
    } else {
      var c :| c in d.contracts && c.address == u && TextEntry(c, "depends_on") == Some(v);
      kind := DeclaredDependency;
      ContractIsKnown(d, c);
      i, e := DependencyYields(d, c, v);
    }
  }

  lemma ContractIsKnown(d: Discovery, c: ProtocolContract)
    requires c in d.contracts
    ensures c.address in Known(d)
  {
  }

  lemma RelatedPairYields(d: Discovery, u: string, v: string) returns (i: nat, e: ProtocolEdge)
    requires u in Known(d) && v in Known(d) && (u, v) in ExistingPairs(d)
    ensures i < Items(d, DeclaredRelationship) && Yield(d, DeclaredRelationship, i) == Some(e)
    ensures e.source == u && e.target == v
  {
    hide Known;
    var r :| r in d.relationships && (r.sourceAddress, r.targetAddress) == (u, v);
    i :| i < |d.relationships| && d.relationships[i] == r;
    e := FromRelationship(r);
  }

  lemma AdminYields(d: Discovery, u: string, c: ProtocolContract) returns (i: nat, e: ProtocolEdge)
    requires u in Known(d) && c in d.contracts && (c.role == Proxy || c.role == Root)
    requires TextEntry(c, "admin_address") == Some(u)
    ensures i < Items(d, AdminOfProxy) && Yield(d, AdminOfProxy, i) == Some(e)
    ensures e.source == u && e.target == c.address
  {
    ByAddressKnows(d);
    hide TextEntry, ByAddress, Known;
    i :| i < |d.contracts| && d.contracts[i] == c;
    e := Yield(d, AdminOfProxy, i).value;
  }

  lemma OracleYields(d: Discovery, c: ProtocolContract) returns (i: nat, e: ProtocolEdge)
    requires c in d.contracts && c.role == Oracle
    ensures i < Items(d, OracleOfRoot) && Yield(d, OracleOfRoot, i) == Some(e)
    ensures e.source == c.address && e.target == RootOf(d)
  {
    hide RootOf;
    i :| i < |d.contracts| && d.contracts[i] == c;
    e := Yield(d, OracleOfRoot, i).value;
  }

  /** Either the declared dependency is covered by a relationship, or it yields an edge. */
  lemma DependencyYields(d: Discovery, c: ProtocolContract, v: string) returns (i: nat, e: ProtocolEdge)
    requires c in d.contracts && c.address != RootOf(d) && TextEntry(c, "depends_on") == Some(v)
    requires v in Known(d) && (c.address, v) !in ExistingPairs(d)
    ensures i < Items(d, DeclaredDependency) && Yield(d, DeclaredDependency, i) == Some(e)
    ensures e.source == c.address && e.target == v
  {
    hide RootOf, TextEntry, Known, ExistingPairs;
    i :| i < |d.contracts| && d.contracts[i] == c;
    e := Yield(d, DeclaredDependency, i).value;
  }
}
