/** Graph nodes from discovered contracts: one per address, root marked. */
module NodeClassifiers {
  import opened Ordering
  import opened ProtocolGraphs
  import opened EdgeBuilders

  /** `classify_contract`. */
  function Classify(c: ProtocolContract, protocolName: string, protocolFamily: string): ProtocolNode {
    var m := c.metadata["confidence" := Number(c.confidence)]["detection_source" := Literal(c.detectionSource)]
      ["protocol_family" := Literal(protocolFamily)];
    var isRoot := if "root_address" in c.metadata && c.metadata["root_address"] == Literal(c.address) then Flag(true)
                  else if "is_root" in c.metadata then c.metadata["is_root"] else Flag(false);
    ProtocolNode(c.address, c.role, protocolName, m["is_root" := isRoot])
  }

  /** The metadata holds these values and, under every other key, what `before` holds. */
  ghost predicate Overlaid(before: map<string, Meta>, added: map<string, Meta>, after: map<string, Meta>) {
    && after.Keys == before.Keys + added.Keys
    && forall k | k in after :: after[k] == if k in added then added[k] else before[k]
  }

  /** Whether a contract counts as the root: it names itself as such, or its own entry says. */
  ghost predicate SaysRoot(c: ProtocolContract, m: Meta) {
    var named := "root_address" in c.metadata && c.metadata["root_address"] == Literal(c.address);
    && (named ==> m == Flag(true))
    && (!named && "is_root" in c.metadata ==> m == c.metadata["is_root"])
    && (!named && "is_root" !in c.metadata ==> m == Flag(false))
  }

  /** What the node of a contract holds. */
  ghost predicate NodeOf(d: Discovery, c: ProtocolContract, n: ProtocolNode) {
    && n.address == c.address && n.role == c.role && n.protocolName == d.protocolName
    && "is_root" in n.metadata && SaysRoot(c, n.metadata["is_root"])
    && Overlaid(c.metadata, map["confidence" := Number(c.confidence), "detection_source" := Literal(c.detectionSource),
                                "protocol_family" := Literal(d.protocolFamily), "is_root" := n.metadata["is_root"]],
                n.metadata)
  }

  lemma ClassifyIsNodeOf(d: Discovery, c: ProtocolContract)
    ensures NodeOf(d, c, Classify(c, d.protocolName, d.protocolFamily))
  {
  }

  function Classified(d: Discovery): seq<ProtocolNode> {
    seq(|d.contracts|, i requires 0 <= i < |d.contracts| => Classify(d.contracts[i], d.protocolName, d.protocolFamily))
  }

  function Confidence(n: ProtocolNode): int {
    if "confidence" in n.metadata && n.metadata["confidence"].Number? then n.metadata["confidence"].n else 0
  }

  lemma ClassifyKeepsConfidence(c: ProtocolContract, protocolName: string, protocolFamily: string)
    ensures Confidence(Classify(c, protocolName, protocolFamily)) == c.confidence
  {
  }

  /** Entry `i` is the one kept for its address: none there has a higher confidence, and none
      after it has as high a one. */
  ghost predicate KeptAt(nodes: seq<ProtocolNode>, i: nat) {
    && i < |nodes|
    && forall j | 0 <= j < |nodes| && nodes[j].address == nodes[i].address ::
         Confidence(nodes[j]) <= Confidence(nodes[i]) && (j > i ==> Confidence(nodes[j]) < Confidence(nodes[i]))
  }

  ghost predicate Kept(nodes: seq<ProtocolNode>, n: ProtocolNode) {
    exists i: nat :: KeptAt(nodes, i) && nodes[i] == n
  }

  ghost predicate KeptSoFar(nodes: seq<ProtocolNode>, best: map<string, ProtocolNode>) {
    && (forall a | a in best :: best[a].address == a && Kept(nodes, best[a]))
    && (forall i | 0 <= i < |nodes| :: nodes[i].address in best)
  }

  lemma KeptStep(nodes: seq<ProtocolNode>, best: map<string, ProtocolNode>, n: ProtocolNode)
    requires KeptSoFar(nodes, best)
    ensures KeptSoFar(
              nodes + [n],
              if n.address !in best || Confidence(n) >= Confidence(best[n.address]) then best[n.address := n] else best)
  {
    hide Confidence;
    var more := nodes + [n];
    var next := if n.address !in best || Confidence(n) >= Confidence(best[n.address]) then best[n.address := n]
        else best;
    forall a | a in next ensures next[a].address == a && Kept(more, next[a]) {
      if a == n.address && next[a] == n && (a !in best || Confidence(n) >= Confidence(best[a])) {
        LastIsKept(nodes, best, n);
      } else {
        assert a in best && next[a] == best[a];
        StillKept(nodes, best, n, a);
      }
    }
  }

  lemma LastIsKept(nodes: seq<ProtocolNode>, best: map<string, ProtocolNode>, n: ProtocolNode)
    requires KeptSoFar(nodes, best)
    requires n.address !in best || Confidence(n) >= Confidence(best[n.address])
    ensures Kept(nodes + [n], n)
  {
    hide Confidence;
    var more := nodes + [n];
    forall j | 0 <= j < |more| && more[j].address == n.address ensures Confidence(more[j]) <= Confidence(n) {
      if j < |nodes| {
        assert more[j] == nodes[j];
        var i: nat :| KeptAt(nodes, i) && nodes[i] == best[n.address];
      }
    }
    assert KeptAt(more, |nodes|) && more[|nodes|] == n;
  }

  lemma StillKept(nodes: seq<ProtocolNode>, best: map<string, ProtocolNode>, n: ProtocolNode, a: string)
    requires KeptSoFar(nodes, best) && a in best
    requires a == n.address ==> Confidence(n) < Confidence(best[a])
    ensures Kept(nodes + [n], best[a])
  {
    hide Confidence;
    var i: nat :| KeptAt(nodes, i) && nodes[i] == best[a];
    assert KeptAt(nodes + [n], i);
  }

  function NodeKey(n: ProtocolNode): seq<string> { [RoleText(n.role), n.address] }

  function NodeKeys(best: map<string, ProtocolNode>): set<seq<string>> { set a | a in best :: NodeKey(best[a]) }

  ghost predicate NodesInOrder(r: seq<ProtocolNode>) {
    forall i, j | 0 <= i < j < |r| :: NodePrecedes(r[i], r[j])
  }

  /** By role name, then address. */
  ghost predicate NodePrecedes(m: ProtocolNode, n: ProtocolNode) {
    || Precedes(RoleText(m.role), RoleText(n.role))
    || (RoleText(m.role) == RoleText(n.role) && Precedes(m.address, n.address))
  }

  lemma NodeOrder(m: ProtocolNode, n: ProtocolNode)
    ensures TupleLess(NodeKey(m), NodeKey(n)) <==> NodePrecedes(m, n)
  {
    hide RoleText, Precedes, TupleLess;
    PairOrder(RoleText(m.role), m.address, RoleText(n.role), n.address);
  }

  /** `_dedupe_nodes`: one node per address, the last of the most confident, sorted by role
      and address. */
  method DedupeNodes(nodes: seq<ProtocolNode>) returns (r: seq<ProtocolNode>)
    ensures forall n :: n in r <==> Kept(nodes, n)
    ensures Distinct(AddressList(r))
    ensures SetOf(AddressList(r)) == SetOf(AddressList(nodes))
    ensures NodesInOrder(r)
  {
    hide KeptSoFar, Kept, Confidence, NodesInOrder, SetOf, Distinct, NodeKey, TupleLess, NodeKeys, AddressList;
    var best: map<string, ProtocolNode> := map[];
    assert KeptSoFar([], best) by { NothingKept(); }
    for i := 0 to |nodes|
      invariant KeptSoFar(nodes[..i], best)
    {
      var node := nodes[i];
      KeptStep(nodes[..i], best, node);
      assert nodes[..i + 1] == nodes[..i] + [node];
      if node.address !in best || Confidence(node) >= Confidence(best[node.address]) {
        best := best[node.address := node];
      }
    }
    assert nodes[..|nodes|] == nodes;
    var keys := SortedTuples(NodeKeys(best));
    KeysNameNodes(nodes, best);
    r := seq(|keys|, i requires 0 <= i < |keys| => best[keys[i][1]]);
    ListedByKey(nodes, best, keys, r);
  }

  lemma NothingKept()
    ensures KeptSoFar([], map[])
  {
  }

  lemma KeysNameNodes(nodes: seq<ProtocolNode>, best: map<string, ProtocolNode>)
    requires KeptSoFar(nodes, best)
    ensures forall k | k in NodeKeys(best) :: |k| == 2 && k[1] in best && NodeKey(best[k[1]]) == k
    ensures forall a | a in best :: NodeKey(best[a]) in NodeKeys(best) && NodeKey(best[a])[1] == a
  {
    forall k | k in NodeKeys(best) ensures |k| == 2 && k[1] in best && NodeKey(best[k[1]]) == k {
      var a :| a in best && NodeKey(best[a]) == k;
      assert k[1] == a;
    }
  }

  lemma ListedByKey(
    nodes: seq<ProtocolNode>, best: map<string, ProtocolNode>, keys: seq<seq<string>>, r: seq<ProtocolNode>)
    requires KeptSoFar(nodes, best) && SetOf(keys) == NodeKeys(best)
    requires forall i | 0 <= i < |keys| :: keys[i] in NodeKeys(best) && |keys[i]| == 2 && keys[i][1] in best
    requires |r| == |keys| && forall i | 0 <= i < |r| :: r[i] == best[keys[i][1]]
    requires forall i, j | 0 <= i < j < |keys| :: TupleLess(keys[i], keys[j])
    ensures forall n :: n in r <==> Kept(nodes, n)
    ensures Distinct(AddressList(r))
    ensures SetOf(AddressList(r)) == SetOf(AddressList(nodes))
    ensures NodesInOrder(r)
  {
    KeysNameNodes(nodes, best);
    hide TupleLess, NodeKeys, Confidence;
    forall a | a in best ensures best[a] in r {
      assert NodeKey(best[a]) in SetOf(keys);
      var i :| 0 <= i < |keys| && keys[i] == NodeKey(best[a]);
      assert r[i] == best[a];
    }
    forall n | Kept(nodes, n) ensures n in r {
      var i: nat :| KeptAt(nodes, i) && nodes[i] == n;
      var j: nat :| KeptAt(nodes, j) && nodes[j] == best[n.address];
      assert i == j;
    }
    SameAddresses(nodes, best, r);
    DistinctByKey(best, keys, r);
    hide NodePrecedes;
    forall i, j | 0 <= i < j < |r| ensures NodePrecedes(r[i], r[j]) {
      assert NodeKey(r[i]) == keys[i] && NodeKey(r[j]) == keys[j];
      NodeOrder(r[i], r[j]);
    }
  }

  lemma DistinctByKey(best: map<string, ProtocolNode>, keys: seq<seq<string>>, r: seq<ProtocolNode>)
    requires forall i | 0 <= i < |keys| :: |keys[i]| == 2 && keys[i][1] in best && NodeKey(best[keys[i][1]]) == keys[i]
    requires |r| == |keys| && forall i | 0 <= i < |r| :: r[i] == best[keys[i][1]] && r[i].address == keys[i][1]
    requires forall i, j | 0 <= i < j < |keys| :: TupleLess(keys[i], keys[j])
    ensures Distinct(AddressList(r))
  {
    OrdersAreTotal();
    hide TupleLess;
    forall i, j | 0 <= i < j < |r| ensures r[i].address != r[j].address {
      assert !TupleLess(keys[i], keys[i]);
      assert keys[i] != keys[j];
    }
  }

  lemma SameAddresses(nodes: seq<ProtocolNode>, best: map<string, ProtocolNode>, r: seq<ProtocolNode>)
    requires KeptSoFar(nodes, best)
    requires forall n :: n in r <==> n.address in best && best[n.address] == n
    ensures SetOf(AddressList(r)) == SetOf(AddressList(nodes)) == best.Keys
  {
    forall a | a in best ensures a in SetOf(AddressList(r)) && a in SetOf(AddressList(nodes)) {
      assert best[a] in r;
      var i :| 0 <= i < |r| && r[i] == best[a];
      IndexedIn(AddressList(r), i);
      var k: nat :| KeptAt(nodes, k) && nodes[k] == best[a];
      IndexedIn(AddressList(nodes), k);
    }
    forall a | a in SetOf(AddressList(r)) ensures a in best {
      var i :| 0 <= i < |r| && AddressList(r)[i] == a;
      assert r[i] in r;
    }
    forall a | a in SetOf(AddressList(nodes)) ensures a in best {
      var i :| 0 <= i < |nodes| && AddressList(nodes)[i] == a;
    }
  }

  /** The contract at position `i` is the one its address is represented by: none at that
      address is more confident, and none after it as confident. */
  ghost predicate ChosenAt(d: Discovery, i: nat) {
    && i < |d.contracts|
    && forall j | 0 <= j < |d.contracts| && d.contracts[j].address == d.contracts[i].address ::
         && d.contracts[j].confidence <= d.contracts[i].confidence
         && (j > i ==> d.contracts[j].confidence < d.contracts[i].confidence)
  }

  ghost predicate Chosen(d: Discovery, n: ProtocolNode) {
    exists i: nat :: ChosenAt(d, i) && n == Classify(d.contracts[i], d.protocolName, d.protocolFamily)
  }

  /** The node of the contract that represents its address. */
  ghost predicate Represents(d: Discovery, n: ProtocolNode) {
    exists i: nat :: ChosenAt(d, i) && NodeOf(d, d.contracts[i], n)
  }

  lemma ChosenIsNodeOf(d: Discovery, n: ProtocolNode)
    requires Chosen(d, n)
    ensures Represents(d, n)
  {
    hide NodeOf, Classify;
    var i: nat :| ChosenAt(d, i) && n == Classify(d.contracts[i], d.protocolName, d.protocolFamily);
    ClassifyIsNodeOf(d, d.contracts[i]);
  }

  /** Reading the confidence back from the classified nodes makes the same choice. */
  lemma KeptIsChosen(d: Discovery, n: ProtocolNode)
    ensures Kept(Classified(d), n) <==> Chosen(d, n)
  {
    var nodes := Classified(d);
    forall i | 0 <= i < |nodes| ensures Confidence(nodes[i]) == d.contracts[i].confidence {
      ClassifyKeepsConfidence(d.contracts[i], d.protocolName, d.protocolFamily);
    }
    forall i | 0 <= i < |nodes| ensures nodes[i].address == d.contracts[i].address {}
    hide Confidence, Classify;
    forall i: nat ensures KeptAt(nodes, i) <==> ChosenAt(d, i) {}
    if i: nat :| KeptAt(nodes, i) && nodes[i] == n { assert ChosenAt(d, i); }
    if i: nat :| ChosenAt(d, i) && n == Classify(d.contracts[i], d.protocolName, d.protocolFamily) {
      assert KeptAt(nodes, i) && nodes[i] == n;
    }
  }

  /** `build_nodes`. */
  method BuildNodes(d: Discovery) returns (r: seq<ProtocolNode>)
    ensures forall n :: n in r <==> Chosen(d, n)
    ensures forall n | n in r :: Represents(d, n)
    ensures Distinct(AddressList(r)) && SetOf(AddressList(r)) == Known(d)
    ensures NodesInOrder(r)
  {
    hide Represents, Chosen, Kept, Distinct, SetOf, AddressList, Known, NodesInOrder, Classified;
    var nodes := Classified(d);
    r := DedupeNodes(nodes);
    ClassifiedAddresses(d);
    forall n ensures n in r <==> Chosen(d, n) { KeptIsChosen(d, n); }
    forall n | n in r ensures Represents(d, n) { ChosenIsNodeOf(d, n); }
  }

  lemma ClassifiedAddresses(d: Discovery)
    ensures SetOf(AddressList(Classified(d))) == Known(d)
  {
    var l := AddressList(Classified(d));
    forall a | a in Known(d) ensures a in SetOf(l) {
      var c :| c in d.contracts && c.address == a;
      var i :| 0 <= i < |d.contracts| && d.contracts[i] == c;
      IndexedIn(l, i);
    }
    forall a | a in SetOf(l) ensures a in Known(d) {
      var i :| 0 <= i < |l| && l[i] == a;
      assert d.contracts[i] in d.contracts;
    }
  }

  function MarkedNode(n: ProtocolNode, root: string): ProtocolNode {
    if n.address == root
    then n.(role := if n.role != Unknown then n.role else Root,
            metadata := n.metadata["is_root" := Flag(true)]["root_address" := Literal(root)])
    else n.(metadata := n.metadata["root_address" := Literal(root)])
  }

  /** Marking sets `root_address` everywhere, and on the root `is_root` and, where it was
      unknown, the role. */
  ghost predicate MarkedAs(n: ProtocolNode, root: string, m: ProtocolNode) {
    && m.address == n.address && m.protocolName == n.protocolName
    && m.role == (if n.address == root && n.role == Unknown then Root else n.role)
    && Overlaid(n.metadata, if n.address == root then map["is_root" := Flag(true), "root_address" := Literal(root)]
                else map["root_address" := Literal(root)], m.metadata)
  }

  lemma MarkedNodeIs(n: ProtocolNode, root: string)
    ensures MarkedAs(n, root, MarkedNode(n, root))
  {
  }

  /** `mark_root_node`: marks in place, changing no address and no other role. */
  method MarkRootNode(nodes: seq<ProtocolNode>, root: string) returns (r: seq<ProtocolNode>)
    ensures |r| == |nodes| && forall i | 0 <= i < |r| :: r[i] == MarkedNode(nodes[i], root)
    ensures forall i | 0 <= i < |r| :: MarkedAs(nodes[i], root, r[i])
    ensures AddressList(r) == AddressList(nodes)
  {
    hide MarkedAs;
    r := [];
    for i := 0 to |nodes|
      invariant |r| == i && forall k | 0 <= k < i :: r[k] == MarkedNode(nodes[k], root)
    {
      r := r + [MarkedNode(nodes[i], root)];
    }
    forall n ensures MarkedAs(n, root, MarkedNode(n, root)) { MarkedNodeIs(n, root); }
  }
}
