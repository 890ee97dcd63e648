/** Structural validation of a graph, and what its report says. */
module GraphValidators {
  import opened Ordering
  import opened Text
  import opened ProtocolGraphs
  import opened Traversal
  import opened FirstPaths
  import opened DepthFirst

  datatype IssueCode =
    | MissingRoot | DuplicateNodes | InvalidEdge | SelfLoop | DisconnectedNodes | CyclesDetected | OrphanNodes

  datatype Issue = Issue(code: IssueCode, address: Option<string>)

  datatype Report = Report(
    isValid: bool, issues: seq<Issue>, disconnected: seq<string>, orphans: seq<string>, cycles: seq<seq<string>>)

  ghost predicate Reported(issues: seq<Issue>, code: IssueCode) {
    exists i :: 0 <= i < |issues| && issues[i].code == code
  }

  /** The codes that make a graph invalid. Cycles and disconnected nodes do not. */
  predicate Fatal(code: IssueCode) {
    code == MissingRoot || code == DuplicateNodes || code == InvalidEdge || code == SelfLoop
  }

  predicate NoneFatal(issues: seq<Issue>) {
    !(exists i | 0 <= i < |issues| :: Fatal(issues[i].code))
  }

  ghost predicate HasInvalidEdge(g: ProtocolGraph, edges: seq<ProtocolEdge>) {
    exists e :: e in edges && (e.source !in Addresses(g) || e.target !in Addresses(g))
  }

  ghost predicate HasSelfLoop(edges: seq<ProtocolEdge>) {
    exists e :: e in edges && e.source == e.target
  }

  /** When each fatal code is reported. */
  ghost predicate FatalWhen(g: ProtocolGraph, edges: seq<ProtocolEdge>, issues: seq<Issue>) {
    && (Reported(issues, MissingRoot) <==> g.rootNode !in Addresses(g))
    && (Reported(issues, DuplicateNodes) <==> !Distinct(AddressList(g.nodes)))
    && (Reported(issues, InvalidEdge) <==> HasInvalidEdge(g, edges))
    && (Reported(issues, SelfLoop) <==> HasSelfLoop(edges))
  }

  lemma ReportedAppend(issues: seq<Issue>, more: seq<Issue>)
    ensures forall c :: Reported(issues + more, c) <==> Reported(issues, c) || Reported(more, c)
  {
    forall c ensures Reported(issues + more, c) <==> Reported(issues, c) || Reported(more, c) {
      if i :| 0 <= i < |issues| && issues[i].code == c { assert (issues + more)[i].code == c; }
      if i :| 0 <= i < |more| && more[i].code == c { assert (issues + more)[|issues| + i].code == c; }
    }
  }

  lemma NoneReported()
    ensures forall c :: !Reported([], c)
  {
  }

  lemma ReportedOne(x: Issue)
    ensures forall c :: Reported([x], c) <==> c == x.code
  {
    assert [x][0].code == x.code;
  }

  function EdgeIssues(g: ProtocolGraph, e: ProtocolEdge): seq<Issue> {
    (if e.source !in Addresses(g) then [Issue(InvalidEdge, Some(e.source))] else [])
      + (if e.target !in Addresses(g) then [Issue(InvalidEdge, Some(e.target))] else [])
      + (if e.source == e.target then [Issue(SelfLoop, Some(e.source))] else [])
  }

  lemma EdgeIssuesAre(g: ProtocolGraph, e: ProtocolEdge)
    ensures Reported(EdgeIssues(g, e), InvalidEdge) <==> e.source !in Addresses(g) || e.target !in Addresses(g)
    ensures Reported(EdgeIssues(g, e), SelfLoop) <==> e.source == e.target
    ensures forall c | Reported(EdgeIssues(g, e), c) :: c == InvalidEdge || c == SelfLoop
  {
    hide Addresses;
    var x := EdgeIssues(g, e);
    if e.source == e.target { assert x[|x| - 1].code == SelfLoop; }
    if e.source !in Addresses(g) || e.target !in Addresses(g) { assert x[0].code == InvalidEdge; }
  }

  lemma FatalStep(g: ProtocolGraph, edges: seq<ProtocolEdge>, issues: seq<Issue>, e: ProtocolEdge)
    requires FatalWhen(g, edges, issues)
    ensures FatalWhen(g, edges + [e], issues + EdgeIssues(g, e))
    ensures forall c | !Fatal(c) :: Reported(issues + EdgeIssues(g, e), c) <==> Reported(issues, c)
  {
    ReportedAppend(issues, EdgeIssues(g, e));
    EdgeIssuesAre(g, e);
    assert forall f :: f in edges + [e] <==> f in edges || f == e;
    hide EdgeIssues, Reported, Addresses, AddressList, Distinct;
  }

  /** What is left of the listed addresses without the touched ones and the root, each as
      often as it is listed. */
  ghost predicate Untouched(r: seq<string>, listed: seq<string>, touched: set<string>, root: string) {
    forall a :: multiset(r)[a] == if a !in touched && a != root then multiset(listed)[a] else 0
  }

  lemma UntouchedStep(r: seq<string>, listed: seq<string>, touched: set<string>, root: string, a: string)
    requires Untouched(r, listed, touched, root)
    ensures Untouched(if a !in touched && a != root then r + [a] else r, listed + [a], touched, root)
  {
  }

  lemma UntouchedStart(all: seq<string>, touched: set<string>, root: string)
    ensures Untouched([], all[..0], touched, root) && all[..|all|] == all
  {
  }

  lemma NoEndpoints(edges: seq<ProtocolEdge>)
    ensures Endpoints(edges[..0]) == {} && edges[..|edges|] == edges
  {
  }

  /** `_find_orphan_nodes`: nodes other than the root that no edge names. */
  method FindOrphanNodes(g: ProtocolGraph) returns (r: seq<string>)
    ensures forall a :: a in r <==> |g.nodes| > 1 && a in Addresses(g) && a !in Endpoints(g.edges) && a != g.rootNode
    ensures forall a | a in r :: multiset(r)[a] == multiset(AddressList(g.nodes))[a]
  {
    hide Endpoints, Addresses, AddressList, Untouched;
    if |g.nodes| <= 1 {
      return [];
    }
    var touched: set<string> := {};
    NoEndpoints(g.edges);
    for i := 0 to |g.edges|
      invariant touched == Endpoints(g.edges[..i])
    {
      EndpointsStep(g.edges[..i], g.edges[i]);
      TakeNext(g.edges, i);
      touched := touched + {g.edges[i].source};
      touched := touched + {g.edges[i].target};
    }
    r := [];
    var all := AddressList(g.nodes);
    UntouchedStart(all, touched, g.rootNode);
    for i := 0 to |all|
      invariant Untouched(r, all[..i], touched, g.rootNode)
    {
      TakeNext(all, i);
      UntouchedStep(r, all[..i], touched, g.rootNode, all[i]);
      if all[i] !in touched && all[i] != g.rootNode {
        r := r + [all[i]];
      }
    }
    OrphansAre(g, r, touched);
  }

  lemma OrphansAre(g: ProtocolGraph, r: seq<string>, touched: set<string>)
    requires Untouched(r, AddressList(g.nodes), touched, g.rootNode)
    ensures forall a :: a in r <==> a in Addresses(g) && a !in touched && a != g.rootNode
    ensures forall a | a in r :: multiset(r)[a] == multiset(AddressList(g.nodes))[a]
  {
    hide Addresses, AddressList;
    forall a
      ensures a in Addresses(g) <==> a in multiset(AddressList(g.nodes))
      ensures a in r <==> a in multiset(r)
    {
      AddressMember(g, a);
    }
  }

  lemma AddressMember(g: ProtocolGraph, a: string)
    ensures a in Addresses(g) <==> a in AddressList(g.nodes)
  {
  }

  lemma UnreachedMembers(g: ProtocolGraph, root: string, s: seq<string>)
    ensures forall a :: a in Unreached(g, root, s) <==> a in s && !Reaches(g, root, a)
    ensures forall a | !Reaches(g, root, a) :: multiset(Unreached(g, root, s))[a] == multiset(s)[a]
  {
    if s != [] {
      UnreachedMembers(g, root, s[..|s| - 1]);
      assert s == s[..|s| - 1] + [s[|s| - 1]];
      hide Reaches;
    }
  }

  /** Not reached from the root, or every node when the root is not one. */
  ghost predicate Disconnected(g: ProtocolGraph, a: string) {
    a in Addresses(g) && (Lower(g.rootNode) in Addresses(g) ==> !Reaches(g, Lower(g.rootNode), a))
  }

  function HeadIssueList(g: ProtocolGraph): seq<Issue> {
    (if g.rootNode !in Addresses(g) then [Issue(MissingRoot, Some(g.rootNode))] else [])
      + (if |Addresses(g)| != |g.nodes| then [Issue(DuplicateNodes, None)] else [])
  }

  /** The issues of the edges, edge by edge. */
  function EdgeIssueList(g: ProtocolGraph, edges: seq<ProtocolEdge>): seq<Issue> {
    if edges == [] then [] else EdgeIssueList(g, edges[..|edges| - 1]) + EdgeIssues(g, edges[|edges| - 1])
  }

  lemma EdgeIssuesAppend(g: ProtocolGraph, i: nat)
    requires i < |g.edges|
    ensures g.edges[..i + 1] == g.edges[..i] + [g.edges[i]]
    ensures EdgeIssueList(g, g.edges[..i + 1]) == EdgeIssueList(g, g.edges[..i]) + EdgeIssues(g, g.edges[i])
  {
    assert g.edges[..i + 1][..i] == g.edges[..i];
  }

  function LateIssueList(disconnected: bool, cycles: bool, orphans: bool): seq<Issue> {
    (if disconnected then [Issue(DisconnectedNodes, None)] else [])
      + (if cycles then [Issue(CyclesDetected, None)] else [])
      + (if orphans then [Issue(OrphanNodes, None)] else [])
  }

  // ---- what the issues name, and in which order ----

  /** What one edge gives rise to: its missing ends, source first, and its being a loop. */
  lemma EdgeIssueCases(g: ProtocolGraph, e: ProtocolEdge)
    ensures e.source !in Addresses(g) && e.target !in Addresses(g) && e.source != e.target ==>
              EdgeIssues(g, e) == [Issue(InvalidEdge, Some(e.source)), Issue(InvalidEdge, Some(e.target))]
    ensures e.source !in Addresses(g) && e.target in Addresses(g) ==>
              EdgeIssues(g, e) == [Issue(InvalidEdge, Some(e.source))]
    ensures e.source in Addresses(g) && e.target !in Addresses(g) ==>
              EdgeIssues(g, e) == [Issue(InvalidEdge, Some(e.target))]
    ensures e.source in Addresses(g) && e.source == e.target ==> EdgeIssues(g, e) == [Issue(SelfLoop, Some(e.source))]
    ensures e.source !in Addresses(g) && e.source == e.target ==>
              EdgeIssues(g, e) == [Issue(InvalidEdge, Some(e.source)), Issue(InvalidEdge, Some(e.source)),
                                   Issue(SelfLoop, Some(e.source))]
    ensures e.source in Addresses(g) && e.target in Addresses(g) && e.source != e.target ==> EdgeIssues(g, e) == []
  {
    hide Addresses;
  }

  /** Some edge ends at the address, and no node has it. */
  ghost predicate Dangles(g: ProtocolGraph, edges: seq<ProtocolEdge>, a: string) {
    a !in Addresses(g) && exists e :: e in edges && (e.source == a || e.target == a)
  }

  ghost predicate Loops(edges: seq<ProtocolEdge>, a: string) {
    exists e :: e in edges && e.source == a == e.target
  }

  /** The issues of the edges name exactly the missing ends and the looping addresses. */
  ghost predicate NamesEdges(g: ProtocolGraph, edges: seq<ProtocolEdge>, issues: seq<Issue>) {
    && (forall a :: Issue(InvalidEdge, Some(a)) in issues <==> Dangles(g, edges, a))
    && (forall a :: Issue(SelfLoop, Some(a)) in issues <==> Loops(edges, a))
    && forall x | x in issues && (x.code == InvalidEdge || x.code == SelfLoop) :: x.address.Some?
  }

  lemma {:induction false} EdgeIssuesName(g: ProtocolGraph, edges: seq<ProtocolEdge>)
    ensures NamesEdges(g, edges, EdgeIssueList(g, edges))
    ensures forall x | x in EdgeIssueList(g, edges) :: x.code == InvalidEdge || x.code == SelfLoop
  {
    hide Addresses, NamesEdges, EdgeIssues;
    if edges == [] {
      NothingNamed(g);
    } else {
      var n := |edges| - 1;
      EdgeIssuesName(g, edges[..n]);
      assert edges == edges[..n] + [edges[n]];
      OneEdgeNames(g, edges[n]);
      NamesOneMore(g, edges[..n], EdgeIssueList(g, edges[..n]), edges[n]);
    }
  }

  lemma NothingNamed(g: ProtocolGraph)
    ensures NamesEdges(g, [], [])
  {
  }

  lemma NamesOneMore(g: ProtocolGraph, edges: seq<ProtocolEdge>, issues: seq<Issue>, e: ProtocolEdge)
    requires NamesEdges(g, edges, issues)
    ensures NamesEdges(g, edges + [e], issues + EdgeIssues(g, e))
  {
    OneEdgeNames(g, e);
    hide EdgeIssues, Addresses;
    assert forall f :: f in edges + [e] <==> f in edges || f == e;
    forall a
      ensures Dangles(g, edges + [e], a) <==>
              Dangles(g, edges, a) || (a !in Addresses(g) && (e.source == a || e.target == a))
      ensures Loops(edges + [e], a) <==> Loops(edges, a) || e.source == a == e.target
    {
      assert e in edges + [e];
    }
    hide Dangles, Loops;
    assert forall x :: x in issues + EdgeIssues(g, e) <==> x in issues || x in EdgeIssues(g, e);
  }

  lemma OneEdgeNames(g: ProtocolGraph, e: ProtocolEdge)
    ensures forall a :: Issue(InvalidEdge, Some(a)) in EdgeIssues(g, e) <==>
              a !in Addresses(g) && (e.source == a || e.target == a)
    ensures forall a :: Issue(SelfLoop, Some(a)) in EdgeIssues(g, e) <==> e.source == a == e.target
    ensures forall x | x in EdgeIssues(g, e) :: (x.code == InvalidEdge || x.code == SelfLoop) && x.address.Some?
  {
    hide Addresses;
  }

  /** The steps of the validation that report each code. */
  function Stage(c: IssueCode): nat {
    match c
    case MissingRoot => 0
    case DuplicateNodes => 1
    case InvalidEdge => 2
    case SelfLoop => 2
    case DisconnectedNodes => 3
    case CyclesDetected => 4
    case OrphanNodes => 5
  }

  /** Step after step, and at most one issue in each but the one that goes through the edges. */
  ghost predicate InStages(issues: seq<Issue>) {
    forall i, j | 0 <= i < j < |issues| ::
      Stage(issues[i].code) < Stage(issues[j].code) || Stage(issues[i].code) == Stage(issues[j].code) == 2
  }

  /** The root is named where it is missing, and the other issues name nothing. */
  ghost predicate NamesRest(g: ProtocolGraph, issues: seq<Issue>) {
    forall x | x in issues && x.code != InvalidEdge && x.code != SelfLoop ::
      x.address == if x.code == MissingRoot then Some(g.rootNode) else None
  }

  lemma IssuesName(g: ProtocolGraph, x: bool, y: bool, z: bool)
    ensures var issues := HeadIssueList(g) + EdgeIssueList(g, g.edges) + LateIssueList(x, y, z);
            NamesEdges(g, g.edges, issues) && NamesRest(g, issues) && InStages(issues)
  {
    EdgeIssuesName(g, g.edges);
    HeadInStages(g);
    LateInStages(g, x, y, z);
    hide HeadIssueList, LateIssueList, EdgeIssueList, Dangles, Loops, Addresses;
    var head, edges, late := HeadIssueList(g), EdgeIssueList(g, g.edges), LateIssueList(x, y, z);
    assert forall v :: v in head + edges + late <==> v in head || v in edges || v in late;
    JoinStages(head, edges, late);
  }

  /** One more issue, of a later step. */
  lemma LaterStage(issues: seq<Issue>, more: seq<Issue>, x: Issue)
    requires InStages(issues) && (more == [] || more == [x])
    requires forall v | v in issues :: Stage(v.code) < Stage(x.code)
    ensures InStages(issues + more)
    ensures forall v | v in issues + more :: v in issues || v == x
  {
    hide Stage;
    forall i | 0 <= i < |issues| ensures issues[i] in issues {}
  }

  lemma HeadInStages(g: ProtocolGraph)
    ensures InStages(HeadIssueList(g)) && NamesRest(g, HeadIssueList(g))
    ensures forall v | v in HeadIssueList(g) :: Stage(v.code) < 2
  {
    hide Addresses, InStages;
    var m, n := Issue(MissingRoot, Some(g.rootNode)), Issue(DuplicateNodes, None);
    assert InStages([]) by { NoStages(); }
    var first: seq<Issue> := if g.rootNode !in Addresses(g) then [m] else [];
    LaterStage([], first, m);
    assert [] + first == first;
    LaterStage(first, if |Addresses(g)| != |g.nodes| then [n] else [], n);
  }

  lemma LateInStages(g: ProtocolGraph, x: bool, y: bool, z: bool)
    ensures InStages(LateIssueList(x, y, z)) && NamesRest(g, LateIssueList(x, y, z))
    ensures forall v | v in LateIssueList(x, y, z) :: Stage(v.code) > 2
  {
    hide InStages;
    var p, q, r := Issue(DisconnectedNodes, None), Issue(CyclesDetected, None), Issue(OrphanNodes, None);
    assert InStages([]) by { NoStages(); }
    var first: seq<Issue> := if x then [p] else [];
    LaterStage([], first, p);
    assert [] + first == first;
    LaterStage(first, if y then [q] else [], q);
    LaterStage(first + (if y then [q] else []), if z then [r] else [], r);
  }

  lemma NoStages()
    ensures InStages([])
  {
  }

  lemma JoinStages(head: seq<Issue>, edges: seq<Issue>, late: seq<Issue>)
    requires InStages(head) && InStages(late)
    requires forall v | v in head :: Stage(v.code) < 2
    requires forall v | v in edges :: Stage(v.code) == 2
    requires forall v | v in late :: Stage(v.code) > 2
    ensures InStages(head + edges + late)
  {
    hide Stage;
    var all := head + edges + late;
    forall i | 0 <= i < |all|
      ensures i < |head| ==> all[i] == head[i] && all[i] in head
      ensures |head| <= i < |head| + |edges| ==> all[i] in edges
      ensures |head| + |edges| <= i ==> all[i] == late[i - |head| - |edges|] && all[i] in late
    {
    }
  }

  /** What the loop over the edges has established. */
  ghost predicate StructuralSoFar(g: ProtocolGraph, i: nat, issues: seq<Issue>)
    requires i <= |g.edges|
  {
    && issues == HeadIssueList(g) + EdgeIssueList(g, g.edges[..i])
    && FatalWhen(g, g.edges[..i], issues)
    && forall c | !Fatal(c) :: !Reported(issues, c)
  }

  lemma StructuralStart(g: ProtocolGraph)
    ensures StructuralSoFar(g, 0, HeadIssueList(g))
  {
    hide Reported, FatalWhen, Addresses, AddressList, Distinct;
    HeadIssues(g, HeadIssueList(g));
    assert HeadIssueList(g) + [] == HeadIssueList(g);
  }

  lemma StructuralStep(g: ProtocolGraph, i: nat, issues: seq<Issue>)
    requires i < |g.edges| && StructuralSoFar(g, i, issues)
    ensures StructuralSoFar(g, i + 1, issues + EdgeIssues(g, g.edges[i]))
  {
    hide Reported, FatalWhen, Addresses, AddressList, Distinct, EdgeIssues, HeadIssueList, EdgeIssueList;
    FatalStep(g, g.edges[..i], issues, g.edges[i]);
    EdgeIssuesAppend(g, i);
    JoinIssues(HeadIssueList(g), EdgeIssueList(g, g.edges[..i]), EdgeIssues(g, g.edges[i]));
  }

  lemma JoinIssues(a: seq<Issue>, b: seq<Issue>, c: seq<Issue>)
    ensures a + b + c == a + (b + c)
  {
  }

  lemma StructuralEnd(g: ProtocolGraph, issues: seq<Issue>)
    requires StructuralSoFar(g, |g.edges|, issues)
    ensures issues == HeadIssueList(g) + EdgeIssueList(g, g.edges) && FatalWhen(g, g.edges, issues)
    ensures forall c | !Fatal(c) :: !Reported(issues, c)
  {
    hide Reported, FatalWhen, EdgeIssueList, HeadIssueList;
    assert g.edges[..|g.edges|] == g.edges;
  }

  /** The part of `validate` before the traversal. */
  method StructuralIssues(g: ProtocolGraph) returns (issues: seq<Issue>)
    ensures issues == HeadIssueList(g) + EdgeIssueList(g, g.edges)
    ensures FatalWhen(g, g.edges, issues)
    ensures forall c | !Fatal(c) :: !Reported(issues, c)
  {
    hide StructuralSoFar, FatalWhen, Addresses, AddressList, Reported, EdgeIssues, EdgeIssueList;
    issues := [];
    if g.rootNode !in Addresses(g) {
      issues := issues + [Issue(MissingRoot, Some(g.rootNode))];
    }
    if |Addresses(g)| != |g.nodes| {
      issues := issues + [Issue(DuplicateNodes, None)];
    }
    assert issues == HeadIssueList(g);
    hide HeadIssueList;
    StructuralStart(g);
    for i := 0 to |g.edges|
      invariant StructuralSoFar(g, i, issues)
    {
      StructuralStep(g, i, issues);
      issues := issues + EdgeIssues(g, g.edges[i]);
    }
    StructuralEnd(g, issues);
  }

  /** What a report says of a graph. */
  ghost predicate Describes(g: ProtocolGraph, r: Report) {
    && FatalWhen(g, g.edges, r.issues) && NamesEdges(g, g.edges, r.issues) && NamesRest(g, r.issues)
    && InStages(r.issues)
    && (forall a :: a in r.disconnected <==> Disconnected(g, a))
    && (forall a | a in r.disconnected :: multiset(r.disconnected)[a] == multiset(AddressList(g.nodes))[a])
    && (forall a :: a in r.orphans <==>
          |g.nodes| > 1 && a in Addresses(g) && a !in Endpoints(g.edges) && a != g.rootNode)
    && (forall a | a in r.orphans :: multiset(r.orphans)[a] == multiset(AddressList(g.nodes))[a])
    && (forall c :: c in r.cycles <==> FirstCycle(g, c))
    && Increasing(r.disconnected, StringLess) && Increasing(r.orphans, StringLess) && Increasing(r.cycles, TupleLess)
    && (Consistent(g) ==> OncePerEdge(r.cycles))
    && (Reported(r.issues, DisconnectedNodes) <==> r.disconnected != [])
    && (Reported(r.issues, CyclesDetected) <==> r.cycles != [])
    && (Reported(r.issues, OrphanNodes) <==> r.orphans != [])
  }

  lemma Described(g: ProtocolGraph, r: Report)
    requires FatalWhen(g, g.edges, r.issues) && NamesEdges(g, g.edges, r.issues) && NamesRest(g, r.issues)
    requires InStages(r.issues)
    requires forall a :: a in r.disconnected <==> Disconnected(g, a)
    requires forall a | a in r.disconnected :: multiset(r.disconnected)[a] == multiset(AddressList(g.nodes))[a]
    requires forall a :: a in r.orphans <==>
        |g.nodes| > 1 && a in Addresses(g) && a !in Endpoints(g.edges) && a != g.rootNode
    requires forall a | a in r.orphans :: multiset(r.orphans)[a] == multiset(AddressList(g.nodes))[a]
    requires forall c :: c in r.cycles <==> FirstCycle(g, c)
    requires Increasing(r.disconnected, StringLess) && Increasing(r.orphans, StringLess)
        && Increasing(r.cycles, TupleLess)
    requires Consistent(g) ==> OncePerEdge(r.cycles)
    requires Reported(r.issues, DisconnectedNodes) <==> r.disconnected != []
    requires Reported(r.issues, CyclesDetected) <==> r.cycles != []
    requires Reported(r.issues, OrphanNodes) <==> r.orphans != []
    ensures Describes(g, r)
  {
    hide FatalWhen, NamesEdges, NamesRest, InStages, Disconnected, Addresses, Endpoints, FirstCycle, Increasing,
      Consistent, OncePerEdge, Reported, AddressList, StringLess, TupleLess;
  }

  /** `validate`: each code is reported exactly in its case, and only the first four codes
      decide validity. */
  method Validate(g: ProtocolGraph) returns (r: Report)
    ensures Describes(g, r)
    ensures r.issues == HeadIssueList(g) + EdgeIssueList(g, g.edges)
                        + LateIssueList(r.disconnected != [], r.cycles != [], r.orphans != [])
    ensures FatalWhen(g, g.edges, r.issues)
    ensures r.isValid <==> g.rootNode in Addresses(g) && Distinct(AddressList(g.nodes))
                           && !HasInvalidEdge(g, g.edges) && !HasSelfLoop(g.edges)
    ensures forall a :: a in r.disconnected <==> Disconnected(g, a)
    ensures forall a :: a in r.orphans <==>
        |g.nodes| > 1 && a in Addresses(g) && a !in Endpoints(g.edges) && a != g.rootNode
    ensures forall a | a in r.disconnected :: multiset(r.disconnected)[a] == multiset(AddressList(g.nodes))[a]
    ensures forall a | a in r.orphans :: multiset(r.orphans)[a] == multiset(AddressList(g.nodes))[a]
    ensures forall c :: c in r.cycles <==> FirstCycle(g, c)
    ensures forall c | c in r.cycles :: SimpleCycle(g, c)
    ensures forall p | ClosedWalk(g, p) && Rooted(g, p[0]) :: MeetsReport(r.cycles, p)
    ensures r.cycles == [] <==> !CycleWithinReach(g)
    ensures Increasing(r.disconnected, StringLess) && Increasing(r.orphans, StringLess)
        && Increasing(r.cycles, TupleLess)
    ensures Reported(r.issues, DisconnectedNodes) <==> r.disconnected != []
    ensures Reported(r.issues, CyclesDetected) <==> r.cycles != []
    ensures Reported(r.issues, OrphanNodes) <==> r.orphans != []
  {
    hide FatalWhen, Addresses, AddressList, Distinct, Disconnected, Endpoints, HasInvalidEdge, HasSelfLoop,
      SimpleCycle, FirstCycle, CycleWithinReach, Cyclic, Reported, Increasing, TupleLess, StringLess, ClosedWalk,
      Rooted, MeetsReport, NamesEdges, NamesRest, InStages, Consistent, OncePerEdge, HeadIssueList, EdgeIssueList,
      LateIssueList, NoneFatal, SetOf, Lower, Unreached, Describes;
    var issues := StructuralIssues(g);
    var unreached := DisconnectedFromRoot(g);
    var disconnected := SortedStrings(unreached);
    UnreachedAre(g, unreached, disconnected);
    var cycles := FindCycles(g);
    var listed := FindOrphanNodes(g);
    var orphans := SortedStrings(listed);
    SameMembers(orphans, listed);
    var late := LateIssueList(disconnected != [], cycles != [], orphans != []);
    LateIssues(g, issues, disconnected != [], cycles != [], orphans != []);
    issues := issues + late;
    FatalIssues(g, issues);
    var isValid := NoneFatal(issues);
    IssuesName(g, disconnected != [], cycles != [], orphans != []);
    r := Report(isValid, issues, disconnected, orphans, cycles);
    Described(g, r);
  }

  lemma HeadIssues(g: ProtocolGraph, issues: seq<Issue>)
    requires issues == (if g.rootNode !in Addresses(g) then [Issue(MissingRoot, Some(g.rootNode))] else [])
                       + (if |Addresses(g)| != |g.nodes| then [Issue(DuplicateNodes, None)] else [])
    ensures FatalWhen(g, g.edges[..0], issues)
    ensures forall c | !Fatal(c) :: !Reported(issues, c)
  {
    var list := AddressList(g.nodes);
    if Distinct(list) {
      DistinctCardinality(list);
    } else {
      RepeatShrinks(list);
    }
    if g.rootNode !in Addresses(g) { assert issues[0].code == MissingRoot; }
    if |Addresses(g)| != |g.nodes| { assert issues[|issues| - 1].code == DuplicateNodes; }
  }

  lemma RepeatShrinks<T(!new)>(s: seq<T>)
    requires !Distinct(s)
    ensures |SetOf(s)| < |s|
  {
    var i, j :| 0 <= i < j < |s| && s[i] == s[j];
    var t := s[..i] + s[i + 1..];
    assert s == s[..i] + [s[i]] + s[i + 1..];
    assert s[j] == t[j - 1];
    assert SetOf(s) == SetOf(t);
    AtMostLength(t);
  }

  lemma UnreachedAre(g: ProtocolGraph, unreached: seq<string>, disconnected: seq<string>)
    requires Lower(g.rootNode) !in Addresses(g) ==> unreached == AddressList(g.nodes)
    requires Lower(g.rootNode) in Addresses(g) ==> unreached == Unreached(g, Lower(g.rootNode), AddressList(g.nodes))
    requires SetOf(disconnected) == SetOf(unreached) && multiset(disconnected) == multiset(unreached)
    ensures forall a :: a in disconnected <==> Disconnected(g, a)
    ensures forall a | a in disconnected :: multiset(disconnected)[a] == multiset(AddressList(g.nodes))[a]
  {
    UnreachedMembers(g, Lower(g.rootNode), AddressList(g.nodes));
    SameMembers(disconnected, unreached);
    forall a ensures a in Addresses(g) <==> a in AddressList(g.nodes) { AddressMember(g, a); }
    hide Reaches, Addresses, AddressList, Lower;
  }

  lemma LateIssues(g: ProtocolGraph, issues: seq<Issue>, x: bool, y: bool, z: bool)
    requires FatalWhen(g, g.edges, issues) && forall c | !Fatal(c) :: !Reported(issues, c)
    ensures var late := LateIssueList(x, y, z);
            && FatalWhen(g, g.edges, issues + late)
            && (Reported(issues + late, DisconnectedNodes) <==> x)
            && (Reported(issues + late, CyclesDetected) <==> y)
            && (Reported(issues + late, OrphanNodes) <==> z)
  {
    hide Reported, HasInvalidEdge, HasSelfLoop, Addresses, Distinct;
    var a: seq<Issue> := if x then [Issue(DisconnectedNodes, None)] else [];
    var b: seq<Issue> := if y then [Issue(CyclesDetected, None)] else [];
    var c: seq<Issue> := if z then [Issue(OrphanNodes, None)] else [];
    ReportedAppend(issues, a + b + c);
    ReportedAppend(a + b, c);
    ReportedAppend(a, b);
    ReportedOne(Issue(DisconnectedNodes, None));
    ReportedOne(Issue(CyclesDetected, None));
    ReportedOne(Issue(OrphanNodes, None));
    NoneReported();
  }

  lemma FatalIssues(g: ProtocolGraph, issues: seq<Issue>)
    requires FatalWhen(g, g.edges, issues)
    ensures NoneFatal(issues) <==>
            && g.rootNode in Addresses(g) && Distinct(AddressList(g.nodes))
            && !HasInvalidEdge(g, g.edges) && !HasSelfLoop(g.edges)
  {
    hide HasInvalidEdge, HasSelfLoop, Addresses, Distinct, AddressList;
    if i :| 0 <= i < |issues| && Fatal(issues[i].code) { assert Reported(issues, issues[i].code); }
  }

  /** The adjacency map holds exactly the pairs some edge joins. */
  ghost predicate AdjacencyMatchesEdges(g: ProtocolGraph) {
    forall u, v :: u in g.adjacency && v in g.adjacency[u] <==>
        exists e :: e in g.edges && e.source == u && e.target == v
  }

  /** Every orphan is disconnected, so the report lists it twice. */
  lemma OrphansAreDisconnected(g: ProtocolGraph, a: string)
    requires AdjacencyMatchesEdges(g) && IsLower(g.rootNode)
    requires a in Addresses(g) && a !in Endpoints(g.edges) && a != g.rootNode
    ensures Disconnected(g, a)
  {
    if p :| Lower(g.rootNode) in Addresses(g) && WalkBetween(g, p, Lower(g.rootNode), a) {
      if |p| > 1 { LastStepTouches(g, p, a); }
    }
  }

  lemma LastStepTouches(g: ProtocolGraph, p: seq<string>, a: string)
    requires AdjacencyMatchesEdges(g) && Walk(g, p) && |p| > 1 && p[|p| - 1] == a
    ensures a in Endpoints(g.edges)
  {
    var u := Lower(p[|p| - 2]);
    assert p[(|p| - 2) + 1] in Neighbors(g, p[|p| - 2]);
    assert u in g.adjacency && a in g.adjacency[u];
    var e :| e in g.edges && e.source == u && e.target == a;
  }
}
