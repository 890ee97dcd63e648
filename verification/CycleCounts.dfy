/** Which elementary cycles `find_cycles` lists, how many it can list when no edge closes two
    of them, and graphs on which it misses some. */
module CycleCounts {
  import opened Ordering
  import opened Text
  import opened ProtocolGraphs
  import opened FirstPaths
  import opened DepthFirst

  // ---- which cycles are listed ----

  /** The list has the cycle, written from one of its vertices. */
  ghost predicate Lists(r: seq<seq<string>>, c: seq<string>)
    requires |c| > 1
  {
    exists k :: 0 <= k < |c| - 1 && Rotate(c, k) in r
  }

  /** A cycle that a node leads to is listed exactly when the search passes over none of its
      edges. */
  lemma ListedExactlyWhenFollowed(g: ProtocolGraph, r: seq<seq<string>>, c: seq<string>)
    requires forall d :: d in r <==> FirstCycle(g, d)
    requires SimpleCycle(g, c) && Rooted(g, c[0])
    ensures Lists(r, c) <==> AllFollowed(g, c)
  {
    hide FirstCycle, AllFollowed, SimpleCycle, Rooted, Rotate;
    CycleIsLong(g, c);
    ClosedExactlyWhenFollowed(g, c);
  }

  ghost predicate ShareEdge(c: seq<string>, d: seq<string>) {
    exists i, j :: 0 <= i < |c| - 1 && 0 <= j < |d| - 1 && c[i] == d[j] && c[i + 1] == d[j + 1]
  }

  /** In particular where no cycle through other vertices has an edge of it. */
  lemma UndisturbedIsListed(g: ProtocolGraph, r: seq<seq<string>>, p: seq<string>) returns (c: seq<string>)
    requires forall d | d in r :: SimpleCycle(g, d)
    requires forall q | ClosedWalk(g, q) && Rooted(g, q[0]) :: MeetsReport(r, q)
    requires SimpleCycle(g, p) && Rooted(g, p[0])
    requires forall d | SimpleCycle(g, d) && ShareEdge(d, p) :: SetOf(d) == SetOf(p)
    ensures c in r && SetOf(c) == SetOf(p)
  {
    hide SimpleCycle, Rooted, SetOf, ShareEdge;
    assert ClosedWalk(g, p) by { CycleIsClosed(g, p); }
    hide ClosedWalk;
    var i :| 0 <= i < |p| - 1 && ClosesReport(r, p[i], p[i + 1]);
    c :| c in r && |c| > 1 && c[|c| - 2] == p[i] && c[|c| - 1] == p[i + 1];
    EdgeShared(c, |c| - 2, p, i);
  }

  lemma CycleIsClosed(g: ProtocolGraph, p: seq<string>)
    requires SimpleCycle(g, p)
    ensures ClosedWalk(g, p)
  {
  }

  lemma EdgeShared(c: seq<string>, i: nat, d: seq<string>, j: nat)
    requires i < |c| - 1 && j < |d| - 1 && c[i] == d[j] && c[i + 1] == d[j + 1]
    ensures ShareEdge(c, d)
  {
  }

  // ---- a cycle that is missed ----

  function Triangle(): ProtocolGraph {
    ProtocolGraph(
      [ProtocolNode("a", Token, "", map[]), ProtocolNode("b", Token, "", map[]), ProtocolNode("c", Token, "", map[])],
      [], "a", map["a" := ["b", "c"], "b" := ["c"], "c" := ["a"]])
  }

  lemma TriangleFacts()
    ensures AddressList(Triangle().nodes) == ["a", "b", "c"]
    ensures Neighbors(Triangle(), "a") == ["b", "c"] && Neighbors(Triangle(), "b") == ["c"]
    ensures Neighbors(Triangle(), "c") == ["a"]
  {
    assert AddressList(Triangle().nodes) == ["a", "b", "c"];
    assert Lower("a") == "a" && Lower("b") == "b" && Lower("c") == "c";
  }

  lemma TriangleStart()
    ensures FirstPath(Triangle(), ["a"])
  {
    TriangleFacts();
    hide Triangle, FirstPath, Neighbors;
    assert StringLess("a", "b") && StringLess("a", "c");
    LeastIsFirst(Triangle(), "a");
  }

  lemma TrianglePasses()
    ensures PassedOver(Triangle(), "a", "c")
  {
    TriangleFacts();
    TriangleStart();
    hide Triangle, FirstPath, Neighbors, PassedOver;
    var s := ["b", "c"];
    assert s[0] == "b" && s[..0 + 1] == ["b"] && "b"[0] != "c"[0];
    assert ComesBefore(s, "b", "c");
    Overtaken(Triangle(), ["a"], "b", "c");
  }

  lemma TriangleIsSortable()
    ensures Consistent(Triangle()) && LowerCase(Triangle())
  {
    TriangleFacts();
    hide AddressList;
    assert Addresses(Triangle()) == {"a", "b", "c"};
    assert Lower("a") == "a" && Lower("b") == "b" && Lower("c") == "c";
    hide Addresses;
    forall t | t in Targets(Triangle()) ensures t == "a" || t == "b" || t == "c" {}
  }

  /** From "a" it goes to "b", and comes to "c" from there: the edge from "a" to "c" is passed
      over, and the cycle along it and back is not listed from either vertex. */
  lemma TriangleMissesOne() returns (g: ProtocolGraph, c: seq<string>)
    ensures Consistent(g) && LowerCase(g)
    ensures SimpleCycle(g, c) && Rooted(g, c[0]) && !AllFollowed(g, c)
  {
    hide Triangle, PassedOver, Neighbors, Consistent, LowerCase, Rooted, Addresses;
    g, c := Triangle(), ["a", "c", "a"];
    TriangleIsSortable();
    TriangleFacts();
    TrianglePasses();
    assert c[..2] == ["a", "c"] && "a"[0] != "c"[0];
    assert PassedOver(g, c[0], c[0 + 1]);
    assert AddressList(g.nodes)[0] == "a";
    AddressesAre(g);
    RootedNode(g, "a");
  }

  // ---- how many can be listed ----

  ghost function EdgesFrom(g: ProtocolGraph, sources: set<string>): set<(string, string)> {
    set u, v | u in sources && u in g.adjacency && v in g.adjacency[u] :: (u, v)
  }

  ghost function Edges(g: ProtocolGraph): set<(string, string)> { EdgesFrom(g, g.adjacency.Keys) }

  function LastEdge(c: seq<string>): (string, string)
    requires |c| > 1
  {
    (c[|c| - 2], c[|c| - 1])
  }

  lemma LastEdgeIsEdge(g: ProtocolGraph, c: seq<string>)
    requires LowerCase(g) && SimpleCycle(g, c)
    ensures LastEdge(c) in Edges(g)
  {
    assert c[(|c| - 2) + 1] in Neighbors(g, c[|c| - 2]);
    assert c[0] in Targets(g);
    WalkIsChain(g, c);
    assert c[|c| - 2] in Dependencies(g, c[(|c| - 2) + 1]);
  }

  /** At most one report for each edge. */
  lemma AtMostOnePerEdge(g: ProtocolGraph, r: seq<seq<string>>)
    requires LowerCase(g) && OncePerEdge(r) && forall c | c in r :: SimpleCycle(g, c)
    ensures |r| <= |Edges(g)|
  {
    hide Edges, LowerCase, SimpleCycle;
    forall c | c in r ensures |c| > 1 && LastEdge(c) in Edges(g) {
      LongEnough(g, c);
      LastEdgeIsEdge(g, c);
    }
    var last := seq(|r|, i requires 0 <= i < |r| => LastEdge(r[i]));
    forall i, j | 0 <= i < j < |last| ensures last[i] != last[j] { assert !SameClosing(r[i], r[j]); }
    DistinctCardinality(last);
    SubsetCardinality(SetOf(last), Edges(g));
  }

  lemma LongEnough(g: ProtocolGraph, c: seq<string>)
    requires SimpleCycle(g, c)
    ensures |c| > 1
  {
  }

  // ---- counting ----

  lemma {:induction false} EdgesBound(g: ProtocolGraph, sources: set<string>, most: nat)
    requires forall u | u in sources && u in g.adjacency :: |g.adjacency[u]| <= most
    ensures |EdgesFrom(g, sources)| <= |sources| * most
    decreases |sources|
  {
    hide EdgesFrom;
    if sources == {} {
      NoEdges(g);
    } else {
      var u :| u in sources;
      var fewer := sources - {u};
      EdgesBound(g, fewer, most);
      SplitEdges(g, sources, u, most);
      assert |sources| == |fewer| + 1;
      assert (|fewer| + 1) * most == |fewer| * most + most;
    }
  }

  lemma NoEdges(g: ProtocolGraph)
    ensures EdgesFrom(g, {}) == {}
  {
  }

  lemma SplitEdges(g: ProtocolGraph, sources: set<string>, u: string, most: nat)
    requires u in g.adjacency ==> |g.adjacency[u]| <= most
    ensures |EdgesFrom(g, sources)| <= |EdgesFrom(g, sources - {u})| + most
  {
    var targets := if u in g.adjacency then g.adjacency[u] else [];
    var pairs := seq(|targets|, i requires 0 <= i < |targets| => (u, targets[i]));
    forall e | e in EdgesFrom(g, sources) && e.0 == u ensures e in SetOf(pairs) {
      var i :| 0 <= i < |targets| && targets[i] == e.1;
      assert pairs[i] == e;
    }
    assert EdgesFrom(g, sources) <= EdgesFrom(g, sources - {u}) + SetOf(pairs);
    hide EdgesFrom, SetOf;
    AtMostLength(pairs);
    SubsetCardinality(EdgesFrom(g, sources), EdgesFrom(g, sources - {u}) + SetOf(pairs));
  }

  /** The subsets of a set. */
  ghost function Subsets(s: set<string>): set<set<string>> { set t | t <= s }

  function Power2(n: nat): nat { if n == 0 then 1 else 2 * Power2(n - 1) }

  lemma {:induction false} SubsetsCount(s: set<string>)
    ensures |Subsets(s)| == Power2(|s|)
    decreases |s|
  {
    hide Subsets;
    if s == {} {
      SubsetsOfNothing();
    } else {
      var x :| x in s;
      SubsetsCount(s - {x});
      SubsetsSplit(s, x);
    }
  }

  lemma SubsetsOfNothing()
    ensures Subsets({}) == {{}}
  {
    forall t | t in Subsets({}) ensures t == {} {}
  }

  ghost function AllWith(all: set<set<string>>, x: string): set<set<string>> { set t | t in all :: t + {x} }

  lemma SubsetsParts(s: set<string>, x: string)
    requires x in s
    ensures Subsets(s) == Subsets(s - {x}) + AllWith(Subsets(s - {x}), x)
    ensures Subsets(s - {x}) !! AllWith(Subsets(s - {x}), x)
    ensures forall t | t in Subsets(s - {x}) :: x !in t
  {
    var without := Subsets(s - {x});
    forall t | t <= s ensures t in without || t in AllWith(without, x) {
      if x in t { assert t == (t - {x}) + {x} && t - {x} in without; }
    }
  }

  lemma SubsetsSplit(s: set<string>, x: string)
    requires x in s
    ensures |Subsets(s)| == 2 * |Subsets(s - {x})|
  {
    hide Subsets, AllWith;
    SubsetsParts(s, x);
    AllWithCount(Subsets(s - {x}), x);
  }

  lemma {:induction false} AllWithCount(all: set<set<string>>, x: string)
    requires forall t | t in all :: x !in t
    ensures |AllWith(all, x)| == |all|
    decreases |all|
  {
    hide AllWith;
    if all == {} {
      NothingWith(x);
    } else {
      var t :| t in all;
      AllWithCount(all - {t}, x);
      OneMoreWith(all, t, x);
    }
  }

  lemma NothingWith(x: string)
    ensures AllWith({}, x) == {}
  {
  }

  lemma OneMoreWith(all: set<set<string>>, t: set<string>, x: string)
    requires t in all && forall u | u in all :: x !in u
    ensures AllWith(all, x) == AllWith(all - {t}, x) + {t + {x}}
    ensures t + {x} !in AllWith(all - {t}, x)
  {
    forall u | u in all - {t} ensures u + {x} != t + {x} { assert u == (u + {x}) - {x} && t == (t + {x}) - {x}; }
  }

  /** The subsets with at least two members. */
  ghost function Groups(s: set<string>): set<set<string>> { set t | t in Subsets(s) && |t| >= 2 }

  lemma GroupsCount(s: set<string>)
    ensures |Groups(s)| >= Power2(|s|) - |s| - 1
  {
    SubsetsCount(s);
    var single := set x | x in s :: {x};
    SinglesCount(s, single);
    forall t | t in Subsets(s) && |t| < 2 ensures t in single + {{}} {
      if t != {} {
        var x :| x in t;
        SubsetCardinality({x}, t);
        assert t == {x};
      }
    }
    assert Subsets(s) <= Groups(s) + (single + {{}});
    hide Subsets, Groups, Power2;
    SubsetCardinality(Subsets(s), Groups(s) + (single + {{}}));
  }

  lemma {:induction false} SinglesCount(s: set<string>, single: set<set<string>>)
    requires single == set x | x in s :: {x}
    ensures |single| <= |s|
    decreases |s|
  {
    if s != {} {
      var x :| x in s;
      var fewer := set y | y in s - {x} :: {y};
      SinglesCount(s - {x}, fewer);
      assert single == fewer + {{x}};
    }
  }

  // ---- a graph with more cycles than edges ----

  /** Everyone depends on everyone else. */
  function Complete(nodes: seq<ProtocolNode>): ProtocolGraph {
    var all := SetOf(AddressList(nodes));
    ProtocolGraph(nodes, [], "", map a | a in all :: SortedSet(all - {a}))
  }

  lemma NeighborsOfComplete(nodes: seq<ProtocolNode>, a: string, b: string)
    requires SetOf(AddressList(nodes)) >= {a, b} && IsLower(a) && a != b
    ensures b in Neighbors(Complete(nodes), a)
  {
    NotInSetOf(Neighbors(Complete(nodes), a), b);
    hide Increasing, Distinct;
  }

  /** A listing of at least two nodes, closed up, is a cycle. */
  lemma ListingIsCycle(nodes: seq<ProtocolNode>, p: seq<string>)
    requires forall a | a in SetOf(AddressList(nodes)) :: IsLower(a)
    requires Distinct(p) && SetOf(p) <= SetOf(AddressList(nodes)) && |p| >= 2
    ensures SimpleCycle(Complete(nodes), p + [p[0]])
  {
    hide SetOf, IsLower, Complete, Neighbors, AddressList;
    var c := p + [p[0]];
    assert c[..|c| - 1] == p;
    forall i | 0 <= i < |c| - 1 ensures c[i + 1] in Neighbors(Complete(nodes), c[i]) {
      var j := if i + 1 < |p| then i + 1 else 0;
      IndexedIn(p, i);
      IndexedIn(p, j);
      NeighborsOfComplete(nodes, p[i], p[j]);
    }
  }

  lemma ClosingUpKeepsMembers(p: seq<string>)
    requires p != []
    ensures SetOf(p + [p[0]]) == SetOf(p)
  {
  }

  /** Any two or more of the nodes lie on a common cycle that visits no other. */
  lemma GroupHasCycle(nodes: seq<ProtocolNode>, group: set<string>) returns (c: seq<string>)
    requires forall a | a in SetOf(AddressList(nodes)) :: IsLower(a)
    requires group in Groups(SetOf(AddressList(nodes)))
    ensures SimpleCycle(Complete(nodes), c) && SetOf(c) == group
  {
    hide SetOf, IsLower, Complete, SimpleCycle, Increasing, Distinct, AddressList;
    var p := SortedSet(group);
    ListingIsCycle(nodes, p);
    ClosingUpKeepsMembers(p);
    c := p + [p[0]];
  }

  /** No enumeration with at most one report for each edge lists a cycle through each group of
      nodes, once there are five nodes: there are more groups than edges. */
  lemma SomeCycleIsNotListed(nodes: seq<ProtocolNode>, r: seq<seq<string>>) returns (c: seq<string>)
    requires |SetOf(AddressList(nodes))| == 5 && forall a | a in SetOf(AddressList(nodes)) :: IsLower(a)
    requires OncePerEdge(r) && forall d | d in r :: SimpleCycle(Complete(nodes), d)
    ensures SimpleCycle(Complete(nodes), c) && forall d | d in r :: SetOf(d) != SetOf(c)
  {
    hide OncePerEdge, SimpleCycle, SetOf, IsLower, Complete, LowerCase, Groups, Edges, AddressList;
    var g, all := Complete(nodes), SetOf(AddressList(nodes));
    CompleteIsLower(nodes);
    AtMostOnePerEdge(g, r);
    CompleteEdges(nodes);
    GroupsCount(all);
    assert Power2(5) == 32;
    var listed := seq(|r|, i requires 0 <= i < |r| => SetOf(r[i]));
    AtMostLength(listed);
    if Groups(all) <= SetOf(listed) { SubsetCardinality(Groups(all), SetOf(listed)); }
    var group := Outsider(Groups(all), SetOf(listed));
    c := GroupHasCycle(nodes, group);
    forall d | d in r ensures SetOf(d) != group {
      var i :| 0 <= i < |r| && r[i] == d;
      IndexedIn(listed, i);
    }
  }

  /** There is such a graph, and on it `FindCycles` makes at most one report for each edge. */
  lemma FiveNodes() returns (nodes: seq<ProtocolNode>)
    ensures |SetOf(AddressList(nodes))| == 5 && forall a | a in SetOf(AddressList(nodes)) :: IsLower(a)
    ensures Consistent(Complete(nodes))
  {
    var names := ["a", "b", "c", "d", "e"];
    nodes := seq(5, i requires 0 <= i < 5 => ProtocolNode(names[i], Token, "", map[]));
    assert AddressList(nodes) == names;
    forall i | 0 <= i < 5 ensures IsLower(names[i]) && names[i][0] == "abcde"[i] {
      assert Lower(names[i])[0] == names[i][0];
    }
    forall i, j | 0 <= i < j < 5 ensures names[i] != names[j] { assert names[i][0] != names[j][0]; }
    DistinctCardinality(names);
    CompleteIsConsistent(nodes);
  }

  lemma CompleteIsConsistent(nodes: seq<ProtocolNode>)
    requires Distinct(AddressList(nodes))
    ensures Consistent(Complete(nodes))
  {
    hide Distinct, Increasing;
    AddressesAre(Complete(nodes));
  }

  lemma CompleteIsLower(nodes: seq<ProtocolNode>)
    requires forall a | a in SetOf(AddressList(nodes)) :: IsLower(a)
    ensures LowerCase(Complete(nodes))
  {
    var g, all := Complete(nodes), SetOf(AddressList(nodes));
    forall t | t in Targets(g) ensures t in all {
      var k :| k in g.adjacency && t in g.adjacency[k];
      NotInSetOf(g.adjacency[k], t);
    }
  }

  lemma CompleteEdges(nodes: seq<ProtocolNode>)
    requires |SetOf(AddressList(nodes))| == 5
    ensures |Edges(Complete(nodes))| <= 20
  {
    hide SetOf, AddressList, Increasing, Distinct, EdgesFrom;
    var g, all := Complete(nodes), SetOf(AddressList(nodes));
    assert g.adjacency.Keys == all;
    forall u | u in all ensures |g.adjacency[u]| <= 4 { FourOthers(all, u); }
    hide Complete;
    EdgesBound(g, all, 4);
  }

  lemma FourOthers(all: set<string>, u: string)
    requires |all| == 5 && u in all
    ensures |all - {u}| == 4 == |SortedSet(all - {u})|
  {
    hide Increasing, Distinct, SetOf;
  }
}
