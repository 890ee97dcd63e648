/** The two recursive searches: the depth-first listing, and cycle enumeration with its
    explicit path and stack. The closures' captured variables are the fields here. */
module DepthFirst {
  import opened Ordering
  import opened Text
  import opened ProtocolGraphs
  import opened Exploration
  import opened FirstPaths
  import opened Traversal

  // ---- dfs ----

  /** The vertices listed from position `from` on were reached from the node and have all
      their neighbours listed, and those after it follow the depth-first order. */
  ghost predicate ListedFrom(g: ProtocolGraph, node: string, listed: seq<string>, from: nat, settled: nat) {
    && Distinct(listed)
    && (forall k | from <= k < |listed| :: Reaches(g, node, listed[k]))
    && (forall k | settled <= k < |listed| :: Settled(g, listed, k, |listed|))
    && (forall i | from < i < |listed| :: TakenNext(g, listed, true, i))
  }

  /** What a call of `_walk` adds to the listing. */
  ghost predicate Walked(g: ProtocolGraph, node: string, before: seq<string>, after: seq<string>) {
    && before <= after && node in after
    && (node !in before ==> |before| < |after| && after[|before|] == node)
    && (node in before ==> after == before)
    && ListedFrom(g, node, after, |before|, |before|)
  }

  /** What it has added when the first `n` neighbours have been walked. */
  ghost predicate Walking(g: ProtocolGraph, node: string, before: seq<string>, now: seq<string>, n: nat) {
    && |before| < |now| && before <= now && now[|before|] == node && node !in before
    && n <= |Neighbors(g, node)|
    && (forall m | 0 <= m < n :: Neighbors(g, node)[m] in now)
    && ListedFrom(g, node, now, |before|, |before| + 1)
  }

  class DepthFirstWalk {
    const graph: ProtocolGraph
    var seen: set<string>
    var visited: seq<string>

    constructor (g: ProtocolGraph)
      ensures graph == g && seen == {} && visited == []
    {
      graph := g;
      seen := {};
      visited := [];
    }

    /** `_walk`. */
    method Walk(node: string, ghost universe: set<string>)
      requires node in universe && Targets(graph) <= universe
      requires Distinct(visited) && SetOf(visited) == seen
      modifies this
      ensures Distinct(visited) && SetOf(visited) == seen && old(seen) <= seen
      ensures Walked(graph, node, old(visited), visited)
      decreases universe - seen
    {
      hide Distinct, SetOf, Targets, Neighbors, Walked, Walking;
      NotInSetOf(visited, node);
      if node in seen {
        WalkedAlready(graph, node, visited);
        return;
      }
      WalkingStart(graph, node, visited);
      DistinctAppend(visited, node);
      seen := seen + {node};
      visited := visited + [node];
      var neighbors := Neighbors(graph, node);
      for i := 0 to |neighbors|
        invariant Distinct(visited) && SetOf(visited) == seen
        invariant old(seen) + {node} <= seen
        invariant Walking(graph, node, old(visited), visited, i)
      {
        NeighborIsTarget(graph, node, neighbors[i]);
        ghost var before := visited;
        Walk(neighbors[i], universe);
        WalkingStep(graph, node, old(visited), before, i, visited);
      }
      WalkingDone(graph, node, old(visited), visited);
    }
  }

  lemma WalkedAlready(g: ProtocolGraph, node: string, listed: seq<string>)
    requires Distinct(listed) && node in listed
    ensures Walked(g, node, listed, listed)
  {
  }

  lemma WalkingStart(g: ProtocolGraph, node: string, before: seq<string>)
    requires Distinct(before) && node !in before
    ensures Walking(g, node, before, before + [node], 0)
  {
    DistinctAppend(before, node);
    ReachesItself(g, node);
  }

  lemma SettledStays(g: ProtocolGraph, listed: seq<string>, more: seq<string>, k: nat)
    requires k < |listed| && listed <= more && Settled(g, listed, k, |listed|)
    ensures Settled(g, more, k, |more|)
  {
    forall w | w in Neighbors(g, more[k]) ensures w in more { assert w in more[..|listed|]; }
  }

  /** The neighbour walked next, when it is not listed yet, is taken from `node`. */
  lemma WalkingNext(g: ProtocolGraph, node: string, before: seq<string>, now: seq<string>, n: nat, after: seq<string>)
    requires Walking(g, node, before, now, n) && n < |Neighbors(g, node)|
    requires Neighbors(g, node)[n] !in now && now + [Neighbors(g, node)[n]] <= after
    ensures TakenNext(g, after, true, |now|)
  {
    var w := Neighbors(g, node)[n];
    assert (now + [w])[..|now|] == now;
    DiscoveredFirst(g, now, |before|, Neighbors(g, node), n);
    forall k | |before| < k < |now| ensures Settled(g, now + [w], k, |now|) {
      assert Settled(g, now, k, |now|);
      assert now[..|now|] == now;
    }
    TakenNextStays(g, now + [w], after, true, |now|);
  }

  lemma {:induction false} WalkingStep(
    g: ProtocolGraph, node: string, before: seq<string>, now: seq<string>, n: nat, after: seq<string>)
    requires Walking(g, node, before, now, n) && n < |Neighbors(g, node)|
    requires Walked(g, Neighbors(g, node)[n], now, after)
    ensures Walking(g, node, before, after, n + 1)
  {
    hide Settled, TakenNext, Neighbors, Distinct, Reaches;
    var w := Neighbors(g, node)[n];
    forall m | 0 <= m < n + 1 ensures Neighbors(g, node)[m] in after {
      if m < n { assert Neighbors(g, node)[m] in after[..|now|]; }
    }
    if w !in now {
      assert now + [w] <= after;
      WalkingNext(g, node, before, now, n, after);
    }
    ReachesThrough(g, node, w, SetOf(after[|now|..]));
    forall k | |before| <= k < |after| ensures Reaches(g, node, after[k]) {
      if k >= |now| { assert after[k] in after[|now|..]; } else { assert now[k] == after[k]; }
    }
    forall k | |before| + 1 <= k < |after| ensures Settled(g, after, k, |after|) {
      if k < |now| { SettledStays(g, now, after, k); }
    }
    forall i | |before| < i < |after| ensures TakenNext(g, after, true, i) {
      if i < |now| { TakenNextStays(g, now, after, true, i); }
    }
  }

  lemma WalkingDone(g: ProtocolGraph, node: string, before: seq<string>, now: seq<string>)
    requires Walking(g, node, before, now, |Neighbors(g, node)|)
    ensures Walked(g, node, before, now)
  {
    assert now[..|now|] == now;
    assert Settled(g, now, |before|, |now|);
  }

  lemma NeighborIsTarget(g: ProtocolGraph, u: string, w: string)
    requires w in Neighbors(g, u)
    ensures w in Targets(g)
  {
  }

  lemma ReachesThrough(g: ProtocolGraph, u: string, w: string, s: set<string>)
    requires w in Neighbors(g, u)
    requires forall v | v in s :: Reaches(g, w, v)
    ensures forall v | v in s :: Reaches(g, u, v)
  {
    forall v | v in s ensures Reaches(g, u, v) {
      var p :| WalkBetween(g, p, w, v);
      assert WalkBetween(g, [u, w], u, w);
      WalkJoin(g, [u, w], p);
      assert WalkBetween(g, [u, w] + p[1..], u, v);
    }
  }

  /** The same vertices as `Bfs` from the same start, each once, in depth-first order. */
  method Dfs(g: ProtocolGraph, start: Option<string>) returns (visited: seq<string>)
    ensures Origin(g, start) !in Addresses(g) ==> visited == []
    ensures Origin(g, start) in Addresses(g) ==>
              && (forall v :: v in visited <==> Reaches(g, Origin(g, start), v))
              && Distinct(visited)
              && visited != [] && visited[0] == Origin(g, start) && SearchOrder(g, visited, true)
  {
    hide Addresses, Distinct, Lower, Targets, SetOf, Walked;
    var origin := Origin(g, start);
    if origin !in Addresses(g) {
      return [];
    }
    var walk := new DepthFirstWalk(g);
    assert Distinct<string>([]) && SetOf<string>([]) == {} by { DistinctNone(); }
    walk.Walk(origin, {origin} + Targets(g));
    visited := walk.visited;
    WalkedAll(g, origin, visited);
  }

  lemma DistinctNone()
    ensures Distinct<string>([]) && SetOf<string>([]) == {}
  {
  }

  lemma WalkedAll(g: ProtocolGraph, origin: string, visited: seq<string>)
    requires Walked(g, origin, [], visited)
    ensures forall v :: v in visited <==> Reaches(g, origin, v)
    ensures Distinct(visited)
    ensures visited != [] && visited[0] == origin && SearchOrder(g, visited, true)
  {
    hide TakenNext, Distinct, Neighbors;
    assert visited[..|visited|] == visited;
    forall u, w | u in SetOf(visited) && w in Neighbors(g, u) ensures w in SetOf(visited) {
      var k :| 0 <= k < |visited| && visited[k] == u;
      assert Settled(g, visited, k, |visited|);
    }
    forall v ensures v in visited <==> Reaches(g, origin, v) {
      if p :| WalkBetween(g, p, origin, v) {
        ClosedSetHoldsWalk(g, SetOf(visited), p);
        assert p[|p| - 1] in SetOf(p);
      }
    }
  }

  // ---- find_cycles ----

  /** The edge from `u` to `w` closes one of the cycles: it is the last edge of it. */
  ghost predicate ClosesReport(cycles: seq<seq<string>>, u: string, w: string) {
    exists c :: c in cycles && |c| > 1 && c[|c| - 2] == u && c[|c| - 1] == w
  }

  /** The walk goes along an edge that closes one of the cycles. */
  ghost predicate MeetsReport(cycles: seq<seq<string>>, p: seq<string>) {
    exists i :: 0 <= i < |p| - 1 && ClosesReport(cycles, p[i], p[i + 1])
  }

  /** The finish order: every neighbour of a finished vertex finished before it, unless the
      edge to it has been reported as closing a cycle. */
  ghost predicate FinishedAfterNeighbors(g: ProtocolGraph, finished: seq<string>, cycles: seq<seq<string>>) {
    forall i, w | 0 <= i < |finished| && w in Neighbors(g, finished[i]) ::
      w in finished[..i] || ClosesReport(cycles, finished[i], w)
  }

  /** Some node leads to a closed walk. */
  ghost predicate CycleWithinReach(g: ProtocolGraph) {
    exists p, r :: ClosedWalk(g, p) && r in Addresses(g) && Reaches(g, r, p[0])
  }

  /** The state of the search: the stack is the set of the path's vertices, the path is a
      walk, a visited vertex is on the stack or finished, and every report is a real cycle. */
  ghost predicate Searching(
    g: ProtocolGraph, visited: set<string>, stack: set<string>, path: seq<string>, cycles: seq<seq<string>>,
    finished: seq<string>) {
    && Distinct(path) && SetOf(path) == stack && (path != [] ==> Walk(g, path))
    && visited == stack + SetOf(finished)
    && (forall v | v in visited :: Rooted(g, v))
    && (forall c | c in cycles :: SimpleCycle(g, c) && c[0] in visited)
    && FinishedAfterNeighbors(g, finished, cycles)
  }

  lemma SearchEnter(
    g: ProtocolGraph, visited: set<string>, stack: set<string>, path: seq<string>, cycles: seq<seq<string>>,
    finished: seq<string>,
    node: string)
    requires Searching(g, visited, stack, path, cycles, finished)
    requires node !in visited && Rooted(g, node)
    requires path != [] ==> node in Neighbors(g, path[|path| - 1])
    ensures Searching(g, visited + {node}, stack + {node}, path + [node], cycles, finished)
  {
    assert SetOf(path + [node]) == stack + {node};
    if path != [] { WalkStep(g, path, node); }
  }

  lemma ReportStays(cycles: seq<seq<string>>, more: seq<seq<string>>, u: string, w: string)
    requires cycles <= more && ClosesReport(cycles, u, w)
    ensures ClosesReport(more, u, w)
  {
    var c :| c in cycles && |c| > 1 && c[|c| - 2] == u && c[|c| - 1] == w;
    assert c in more[..|cycles|];
  }

  lemma ReportsStay(g: ProtocolGraph, finished: seq<string>, cycles: seq<seq<string>>, more: seq<seq<string>>)
    requires cycles <= more && FinishedAfterNeighbors(g, finished, cycles)
    ensures FinishedAfterNeighbors(g, finished, more)
  {
    forall i, w | 0 <= i < |finished| && w in Neighbors(g, finished[i]) && w !in finished[..i]
      ensures ClosesReport(more, finished[i], w)
    {
      ReportStays(cycles, more, finished[i], w);
    }
  }

  lemma SliceIsDistinct(s: seq<string>, k: nat, x: string)
    requires Distinct(s) && k < |s|
    ensures (s[k..] + [x])[..|s| - k] == s[k..] && Distinct(s[k..])
  {
  }

  lemma PathCloses(g: ProtocolGraph, path: seq<string>, neighbor: string)
    requires Walk(g, path) && Distinct(path)
    requires neighbor in Neighbors(g, path[|path| - 1]) && neighbor in path
    ensures SimpleCycle(g, path[IndexIn(path, neighbor)..] + [neighbor])
  {
    hide Neighbors, Distinct;
    var k := IndexIn(path, neighbor);
    WalkSlice(g, path, k, |path|);
    assert path[k..|path|] == path[k..];
    hide Walk;
    WalkStep(g, path[k..], neighbor);
    SliceIsDistinct(path, k, neighbor);
  }

  lemma SearchReport(
    g: ProtocolGraph, visited: set<string>, stack: set<string>, path: seq<string>, cycles: seq<seq<string>>,
    finished: seq<string>,
    neighbor: string)
    requires Searching(g, visited, stack, path, cycles, finished)
    requires path != [] && neighbor in Neighbors(g, path[|path| - 1]) && neighbor in path
    ensures Searching(g, visited, stack, path, cycles + [path[IndexIn(path, neighbor)..] + [neighbor]], finished)
    ensures ClosesReport(cycles + [path[IndexIn(path, neighbor)..] + [neighbor]], path[|path| - 1], neighbor)
  {
    hide Walk, Distinct, SimpleCycle, Rooted, FinishedAfterNeighbors, Neighbors;
    PathCloses(g, path, neighbor);
    var c := path[IndexIn(path, neighbor)..] + [neighbor];
    assert neighbor in SetOf(path);
    assert c in cycles + [c] && c[|c| - 2] == path[|path| - 1];
    ReportsStay(g, finished, cycles, cycles + [c]);
  }

  lemma PathShrinks(g: ProtocolGraph, path: seq<string>, node: string)
    requires Walk(g, path + [node]) && Distinct(path + [node])
    ensures path != [] ==> Walk(g, path)
    ensures Distinct(path)
    ensures SetOf(path) == SetOf(path + [node]) - {node}
    ensures SetOf(path + [node]) == SetOf(path) + {node}
  {
    var p := path + [node];
    assert forall i | 0 <= i < |path| :: p[i] == path[i];
    assert p[|path|] == node;
  }

  lemma FinishGrows(g: ProtocolGraph, finished: seq<string>, cycles: seq<seq<string>>, node: string)
    requires FinishedAfterNeighbors(g, finished, cycles)
    requires forall w | w in Neighbors(g, node) :: w in finished || ClosesReport(cycles, node, w)
    ensures FinishedAfterNeighbors(g, finished + [node], cycles)
  {
    var f := finished + [node];
    forall i, w | 0 <= i < |f| && w in Neighbors(g, f[i]) ensures w in f[..i] || ClosesReport(cycles, f[i], w) {
      if i == |finished| {
        assert f[..i] == finished;
      } else {
        assert f[..i] == finished[..i];
      }
    }
  }

  lemma SearchLeave(
    g: ProtocolGraph, visited: set<string>, stack: set<string>, path: seq<string>, cycles: seq<seq<string>>,
    finished: seq<string>,
    node: string)
    requires Searching(g, visited, stack, path + [node], cycles, finished)
    requires forall w | w in Neighbors(g, node) :: w in finished || ClosesReport(cycles, node, w)
    ensures Searching(g, visited, stack - {node}, path, cycles, finished + [node])
  {
    hide Walk, Distinct, SimpleCycle, Rooted, FinishedAfterNeighbors, Neighbors, ClosesReport;
    PathShrinks(g, path, node);
    FinishGrows(g, finished, cycles, node);
    assert SetOf(finished + [node]) == SetOf(finished) + {node};
  }

  lemma SearchAt(
    g: ProtocolGraph, visited: set<string>, stack: set<string>, path: seq<string>, cycles: seq<seq<string>>,
    finished: seq<string>, w: string)
    requires Searching(g, visited, stack, path, cycles, finished)
    ensures w in path <==> w in stack
    ensures w in visited <==> w in stack || w in finished
  {
    assert w in path <==> w in SetOf(path);
    assert w in finished <==> w in SetOf(finished);
  }

  // ---- what one call adds ----

  /** The two cycles have the same last edge. */
  ghost predicate SameClosing(c: seq<string>, d: seq<string>) {
    |c| > 1 && |d| > 1 && c[|c| - 2] == d[|d| - 2] && c[|c| - 1] == d[|d| - 1]
  }

  /** No edge closes two of the cycles; in particular none is listed twice. */
  ghost predicate OncePerEdge(cycles: seq<seq<string>>) {
    forall i, j | 0 <= i < j < |cycles| :: !SameClosing(cycles[i], cycles[j])
  }

  ghost predicate ClosesFrom(c: seq<string>, node: string) { |c| > 1 && c[|c| - 2] == node }

  /** Reports close from visited vertices, and where no list of targets repeats one, each edge
      closes at most one. */
  ghost predicate Closings(g: ProtocolGraph, cycles: seq<seq<string>>, visited: set<string>) {
    && (forall c, v | c in cycles && ClosesFrom(c, v) :: v in visited)
    && (Consistent(g) ==> OncePerEdge(cycles))
  }

  /** Each of the neighbours has finished or has been reported. */
  ghost predicate Dealt(finished: seq<string>, cycles: seq<seq<string>>, node: string, neighbors: seq<string>) {
    forall w | w in neighbors :: w in finished || ClosesReport(cycles, node, w)
  }

  /** The lists of reports and finished vertices, and the set of visited ones. */
  datatype Trace = Trace(cycles: seq<seq<string>>, finished: seq<string>, visited: set<string>)

  /** Nothing is lost, and the reports added close from vertices not visited before. */
  ghost predicate Extends(was: Trace, now: Trace) {
    && was.cycles <= now.cycles && was.finished <= now.finished && was.visited <= now.visited
    && forall i, v | |was.cycles| <= i < |now.cycles| && ClosesFrom(now.cycles[i], v) :: v !in was.visited
  }

  /** Part way through the neighbours of `node`: those in `part` are dealt with, and the
      reports that close from the node close into `part`. */
  ghost predicate Examined(was: Trace, now: Trace, node: string, part: seq<string>) {
    && Extends(was, now) && node in now.visited && node !in was.visited
    && Dealt(now.finished, now.cycles, node, part)
    && forall c | c in now.cycles && ClosesFrom(c, node) :: c[|c| - 1] in part
  }

  lemma ExamineStart(g: ProtocolGraph, was: Trace, node: string)
    requires Closings(g, was.cycles, was.visited) && node !in was.visited
    ensures Examined(was, was.(visited := was.visited + {node}), node, [])
    ensures Closings(g, was.cycles, was.visited + {node})
  {
    hide ClosesFrom, Consistent, OncePerEdge;
  }

  lemma DealtGrows(was: Trace, now: Trace, node: string, part: seq<string>, neighbor: string)
    requires Dealt(was.finished, was.cycles, node, part) && Extends(was, now)
    requires neighbor in now.finished || ClosesReport(now.cycles, node, neighbor)
    ensures Dealt(now.finished, now.cycles, node, part + [neighbor])
  {
    forall w | w in part ensures w in now.finished || ClosesReport(now.cycles, node, w) {
      if w in was.finished {
        assert w in now.finished[..|was.finished|];
      } else {
        ReportStays(was.cycles, now.cycles, node, w);
      }
    }
  }

  lemma ExtendsThrough(was: Trace, mid: Trace, now: Trace)
    requires Extends(was, mid) && Extends(mid, now)
    ensures Extends(was, now)
  {
    hide ClosesFrom;
    forall i, v | |was.cycles| <= i < |now.cycles| && ClosesFrom(now.cycles[i], v) ensures v !in was.visited {
      if i < |mid.cycles| { assert mid.cycles[i] == now.cycles[i]; }
    }
  }

  /** After the neighbour has been visited. */
  lemma ExamineVisited(was: Trace, mid: Trace, now: Trace, node: string, part: seq<string>, neighbor: string)
    requires Examined(was, mid, node, part) && Extends(mid, now) && neighbor in now.finished
    ensures Examined(was, now, node, part + [neighbor])
  {
    ExtendsThrough(was, mid, now);
    DealtGrows(mid, now, node, part, neighbor);
    hide ClosesFrom, Dealt;
    forall c | c in now.cycles && ClosesFrom(c, node) ensures c[|c| - 1] in part + [neighbor] {
      var k :| 0 <= k < |now.cycles| && now.cycles[k] == c;
      assert k < |mid.cycles| && mid.cycles[k] == c;
    }
  }

  /** After a cycle closed by the edge to the neighbour has been reported. */
  lemma ExamineReported(
    g: ProtocolGraph, was: Trace, mid: Trace, node: string, neighbors: seq<string>, i: nat, c: seq<string>)
    requires i < |neighbors| && Examined(was, mid, node, neighbors[..i])
    requires Closings(g, mid.cycles, mid.visited) && (Consistent(g) ==> Distinct(neighbors))
    requires ClosesFrom(c, node) && c[|c| - 1] == neighbors[i]
    ensures Examined(was, mid.(cycles := mid.cycles + [c]), node, neighbors[..i] + [neighbors[i]])
    ensures Closings(g, mid.cycles + [c], mid.visited)
  {
    hide Consistent;
    var now, part := mid.(cycles := mid.cycles + [c]), neighbors[..i];
    assert c in now.cycles;
    ReportedGrows(mid, node, part, neighbors[i], c);
    if Consistent(g) { StillOnce(mid.cycles, node, neighbors, i, c); }
  }

  lemma ReportedGrows(mid: Trace, node: string, part: seq<string>, neighbor: string, c: seq<string>)
    requires Dealt(mid.finished, mid.cycles, node, part)
    requires ClosesFrom(c, node) && c[|c| - 1] == neighbor
    ensures Dealt(mid.finished, mid.cycles + [c], node, part + [neighbor])
  {
    assert c in mid.cycles + [c] && ClosesReport(mid.cycles + [c], node, neighbor);
    forall w | w in part ensures w in mid.finished || ClosesReport(mid.cycles + [c], node, w) {
      if w !in mid.finished { ReportStays(mid.cycles, mid.cycles + [c], node, w); }
    }
  }

  lemma StillOnce(cycles: seq<seq<string>>, node: string, neighbors: seq<string>, i: nat, c: seq<string>)
    requires OncePerEdge(cycles) && i < |neighbors| && Distinct(neighbors)
    requires forall d | d in cycles && ClosesFrom(d, node) :: d[|d| - 1] in neighbors[..i]
    requires ClosesFrom(c, node) && c[|c| - 1] == neighbors[i]
    ensures OncePerEdge(cycles + [c])
  {
    assert neighbors[i] !in neighbors[..i];
    forall j | 0 <= j < |cycles| ensures !SameClosing(cycles[j], c) {
      assert cycles[j] in cycles;
    }
  }

  /** Where there is nothing to do: the neighbour has finished. */
  lemma ExaminePassed(was: Trace, now: Trace, node: string, part: seq<string>, neighbor: string)
    requires Examined(was, now, node, part) && neighbor in now.finished
    ensures Examined(was, now, node, part + [neighbor])
  {
    hide ClosesFrom, Extends;
  }

  lemma ExamineDone(was: Trace, now: Trace, node: string, neighbors: seq<string>)
    requires Examined(was, now, node, neighbors)
    ensures forall w | w in neighbors :: w in now.finished || ClosesReport(now.cycles, node, w)
    ensures Extends(was, now.(finished := now.finished + [node]))
    ensures node in now.visited && was.visited <= now.visited
  {
    hide ClosesFrom;
  }

  /** What a call finds: the trace, the stack and the path at its start. */
  datatype Before = Before(trace: Trace, stack: set<string>, path: seq<string>)

  /** The state of a call part way through the neighbours of its node. */
  ghost predicate AtNode(
    g: ProtocolGraph, from: Before, now: Trace, stack: set<string>, path: seq<string>, node: string, part: seq<string>)
  {
    && Searching(g, now.visited, stack, path, now.cycles, now.finished) && Closings(g, now.cycles, now.visited)
    && path == from.path + [node] && stack == from.stack + {node} && node !in from.stack
    && Examined(from.trace, now, node, part)
  }

  lemma NodeEnter(g: ProtocolGraph, from: Before, node: string)
    requires Searching(g, from.trace.visited, from.stack, from.path, from.trace.cycles, from.trace.finished)
    requires Closings(g, from.trace.cycles, from.trace.visited)
    requires node !in from.trace.visited && Rooted(g, node)
    requires from.path != [] ==> node in Neighbors(g, from.path[|from.path| - 1])
    ensures AtNode(
              g, from, from.trace.(visited := from.trace.visited + {node}), from.stack + {node}, from.path
                  + [node], node, [])
  {
    hide Searching, Closings, Rooted, Neighbors, Examined;
    var t := from.trace;
    SearchEnter(g, t.visited, from.stack, from.path, t.cycles, t.finished, node);
    SearchAt(g, t.visited, from.stack, from.path, t.cycles, t.finished, node);
    ExamineStart(g, t, node);
  }

  lemma NodeFacts(
    g: ProtocolGraph, from: Before, now: Trace, stack: set<string>, path: seq<string>, node: string, part: seq<string>)
    requires AtNode(g, from, now, stack, path, node, part)
    ensures path != [] && path[|path| - 1] == node && path[..|path| - 1] == from.path
    ensures Searching(g, now.visited, stack, path, now.cycles, now.finished) && Closings(g, now.cycles, now.visited)
    ensures stack - {node} == from.stack && from.trace.visited <= now.visited && node in now.visited
  {
    hide Closings, Searching;
  }

  /** Where the neighbour is to be found. */
  lemma NeighborState(
    g: ProtocolGraph, from: Before, now: Trace, stack: set<string>, path: seq<string>, node: string, part: seq<string>,
    w: string)
    requires AtNode(g, from, now, stack, path, node, part)
    ensures w in path <==> w in stack
    ensures w in now.visited <==> w in stack || w in now.finished
  {
    hide Closings, Searching, Examined;
    SearchAt(g, now.visited, stack, path, now.cycles, now.finished, w);
  }

  /** The neighbour can be visited next. */
  lemma NodeDescends(
    g: ProtocolGraph, from: Before, now: Trace, stack: set<string>, path: seq<string>, node: string, part: seq<string>,
    neighbor: string)
    requires AtNode(g, from, now, stack, path, node, part) && neighbor in Neighbors(g, node)
    ensures Rooted(g, neighbor) && neighbor in Targets(g)
  {
    hide Searching, Closings, Rooted, Neighbors, Examined, Targets;
    PathEndRooted(g, now.visited, stack, path, now.cycles, now.finished);
    RootedStep(g, node, neighbor);
    NeighborIsTarget(g, node, neighbor);
  }

  lemma NodeReturns(
    g: ProtocolGraph, from: Before, mid: Trace, now: Trace, stack: set<string>, path: seq<string>, node: string,
    part: seq<string>, neighbor: string)
    requires AtNode(g, from, mid, stack, path, node, part)
    requires Searching(g, now.visited, stack, path, now.cycles, now.finished) && Closings(g, now.cycles, now.visited)
    requires Extends(mid, now) && neighbor in now.finished
    ensures AtNode(g, from, now, stack, path, node, part + [neighbor])
  {
    hide Searching, Closings, Examined, Extends;
    ExamineVisited(from.trace, mid, now, node, part, neighbor);
  }

  lemma NodeReports(
    g: ProtocolGraph, from: Before, mid: Trace, stack: set<string>, path: seq<string>, node: string,
    neighbors: seq<string>, i: nat)
    requires neighbors == Neighbors(g, node) && i < |neighbors| && neighbors[i] in path
    requires AtNode(g, from, mid, stack, path, node, neighbors[..i])
    ensures var c := path[IndexIn(path, neighbors[i])..] + [neighbors[i]];
            AtNode(g, from, mid.(cycles := mid.cycles + [c]), stack, path, node, neighbors[..i] + [neighbors[i]])
  {
    hide Searching, Closings, Examined, Neighbors, ClosesFrom, Consistent, Distinct;
    var k := IndexIn(path, neighbors[i]);
    NeighborsOnce(g, node);
    SearchReport(g, mid.visited, stack, path, mid.cycles, mid.finished, neighbors[i]);
    ClosingOf(path, k, neighbors[i]);
    ExamineReported(g, from.trace, mid, node, neighbors, i, path[k..] + [neighbors[i]]);
  }

  lemma NodePasses(
    g: ProtocolGraph, from: Before, now: Trace, stack: set<string>, path: seq<string>, node: string, part: seq<string>,
    neighbor: string)
    requires AtNode(g, from, now, stack, path, node, part) && neighbor in now.finished
    ensures AtNode(g, from, now, stack, path, node, part + [neighbor])
  {
    hide Searching, Closings, Examined;
    ExaminePassed(from.trace, now, node, part, neighbor);
  }

  lemma NodeLeaves(
    g: ProtocolGraph, from: Before, now: Trace, stack: set<string>, path: seq<string>, node: string)
    requires AtNode(g, from, now, stack, path, node, Neighbors(g, node))
    ensures Searching(g, now.visited, from.stack, from.path, now.cycles, now.finished + [node])
    ensures Closings(g, now.cycles, now.visited)
    ensures Extends(from.trace, now.(finished := now.finished + [node]))
    ensures node in now.finished + [node]
  {
    hide Searching, Closings, Examined, Extends, Neighbors;
    NodeFacts(g, from, now, stack, path, node, Neighbors(g, node));
    ExamineDone(from.trace, now, node, Neighbors(g, node));
    SearchLeave(g, now.visited, stack, from.path, now.cycles, now.finished, node);
  }

  // ---- which reports there are ----

  /** The path is the first one to its end, whatever was passed by on it has been dealt with, the
      reports are closed by first paths, and none that closes from a finished vertex is missing. */
  ghost predicate Tracing(g: ProtocolGraph, path: seq<string>, cycles: seq<seq<string>>, finished: seq<string>) {
    && SearchPath(g, path) && Exhausted(g, path, SetOf(finished)) && (path != [] ==> FirstPath(g, path))
    && (forall c | c in cycles :: FirstCycle(g, c))
    && (forall c, v | v in finished && ClosesFrom(c, v) && FirstCycle(g, c) :: c in cycles)
  }

  /** Part way through the neighbours of the last vertex of the path. */
  ghost predicate TracingAt(g: ProtocolGraph, now: Trace, path: seq<string>, node: string, part: seq<string>) {
    && Tracing(g, path, now.cycles, now.finished) && path != [] && path[|path| - 1] == node
    && (forall m | m in part :: m in now.visited)
    && (forall c | ClosesFrom(c, node) && FirstCycle(g, c) && c[|c| - 1] in part :: c in now.cycles)
  }

  /** What a finished vertex has edges to is finished or on the path. */
  lemma FinishedLeadsBack(
    g: ProtocolGraph, visited: set<string>, stack: set<string>, path: seq<string>, cycles: seq<seq<string>>,
    finished: seq<string>, u: string, w: string)
    requires Searching(g, visited, stack, path, cycles, finished) && u in finished && w in Neighbors(g, u)
    ensures w in SetOf(finished) || w in path
  {
    hide Neighbors, Distinct, Walk, Rooted;
    var i :| 0 <= i < |finished| && finished[i] == u;
    if w !in finished[..i] {
      var c :| c in cycles && |c| > 1 && c[|c| - 2] == u && c[|c| - 1] == w;
      assert SimpleCycle(g, c) && c[0] in visited;
    }
  }

  lemma TraceEnter(
    g: ProtocolGraph, t: Trace, stack: set<string>, path: seq<string>, node: string)
    requires Searching(g, t.visited, stack, path, t.cycles, t.finished) && Tracing(g, path, t.cycles, t.finished)
    requires node !in t.visited && node in Choices(g, path)
    requires forall m | ComesBefore(Choices(g, path), m, node) :: m in t.visited
    ensures TracingAt(g, t.(visited := t.visited + {node}), path + [node], node, [])
  {
    hide Choices, ComesBefore, Neighbors, FirstCycle, ClosesFrom, SearchPath, Exhausted, FirstPath;
    EnterFacts(g, t, stack, path, node);
    hide Searching;
    var done := SetOf(t.finished);
    SearchPathStep(g, path, node);
    assert (path + [node])[..|path|] == path;
    forall m | PassedBy(g, path + [node], |path|, m) ensures m in done || m in path {
      assert ComesBefore(Choices(g, path), m, node);
    }
    ExhaustedStep(g, path, node, done);
    FirstWhenExhausted(g, path + [node], done);
  }

  lemma EnterFacts(g: ProtocolGraph, t: Trace, stack: set<string>, path: seq<string>, node: string)
    requires Searching(g, t.visited, stack, path, t.cycles, t.finished) && node !in t.visited
    ensures node !in path && node !in SetOf(t.finished)
    ensures forall m | m in t.visited :: m in SetOf(t.finished) || m in path
    ensures forall u, w | u in SetOf(t.finished) && w in Neighbors(g, u) :: w in SetOf(t.finished) || w in path
  {
    hide Neighbors, Distinct, Walk, Rooted, FinishedAfterNeighbors, SimpleCycle;
    forall m ensures m in path <==> m in SetOf(path) { NotInSetOf(path, m); }
    forall u, w | u in SetOf(t.finished) && w in Neighbors(g, u) ensures w in SetOf(t.finished) || w in path {
      FinishedLeadsBack(g, t.visited, stack, path, t.cycles, t.finished, u, w);
    }
  }

  lemma RunsAlong(path: seq<string>, c: seq<string>)
    requires Distinct(path) && |c| > 1 && c[0] == c[|c| - 1] && EndsWith(path, c[..|c| - 1])
    ensures c[|c| - 1] in path && c == path[IndexIn(path, c[|c| - 1])..] + [c[|c| - 1]]
  {
    var n := |c| - 1;
    assert path[|path| - n] == path[|path| - n..][0] == c[0] == c[n];
    assert c == c[..n] + [c[n]];
  }

  /** A cycle of this kind that closes from the end of a first path runs along it. */
  lemma ClosesOntoPath(g: ProtocolGraph, path: seq<string>, c: seq<string>)
    requires FirstPath(g, path) && FirstCycle(g, c) && ClosesFrom(c, path[|path| - 1])
    ensures c[|c| - 1] in path && c == path[IndexIn(path, c[|c| - 1])..] + [c[|c| - 1]]
  {
    hide SearchPath, NoneEarlier, Neighbors, Distinct, Walk;
    var n := |c| - 1;
    var p :| FirstPath(g, p) && EndsWith(p, c[..n]);
    assert p[|p| - 1] == p[|p| - n..][n - 1] == c[n - 1];
    FirstPathIsUnique(g, p, path);
    FirstPathWalks(g, p);
    RunsAlong(path, c);
  }

  lemma PathIsClosed(g: ProtocolGraph, path: seq<string>, neighbor: string)
    requires FirstPath(g, path) && neighbor in path && neighbor in Neighbors(g, path[|path| - 1])
    ensures FirstCycle(g, path[IndexIn(path, neighbor)..] + [neighbor])
  {
    hide SearchPath, NoneEarlier, Neighbors;
    var k := IndexIn(path, neighbor);
    var c := path[k..] + [neighbor];
    assert c[..|c| - 1] == path[k..];
    assert EndsWith(path, path[k..]);
  }

  /** The next neighbour can be visited: those passed by have been. */
  lemma NextChoice(g: ProtocolGraph, t: Trace, path: seq<string>, node: string, i: nat)
    requires i < |Neighbors(g, node)| && TracingAt(g, t, path, node, Neighbors(g, node)[..i])
    ensures Tracing(g, path, t.cycles, t.finished) && Neighbors(g, node)[i] in Choices(g, path)
    ensures forall m | ComesBefore(Choices(g, path), m, Neighbors(g, node)[i]) :: m in t.visited
  {
    hide Tracing, Neighbors, FirstCycle;
    var neighbors := Neighbors(g, node);
    forall m | ComesBefore(neighbors, m, neighbors[i]) ensures m in neighbors[..i] { BeforeIsTaken(neighbors, i, m); }
  }

  lemma BeforeIsTaken(s: seq<string>, i: nat, m: string)
    requires i < |s| && ComesBefore(s, m, s[i])
    ensures m in s[..i]
  {
    forall k {:trigger s[k]} | i <= k < |s| ensures s[i] in s[..k + 1] { assert s[..k + 1][i] == s[i]; }
    var k :| 0 <= k < |s| && s[k] == m && s[i] !in s[..k + 1];
  }

  lemma TraceOn(
    g: ProtocolGraph, mid: Trace, now: Trace, path: seq<string>, node: string, part: seq<string>, neighbor: string)
    requires TracingAt(g, mid, path, node, part) && Tracing(g, path, now.cycles, now.finished)
    requires Extends(mid, now) && neighbor in now.visited
    requires neighbor in path ==> path[IndexIn(path, neighbor)..] + [neighbor] in now.cycles
    ensures TracingAt(g, now, path, node, part + [neighbor])
  {
    hide FirstCycle, SearchPath, Exhausted, NoneEarlier;
    forall c | ClosesFrom(c, node) && FirstCycle(g, c) && c[|c| - 1] in part + [neighbor] ensures c in now.cycles {
      if c[|c| - 1] in part {
        assert c in mid.cycles && c in now.cycles[..|mid.cycles|];
      } else {
        ClosesOntoPath(g, path, c);
      }
    }
  }

  lemma TracePass(g: ProtocolGraph, now: Trace, path: seq<string>, node: string, part: seq<string>, neighbor: string)
    requires TracingAt(g, now, path, node, part) && neighbor in now.visited && neighbor !in path
    ensures TracingAt(g, now, path, node, part + [neighbor])
  {
    hide Tracing, FirstCycle, ClosesFrom;
    TraceOn(g, now, now, path, node, part, neighbor);
  }

  lemma TraceReport(g: ProtocolGraph, mid: Trace, path: seq<string>, node: string, part: seq<string>, neighbor: string)
    requires TracingAt(g, mid, path, node, part) && neighbor in mid.visited
    requires neighbor in path && neighbor in Neighbors(g, node)
    ensures var c := path[IndexIn(path, neighbor)..] + [neighbor];
            TracingAt(g, mid.(cycles := mid.cycles + [c]), path, node, part + [neighbor])
  {
    hide FirstCycle, SearchPath, Exhausted, NoneEarlier, Neighbors;
    var c := path[IndexIn(path, neighbor)..] + [neighbor];
    PathIsClosed(g, path, neighbor);
    assert c in mid.cycles + [c];
    var now := mid.(cycles := mid.cycles + [c]);
    forall d | ClosesFrom(d, node) && FirstCycle(g, d) && d[|d| - 1] in part + [neighbor] ensures d in now.cycles {
      if d[|d| - 1] !in part { ClosesOntoPath(g, path, d); }
    }
  }

  lemma TraceLeave(g: ProtocolGraph, now: Trace, path: seq<string>, node: string)
    requires TracingAt(g, now, path, node, Neighbors(g, node))
    ensures Tracing(g, path[..|path| - 1], now.cycles, now.finished + [node])
  {
    hide SearchPath, NoneEarlier, Neighbors, Exhausted;
    var k, more := |path| - 1, now.finished + [node];
    SearchPathPrefix(g, path, k);
    if k > 0 { FirstPathPrefix(g, path, k); }
    ExhaustedPrefix(g, path, k, SetOf(now.finished));
    ExhaustedGrows(g, path[..k], SetOf(now.finished), SetOf(more));
    hide FirstPath;
    forall c, v | v in more && ClosesFrom(c, v) && FirstCycle(g, c) ensures c in now.cycles {
      assert v in now.finished || v == node;
    }
  }

  class CycleSearch {
    const graph: ProtocolGraph
    var cycles: seq<seq<string>>
    var visited: set<string>
    var stack: set<string>
    var path: seq<string>
    ghost var finished: seq<string>

    constructor (g: ProtocolGraph)
      ensures graph == g && cycles == [] && visited == {} && stack == {} && path == [] && finished == []
    {
      graph := g;
      cycles, visited, stack, path, finished := [], {}, {}, [], [];
    }

    ghost predicate Valid()
      reads this
    {
      && Searching(graph, visited, stack, path, cycles, finished) && Closings(graph, cycles, visited)
      && Tracing(graph, path, cycles, finished)
    }

    /** `_visit`: afterwards the node has finished, path and stack are as before, nothing
        already reported or finished is lost, and what was reported meanwhile closes from
        vertices that had not been visited before. */
    method Visit(node: string, ghost universe: set<string>)
      requires Valid() && node !in visited && Rooted(graph, node)
      requires node in Choices(graph, path)
      requires forall m | ComesBefore(Choices(graph, path), m, node) :: m in visited
      requires node in universe && Targets(graph) <= universe
      modifies this
      ensures Valid()
      ensures path == old(path) && stack == old(stack)
      ensures Extends(Trace(old(cycles), old(finished), old(visited)), Trace(cycles, finished, visited))
          && old(visited) <= visited
      ensures node in finished && node in visited
      decreases universe - visited
    {
      hide Searching, Closings, Rooted, Targets, Neighbors, SetOf, IndexIn, Lower, Extends, AtNode, Tracing, TracingAt,
        ComesBefore;
      ghost var from := Before(Trace(cycles, finished, visited), stack, path);
      TraceEnter(graph, from.trace, stack, path, node);
      NodeEnter(graph, from, node);
      visited := visited + {node};
      stack := stack + {node};
      path := path + [node];
      var neighbors := Neighbors(graph, node);
      SlicesEnd(neighbors);
      for i := 0 to |neighbors|
        invariant AtNode(graph, from, Trace(cycles, finished, visited), stack, path, node, neighbors[..i])
        invariant TracingAt(graph, Trace(cycles, finished, visited), path, node, neighbors[..i])
        invariant old(visited) <= visited && node in visited
      {
        var neighbor := neighbors[i];
        ghost var mid := Trace(cycles, finished, visited);
        TakeNext(neighbors, i);
        NodeFacts(graph, from, mid, stack, path, node, neighbors[..i]);
        NeighborState(graph, from, mid, stack, path, node, neighbors[..i], neighbor);
        if neighbor !in visited {
          NodeDescends(graph, from, mid, stack, path, node, neighbors[..i], neighbor);
          NextChoice(graph, mid, path, node, i);
          Visit(neighbor, universe);
          NodeReturns(graph, from, mid, Trace(cycles, finished, visited), stack, path, node, neighbors[..i], neighbor);
          TraceOn(graph, mid, Trace(cycles, finished, visited), path, node, neighbors[..i], neighbor);
        } else if neighbor in stack {
          NodeReports(graph, from, mid, stack, path, node, neighbors, i);
          TraceReport(graph, mid, path, node, neighbors[..i], neighbor);
          var cycleStart := IndexIn(path, neighbor);
          cycles := cycles + [path[cycleStart..] + [neighbor]];
        } else {
          NodePasses(graph, from, mid, stack, path, node, neighbors[..i], neighbor);
          TracePass(graph, mid, path, node, neighbors[..i], neighbor);
        }
      }
      NodeFacts(graph, from, Trace(cycles, finished, visited), stack, path, node, neighbors);
      NodeLeaves(graph, from, Trace(cycles, finished, visited), stack, path, node);
      TraceLeave(graph, Trace(cycles, finished, visited), path, node);
      stack := stack - {node};
      path := path[..|path| - 1];
      finished := finished + [node];
    }
  }

  lemma SlicesEnd(s: seq<string>)
    ensures s[..0] == [] && s[..|s|] == s
  {
  }

  lemma NeighborsOnce(g: ProtocolGraph, node: string)
    ensures Consistent(g) ==> Distinct(Neighbors(g, node))
  {
  }

  lemma ClosingOf(path: seq<string>, k: nat, neighbor: string)
    requires k < |path|
    ensures ClosesFrom(path[k..] + [neighbor], path[|path| - 1])
    ensures var c := path[k..] + [neighbor]; c[|c| - 1] == neighbor
  {
  }

  lemma PathEndRooted(
    g: ProtocolGraph, visited: set<string>, stack: set<string>, path: seq<string>, cycles: seq<seq<string>>,
    finished: seq<string>)
    requires Searching(g, visited, stack, path, cycles, finished) && path != []
    ensures Rooted(g, path[|path| - 1])
  {
    assert path[|path| - 1] in SetOf(path);
  }

  /** The reports are exactly the cycles that the first path to their last vertex runs along.
      Each is a simple cycle, every closed walk that a node leads to goes along the closing edge
      of one, and so there is none exactly when there is no directed cycle. */
  method FindCycles(g: ProtocolGraph) returns (r: seq<seq<string>>)
    ensures forall c :: c in r <==> FirstCycle(g, c)
    ensures forall c | c in r :: SimpleCycle(g, c)
    ensures forall p | ClosedWalk(g, p) && Rooted(g, p[0]) :: MeetsReport(r, p)
    ensures r == [] <==> !CycleWithinReach(g)
    ensures Sortable(g) ==> (r == [] <==> !Cyclic(g))
    ensures Consistent(g) ==> OncePerEdge(r)
    ensures Increasing(r, TupleLess)
  {
    hide Searching, Closings, Extends, Consistent, LowerCase, OncePerEdge, Rooted, Targets, SimpleCycle,
      CycleWithinReach, Cyclic, Addresses, SetOf, Walk, MeetsReport, Distinct, StrictTotal, StringLess, TupleLess,
      Increasing, AddressList, Tracing, Choices, ComesBefore, FirstCycle;
    var search := new CycleSearch(g);
    SearchStart(g);
    var order := SortedStrings(AddressList(g.nodes));
    ghost var universe := Addresses(g) + Targets(g);
    AddressesAre(g);
    for i := 0 to |order|
      invariant search.Valid() && search.path == [] && search.stack == {}
      invariant forall k | 0 <= k < i :: order[k] in search.visited
    {
      var node := order[i];
      if node !in search.visited {
        RootedEntry(g, order, i);
        RootChoice(g, order, i);
        search.Visit(node, universe);
      }
    }
    OrdersAreTotal();
    r := Sorted(multiset(search.cycles), TupleLess);
    ReportsAre(g, search.visited, search.cycles, search.finished, order, r);
    SearchVerdict(g, search.visited, search.cycles, search.finished, order, r);
  }

  lemma RootChoice(g: ProtocolGraph, order: seq<string>, i: nat)
    requires order == SortedStrings(AddressList(g.nodes)) && i < |order|
    ensures order[i] in Choices(g, [])
    ensures forall m | ComesBefore(Choices(g, []), m, order[i]) :: m in order[..i]
  {
    hide SortedStrings, ComesBefore;
    forall m | ComesBefore(order, m, order[i]) ensures m in order[..i] { BeforeIsTaken(order, i, m); }
  }

  /** With nothing on the path, the reports are all there are. */
  lemma ReportsAre(
    g: ProtocolGraph, visited: set<string>, cycles: seq<seq<string>>, finished: seq<string>, order: seq<string>,
    r: seq<seq<string>>)
    requires Searching(g, visited, {}, [], cycles, finished) && Tracing(g, [], cycles, finished)
    requires SetOf(order) == Addresses(g) && forall k | 0 <= k < |order| :: order[k] in visited
    requires multiset(r) == multiset(cycles)
    ensures forall c :: c in r <==> FirstCycle(g, c)
  {
    hide Searching, FirstCycle, Addresses, SetOf, Rooted, SimpleCycle, SearchPath, Exhausted, FirstPath;
    forall c ensures c in r <==> FirstCycle(g, c) {
      assert c in multiset(r) <==> c in multiset(cycles);
      if FirstCycle(g, c) {
        FirstCycleIsSimple(g, c);
        CycleIsLong(g, c);
        CycleIsRooted(g, c);
        RootedHasFinished(g, visited, cycles, finished, order, c[|c| - 2]);
        assert ClosesFrom(c, c[|c| - 2]);
      }
    }
  }

  /** So, where no list of targets repeats one, the list is fully determined. */
  lemma CyclesAreDetermined(g: ProtocolGraph, p: seq<seq<string>>, q: seq<seq<string>>)
    requires forall c :: c in p <==> FirstCycle(g, c)
    requires forall c :: c in q <==> FirstCycle(g, c)
    requires OncePerEdge(p) && OncePerEdge(q) && Increasing(p, TupleLess) && Increasing(q, TupleLess)
    ensures p == q
  {
    OnceIsDistinct(g, p);
    OnceIsDistinct(g, q);
    OrdersAreTotal();
    hide FirstCycle, TupleLess, Increasing, OncePerEdge, Distinct, StrictTotal;
    DistinctMultiset(p);
    DistinctMultiset(q);
    assert SetOf(p) == SetOf(q);
    SortedIsCanonical(p, q, TupleLess);
  }

  lemma OnceIsDistinct(g: ProtocolGraph, r: seq<seq<string>>)
    requires OncePerEdge(r) && forall c | c in r :: FirstCycle(g, c)
    ensures Distinct(r)
  {
    hide FirstPath, Neighbors, EndsWith;
    forall i, j | 0 <= i < j < |r| ensures r[i] != r[j] { assert r[i] in r && !SameClosing(r[i], r[j]); }
  }

  lemma RootedEntry(g: ProtocolGraph, order: seq<string>, i: nat)
    requires SetOf(order) == SetOf(AddressList(g.nodes)) && i < |order|
    ensures Rooted(g, order[i]) && order[i] in Addresses(g)
  {
    assert order[i] in SetOf(order);
    RootedNode(g, order[i]);
  }

  lemma SearchStart(g: ProtocolGraph)
    ensures Searching(g, {}, {}, [], [], []) && Closings(g, [], {}) && Tracing(g, [], [], [])
  {
  }

  lemma MetInBoth(cycles: seq<seq<string>>, r: seq<seq<string>>, p: seq<string>)
    requires forall c | c in cycles :: c in r
    requires MeetsReport(cycles, p)
    ensures MeetsReport(r, p)
  {
    var i :| 0 <= i < |p| - 1 && ClosesReport(cycles, p[i], p[i + 1]);
    var c :| c in cycles && |c| > 1 && c[|c| - 2] == p[i] && c[|c| - 1] == p[i + 1];
    assert c in r;
    assert ClosesReport(r, p[i], p[i + 1]);
  }

  lemma SomethingIsMet(g: ProtocolGraph, r: seq<seq<string>>)
    requires forall c | c in r :: SimpleCycle(g, c) && Rooted(g, c[0])
    requires forall p | ClosedWalk(g, p) && Rooted(g, p[0]) :: MeetsReport(r, p)
    ensures r == [] <==> !CycleWithinReach(g)
  {
    hide Walk, Reaches, Distinct, Addresses;
    if r != [] {
      assert r[0] in r && Rooted(g, r[0][0]);
    }
    if p, root :| ClosedWalk(g, p) && root in Addresses(g) && Reaches(g, root, p[0]) {
      assert Rooted(g, p[0]);
      assert MeetsReport(r, p);
    }
  }

  lemma OnceInBoth(g: ProtocolGraph, cycles: seq<seq<string>>, visited: set<string>, r: seq<seq<string>>)
    requires Consistent(g) && Closings(g, cycles, visited) && multiset(r) == multiset(cycles)
    requires forall c | c in cycles :: |c| > 1
    ensures OncePerEdge(r)
  {
    hide Consistent;
    forall i, j | 0 <= i < j < |cycles| ensures cycles[i] != cycles[j] { assert cycles[i] in cycles; }
    DistinctMultiset(cycles);
    forall i, j | 0 <= i < j < |r| ensures !SameClosing(r[i], r[j]) {
      if r[i] == r[j] { RepeatsCount(r, i, j); }
      assert r[i] != r[j] && r[i] in multiset(cycles) && r[j] in multiset(cycles);
      var a :| 0 <= a < |cycles| && cycles[a] == r[i];
      var b :| 0 <= b < |cycles| && cycles[b] == r[j];
      if a < b { assert !SameClosing(cycles[a], cycles[b]); } else { assert !SameClosing(cycles[b], cycles[a]); }
    }
  }

  /** What is reported, in whatever order, are simple cycles that a node leads to. */
  lemma ReportsAreSound(
    g: ProtocolGraph, visited: set<string>, cycles: seq<seq<string>>, finished: seq<string>, r: seq<seq<string>>)
    requires Searching(g, visited, {}, [], cycles, finished) && multiset(r) == multiset(cycles)
    ensures forall c | c in r :: SimpleCycle(g, c) && Rooted(g, c[0])
    ensures forall c | c in cycles :: c in r && |c| > 1
  {
    hide Distinct, FinishedAfterNeighbors, Rooted, SetOf, Walk;
    forall c ensures c in r <==> c in cycles { assert c in multiset(r) <==> c in multiset(cycles); }
    forall c | c in r ensures SimpleCycle(g, c) && Rooted(g, c[0]) { assert c in cycles; }
  }

  lemma SearchVerdict(
    g: ProtocolGraph, visited: set<string>, cycles: seq<seq<string>>, finished: seq<string>, order: seq<string>,
    r: seq<seq<string>>)
    requires Searching(g, visited, {}, [], cycles, finished) && Closings(g, cycles, visited)
    requires SetOf(order) == Addresses(g) && forall k | 0 <= k < |order| :: order[k] in visited
    requires multiset(r) == multiset(cycles)
    ensures forall c | c in r :: SimpleCycle(g, c)
    ensures forall p | ClosedWalk(g, p) && Rooted(g, p[0]) :: MeetsReport(r, p)
    ensures r == [] <==> !CycleWithinReach(g)
    ensures Sortable(g) ==> (r == [] <==> !Cyclic(g))
    ensures Consistent(g) ==> OncePerEdge(r)
  {
    hide Searching, Closings, OncePerEdge, Consistent, LowerCase, Cyclic, SimpleCycle, Rooted, MeetsReport, Walk,
      CycleWithinReach, Addresses, SetOf;
    ReportsAreSound(g, visited, cycles, finished, r);
    if Consistent(g) { OnceInBoth(g, cycles, visited, r); }
    forall p | ClosedWalk(g, p) && Rooted(g, p[0]) ensures MeetsReport(r, p) {
      CycleIsMet(g, visited, cycles, finished, order, p);
      MetInBoth(cycles, r, p);
    }
    SomethingIsMet(g, r);
    if Sortable(g) { ReachIsNoRestriction(g); }
  }

  /** Where case makes no difference, every cycle is one that a node leads to. */
  lemma ReachIsNoRestriction(g: ProtocolGraph)
    requires Sortable(g)
    ensures CycleWithinReach(g) <==> Cyclic(g)
  {
    CyclicMeansClosedWalk(g);
    if Cyclic(g) {
      var p :| ClosedChain(g, p);
      ClosedChainInside(g, p);
      ChainIsWalk(g, p);
      IndexedIn(p, 0);
      ReachesItself(g, p[0]);
      assert ClosedWalk(g, p);
    }
  }

  /** With nothing on the path, what is visited is closed under edges. */
  lemma VisitedIsClosed(
    g: ProtocolGraph, visited: set<string>, cycles: seq<seq<string>>, finished: seq<string>, u: string, w: string)
    requires Searching(g, visited, {}, [], cycles, finished) && u in visited && w in Neighbors(g, u)
    ensures w in visited
  {
    hide Neighbors, Distinct, Walk, Rooted;
    assert u in SetOf(finished);
    var i :| 0 <= i < |finished| && finished[i] == u;
    if w in finished[..i] {
      assert w in SetOf(finished);
    } else {
      var c :| c in cycles && |c| > 1 && c[|c| - 2] == u && c[|c| - 1] == w;
      assert SimpleCycle(g, c) && c[0] in visited;
    }
  }

  lemma VisitedHasFinished(
    g: ProtocolGraph, visited: set<string>, cycles: seq<seq<string>>, finished: seq<string>, v: string)
    requires Searching(g, visited, {}, [], cycles, finished) && v in visited
    ensures v in finished
  {
    NotInSetOf(finished, v);
  }

  /** With every node visited and none on the path, whatever a node leads to has finished. */
  lemma RootedHasFinished(
    g: ProtocolGraph, visited: set<string>, cycles: seq<seq<string>>, finished: seq<string>, order: seq<string>,
    v: string)
    requires Searching(g, visited, {}, [], cycles, finished)
    requires SetOf(order) == Addresses(g) && forall k | 0 <= k < |order| :: order[k] in visited
    requires Rooted(g, v)
    ensures v in finished
  {
    var r :| r in Addresses(g) && Reaches(g, r, v);
    NotInSetOf(order, r);
    hide Searching, Neighbors, Addresses;
    forall u, w | u in visited && w in Neighbors(g, u) ensures w in visited {
      VisitedIsClosed(g, visited, cycles, finished, u, w);
    }
    var q :| WalkBetween(g, q, r, v);
    ClosedSetHoldsWalk(g, visited, q);
    IndexedIn(q, |q| - 1);
    VisitedHasFinished(g, visited, cycles, finished, v);
  }

  lemma CycleIsMet(
    g: ProtocolGraph, visited: set<string>, cycles: seq<seq<string>>, finished: seq<string>, order: seq<string>,
    p: seq<string>)
    requires Searching(g, visited, {}, [], cycles, finished)
    requires SetOf(order) == Addresses(g) && forall k | 0 <= k < |order| :: order[k] in visited
    requires ClosedWalk(g, p) && Rooted(g, p[0])
    ensures MeetsReport(cycles, p)
  {
    if !MeetsReport(cycles, p) {
      RootedHasFinished(g, visited, cycles, finished, order, p[0]);
      FinishedWalkDescends(g, finished, cycles, p);
    }
  }

  /** A walk from a finished vertex along unreported edges goes down the finish order. */
  lemma {:induction false} FinishedWalkDescends(
    g: ProtocolGraph, finished: seq<string>, cycles: seq<seq<string>>, p: seq<string>)
    requires FinishedAfterNeighbors(g, finished, cycles) && Walk(g, p) && p[0] in finished
    requires !MeetsReport(cycles, p)
    ensures p[|p| - 1] in finished
    ensures |p| > 1 ==> IndexIn(finished, p[|p| - 1]) < IndexIn(finished, p[0])
  {
    if |p| > 1 {
      assert p[0 + 1] in Neighbors(g, p[0]);
      assert !ClosesReport(cycles, p[0], p[0 + 1]);
      var i := IndexIn(finished, p[0]);
      assert p[1] in finished[..i];
      var j :| 0 <= j < i && finished[j] == p[1];
      assert IndexIn(finished, p[1]) <= j;
      WalkSlice(g, p, 1, |p|);
      forall k | 0 <= k < |p[1..]| - 1 ensures !ClosesReport(cycles, p[1..][k], p[1..][k + 1]) {
        assert p[1..][k] == p[k + 1] && p[1..][k + 1] == p[(k + 1) + 1];
      }
      FinishedWalkDescends(g, finished, cycles, p[1..]);
    }
  }
}
