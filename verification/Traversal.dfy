/** Traversal of a protocol graph: breadth-first and depth-first search, shortest paths,
    ancestor and descendant closures. */
module Traversal {
  import opened Ordering
  import opened Text
  import opened ProtocolGraphs
  import opened Exploration
  import opened ShortestWalks

  /** `start or self.root`, lowered: a missing and an empty start both mean the root. */
  function Origin(g: ProtocolGraph, start: Option<string>): string {
    if start.Some? && start.value != "" then Lower(start.value) else Lower(g.rootNode)
  }

  /** Without a start, or with an empty one, a search starts at the root. */
  lemma OriginIs(g: ProtocolGraph, start: string)
    ensures Origin(g, None) == Origin(g, Some("")) == Lower(g.rootNode)
    ensures start != "" ==> Origin(g, Some(start)) == Lower(start)
  {
  }

  /** Listed by non-decreasing distance from the origin. */
  ghost predicate ByDistance(g: ProtocolGraph, origin: string, r: seq<string>) {
    && (forall v | v in r :: Reaches(g, origin, v))
    && (forall i, j | 0 <= i < j < |r| :: Distance(g, origin, r[i]) <= Distance(g, origin, r[j]))
  }

  lemma NoFurther(g: ProtocolGraph, origin: string, order: seq<string>, done: nat, dist: map<string, nat>, w: string)
    requires Explored(g, origin, order, done, dist) && done < |order| && w in dist
    ensures order[done] in dist && dist[w] <= dist[order[done]] + 1
  {
    assert forall i | 0 <= i < |order| :: order[i] in dist;
    assert w in SetOf(order);
    var i :| 0 <= i < |order| && order[i] == w;
    if i < done { assert dist[order[i]] <= dist[order[done]]; }
  }

  /** The waiting entries of the path search: the vertices not taken yet, each with the walk
      by which it was discovered. */
  ghost predicate Waiting(g: ProtocolGraph, order: seq<string>, done: nat, queue: seq<(string, seq<string>)>) {
    && done <= |order| && |queue| == |order| - done
    && forall k | done <= k < |order| :: queue[k - done] == (order[k], TreeWalk(g, order, k))
  }

  lemma WaitingStart(g: ProtocolGraph, start: string)
    ensures Waiting(g, [start], 0, [(start, [start])])
    ensures Searched(g, start, [start], 0, map[start := 0])
  {
    StartExploring(g, start);
    SearchOrderStart(g, start, false);
  }

  lemma WaitingPop(g: ProtocolGraph, order: seq<string>, done: nat, queue: seq<(string, seq<string>)>)
    requires Waiting(g, order, done, queue) && queue != []
    ensures done < |order| && queue[0] == (order[done], TreeWalk(g, order, done))
    ensures Waiting(g, order, done + 1, queue[1..])
  {
    hide TreeWalk;
  }

  lemma WaitingPush(
    g: ProtocolGraph, order: seq<string>, done: nat, queue: seq<(string, seq<string>)>, w: string, path: seq<string>)
    requires Waiting(g, order, done, queue) && TreeWalk(g, order + [w], |order|) == path
    ensures Waiting(g, order + [w], done, queue + [(w, path)])
  {
    hide TreeWalk;
    var more := order + [w];
    forall k | done <= k < |more| ensures (queue + [(w, path)])[k - done] == (more[k], TreeWalk(g, more, k)) {
      if k < |order| { TreeWalkStays(g, order, more, k); }
    }
  }

  lemma TrivialPath(g: ProtocolGraph, u: string)
    ensures FirstWalk(g, [u], u, u) && Reaches(g, u, u) && Distance(g, u, u) == 0
  {
    assert WalkBetween(g, [u], u, u);
    assert HasWalk(g, u, u, 0);
    DistanceIs(g, u, u, 0);
  }

  lemma SearchedKeys(g: ProtocolGraph, origin: string, order: seq<string>, done: nat, dist: map<string, nat>)
    requires Searched(g, origin, order, done, dist)
    ensures Explored(g, origin, order, done, dist) && dist.Keys == SetOf(order) && origin in dist
    ensures |order| <= |{origin} + Targets(g)|
    ensures done < |order| ==> order[done] in dist
  {
    ExploredKeys(g, origin, order, done, dist);
    ExploredFits(g, origin, order, done, dist);
  }

  lemma SearchedAdvance(g: ProtocolGraph, origin: string, order: seq<string>, done: nat, dist: map<string, nat>)
    requires Searched(g, origin, order, done, dist) && done < |order|
    requires forall w | w in Neighbors(g, order[done]) :: w in dist && dist[w] <= dist[order[done]] + 1
    ensures Searched(g, origin, order, done + 1, dist)
  {
    hide SearchOrder, Neighbors;
    ExploredKeys(g, origin, order, done, dist);
    Advance(g, origin, order, done, dist);
  }

  /** Every neighbour already discovered is close enough. */
  ghost predicate Near(neighbors: seq<string>, dist: map<string, nat>, most: nat) {
    forall w | w in neighbors :: w in dist && dist[w] <= most
  }

  lemma NearStart(neighbors: seq<string>, dist: map<string, nat>, most: nat)
    ensures Near(neighbors[..0], dist, most) && neighbors[..|neighbors|] == neighbors
  {
  }

  lemma NearStep(
    g: ProtocolGraph, origin: string, order: seq<string>, done: nat, dist: map<string, nat>, part: seq<string>,
    w: string)
    requires Searched(g, origin, order, done, dist) && done < |order| && w in dist && order[done] in dist
    requires Near(part, dist, dist[order[done]] + 1)
    ensures Near(part + [w], dist, dist[order[done]] + 1)
  {
    NoFurther(g, origin, order, done, dist, w);
  }

  lemma NearNew(part: seq<string>, dist: map<string, nat>, most: nat, w: string)
    requires Near(part, dist, most) && w !in dist
    ensures Near(part + [w], dist[w := most], most)
  {
  }

  lemma NearHas(neighbors: seq<string>, n: nat, dist: map<string, nat>, most: nat)
    requires n <= |neighbors| && Near(neighbors[..n], dist, most)
    ensures forall m | 0 <= m < n :: neighbors[m] in dist
  {
    forall m | 0 <= m < n ensures neighbors[m] in dist { assert neighbors[..n][m] in neighbors[..n]; }
  }

  method Bfs(g: ProtocolGraph, start: Option<string>) returns (visited: seq<string>)
    ensures Origin(g, start) !in Addresses(g) ==> visited == []
    ensures Origin(g, start) in Addresses(g) ==>
              && (forall v :: v in visited <==> Reaches(g, Origin(g, start), v))
              && Distinct(visited)
              && ByDistance(g, Origin(g, start), visited)
              && visited != [] && visited[0] == Origin(g, start) && SearchOrder(g, visited, false)
  {
    hide ByDistance, Searched, Explored, Reaches, Targets, Neighbors, Addresses, Distinct, SetOf, Lower, Near,
      SearchOrder, TreeWalk;
    var origin := Origin(g, start);
    if origin !in Addresses(g) {
      return [];
    }
    visited := [];
    var seen := {origin};
    var queue := [origin];
    ghost var order, dist: map<string, nat> := [origin], map[origin := 0];
    WaitingStart(g, origin);
    while queue != []
      invariant order == visited + queue
      invariant Searched(g, origin, order, |visited|, dist)
      invariant seen == dist.Keys
      decreases |{origin} + Targets(g)| - |visited|
    {
      ghost var done := |visited|;
      SearchedKeys(g, origin, order, done, dist);
      PopQueue(visited, queue);
      var current := queue[0];
      queue := queue[1..];
      visited := visited + [current];
      var neighbors := Neighbors(g, current);
      ghost var most := dist[current] + 1;
      NearStart(neighbors, dist, most);
      for i := 0 to |neighbors|
        invariant done < |order| && current == order[done] && current in dist && most == dist[current] + 1
        invariant |visited| == done + 1 && order == visited + queue
        invariant Searched(g, origin, order, done, dist)
        invariant seen == dist.Keys
        invariant Near(neighbors[..i], dist, most)
      {
        var neighbor := neighbors[i];
        TakeNext(neighbors, i);
        if neighbor in seen {
          NearStep(g, origin, order, done, dist, neighbors[..i], neighbor);
        } else {
          NearHas(neighbors, i, dist, most);
          NewLeaf(g, origin, order, done, dist, neighbors, i);
          NearNew(neighbors[..i], dist, most, neighbor);
          PushQueue(visited, queue, neighbor);
          KeysAfter(dist, neighbor, most);
          order, dist := order + [neighbor], dist[neighbor := most];
          seen := seen + {neighbor};
          queue := queue + [neighbor];
        }
      }
      NearStart(neighbors, dist, most);
      NearAll(neighbors, dist, most);
      SearchedAdvance(g, origin, order, done, dist);
    }
    assert visited == order;
    SearchedAll(g, origin, visited, dist);
  }

  lemma PopQueue(visited: seq<string>, queue: seq<string>)
    requires queue != []
    ensures visited + queue == visited + [queue[0]] + queue[1..]
    ensures (visited + queue)[|visited|] == queue[0]
  {
  }

  lemma PushQueue(visited: seq<string>, queue: seq<string>, w: string)
    requires visited != []
    ensures visited + queue + [w] == visited + (queue + [w])
    ensures (visited + queue + [w])[|visited| - 1] == (visited + queue)[|visited| - 1]
  {
  }

  lemma KeysAfter(dist: map<string, nat>, w: string, n: nat)
    requires w !in dist
    ensures dist[w := n].Keys == dist.Keys + {w}
    ensures forall v | v in dist :: dist[w := n][v] == dist[v]
  {
  }

  lemma SearchedAll(g: ProtocolGraph, origin: string, order: seq<string>, dist: map<string, nat>)
    requires Searched(g, origin, order, |order|, dist)
    ensures forall v :: v in order <==> Reaches(g, origin, v)
    ensures Distinct(order) && ByDistance(g, origin, order)
    ensures order != [] && order[0] == origin && SearchOrder(g, order, false)
  {
    hide Reaches, SearchOrder, Neighbors;
    ExploredAll(g, origin, order, dist);
  }

  /** The first, in the order of neighbours, of the walks of fewest edges between the lowered
      addresses, None when there is none. */
  method ShortestPath(g: ProtocolGraph, source: string, target: string) returns (r: Option<seq<string>>)
    ensures r.None? <==> !Reaches(g, Lower(source), Lower(target))
    ensures r.Some? ==> FirstWalk(g, r.value, Lower(source), Lower(target))
    ensures r.Some? ==> |r.value| == Distance(g, Lower(source), Lower(target)) + 1
  {
    hide Waiting, FirstWalk, Searched, Explored, SearchOrder, Reaches, HasWalk, Targets, Neighbors, Distinct, SetOf,
      Lower, TreeWalk, Near;
    var start, end := Lower(source), Lower(target);
    TrivialPath(g, start);
    if start == end {
      return Some([start]);
    }
    var queue: seq<(string, seq<string>)> := [(start, [start])];
    var seen := {start};
    ghost var order, done := [start], 0;
    ghost var dist: map<string, nat> := map[start := 0];
    WaitingStart(g, start);
    while queue != []
      invariant Searched(g, start, order, done, dist) && Waiting(g, order, done, queue)
      invariant seen == dist.Keys && end !in seen && done <= |order|
      invariant |queue| == |order| - done
      decreases |{start} + Targets(g)| - done
    {
      SearchedKeys(g, start, order, done, dist);
      WaitingPop(g, order, done, queue);
      var (current, path) := queue[0];
      queue := queue[1..];
      var neighbors := Neighbors(g, current);
      ghost var most := dist[current] + 1;
      NearStart(neighbors, dist, most);
      for i := 0 to |neighbors|
        invariant done < |order| && order[done] == current && path == TreeWalk(g, order, done)
        invariant Searched(g, start, order, done, dist) && Waiting(g, order, done + 1, queue)
        invariant seen == dist.Keys && end !in seen && current in dist && most == dist[current] + 1
        invariant |queue| == |order| - (done + 1)
        invariant Near(neighbors[..i], dist, most)
      {
        var neighbor := neighbors[i];
        TakeNext(neighbors, i);
        if neighbor in seen {
          NearStep(g, start, order, done, dist, neighbors[..i], neighbor);
        } else {
          var nextPath := path + [neighbor];
          NearHas(neighbors, i, dist, most);
          NewLeaf(g, start, order, done, dist, neighbors, i);
          NearNew(neighbors[..i], dist, most, neighbor);
          TreeWalkStays(g, order, order + [neighbor], done);
          KeysAfter(dist, neighbor, most);
          if neighbor == end {
            TreeWalkIsAnswer(g, start, order + [neighbor], done, dist[neighbor := most], |order|);
            return Some(nextPath);
          }
          WaitingPush(g, order, done + 1, queue, neighbor, nextPath);
          order := order + [neighbor];
          dist := dist[neighbor := most];
          seen := seen + {neighbor};
          queue := queue + [(neighbor, nextPath)];
        }
      }
      NearStart(neighbors, dist, most);
      NearAll(neighbors, dist, most);
      SearchedAdvance(g, start, order, done, dist);
      done := done + 1;
    }
    NotFound(g, start, order, dist, end);
    return None;
  }

  lemma NearAll(neighbors: seq<string>, dist: map<string, nat>, most: nat)
    requires Near(neighbors, dist, most)
    ensures forall w | w in neighbors :: w in dist && dist[w] <= most
  {
  }

  lemma NotFound(g: ProtocolGraph, origin: string, order: seq<string>, dist: map<string, nat>, end: string)
    requires Searched(g, origin, order, |order|, dist) && end !in dist
    ensures !Reaches(g, origin, end)
  {
    ExploredKeys(g, origin, order, |order|, dist);
    ExploredAll(g, origin, order, dist);
    assert end in order ==> end in SetOf(order);
  }

  /** The nodes, in graph order, that the root does not reach. */
  method DisconnectedFromRoot(g: ProtocolGraph) returns (r: seq<string>)
    ensures Lower(g.rootNode) !in Addresses(g) ==> r == AddressList(g.nodes)
    ensures Lower(g.rootNode) in Addresses(g) ==>
              r == Unreached(g, Lower(g.rootNode), AddressList(g.nodes))
  {
    var visited := Bfs(g, Some(g.rootNode));
    var reachable := SetOf(visited);
    r := [];
    ghost var root := Lower(g.rootNode);
    var all := AddressList(g.nodes);
    for i := 0 to |all|
      invariant root !in Addresses(g) ==> r == all[..i]
      invariant root in Addresses(g) ==> r == Unreached(g, root, all[..i])
    {
      assert all[..i + 1][..i] == all[..i];
      if all[i] !in reachable {
        r := r + [all[i]];
      }
    }
    assert all[..|all|] == all;
  }

  ghost function Unreached(g: ProtocolGraph, root: string, s: seq<string>): seq<string> {
    if s == [] then []
    else Unreached(g, root, s[..|s| - 1]) + (if Reaches(g, root, s[|s| - 1]) then [] else [s[|s| - 1]])
  }

  lemma UnreachedLast(g: ProtocolGraph, root: string, s: seq<string>, a: string)
    ensures Unreached(g, root, s + [a]) == Unreached(g, root, s) + (if Reaches(g, root, a) then [] else [a])
    ensures Unreached(g, root, []) == []
  {
    assert (s + [a])[..|s|] == s;
    hide Reaches;
  }

  /** What is not reached keeps the order of the list. */
  lemma {:induction false} UnreachedJoin(g: ProtocolGraph, root: string, s: seq<string>, t: seq<string>)
    ensures Unreached(g, root, s + t) == Unreached(g, root, s) + Unreached(g, root, t)
  {
    hide Reaches, Unreached;
    if t == [] {
      UnreachedLast(g, root, [], "");
      assert s + t == s;
    } else {
      var rest, last := t[..|t| - 1], t[|t| - 1];
      assert t == rest + [last];
      UnreachedJoin(g, root, s, rest);
      UnreachedLast(g, root, rest, last);
      UnreachedLast(g, root, s + rest, last);
      assert s + t == s + rest + [last];
      assert Unreached(g, root, s) + Unreached(g, root, t)
          == Unreached(g, root, s) + Unreached(g, root, rest) + (if Reaches(g, root, last) then [] else [last]);
    }
  }

  // ---- closures ----

  /** One step along edges, or against them. */
  ghost function Next(g: ProtocolGraph, against: bool, u: string): set<string> {
    if against then Dependencies(g, u) else SetOf(Neighbors(g, u))
  }

  /** Where case makes no difference, feeding into an address is reaching it along edges. */
  lemma FeedingIsReaching(g: ProtocolGraph, u: string, v: string)
    requires Sortable(g)
    ensures FeedsInto(g, u, v) <==> IsLower(u) && ReachesProperly(g, u, v)
  {
    if p :| Chain(g, p) && |p| > 1 && p[0] == u && p[|p| - 1] == v {
      ChainIsWalk(g, p);
      assert WalkBetween(g, p, u, v);
    }
    if p :| WalkBetween(g, p, u, v) && |p| > 1 && IsLower(u) {
      WalkIsChain(g, p);
      assert Chain(g, p);
    }
  }

  /** `w` lies at the other end of a non-empty walk from `from`, or into it. */
  ghost predicate Beyond(g: ProtocolGraph, against: bool, from: string, w: string) {
    if against then FeedsInto(g, w, from) else ReachesProperly(g, from, w)
  }

  /** A closure search part way: everything collected or stacked belongs to the closure, and
      whatever lies one step from the start or from a collected vertex is in one of the two. */
  ghost predicate Closing(
    g: ProtocolGraph, against: bool, from: string, collected: seq<string>, seen: set<string>, stack: seq<string>) {
    && Distinct(collected) && SetOf(collected) == seen
    && (forall w | w in stack || w in seen :: Beyond(g, against, from, w))
    && (forall w | w in Next(g, against, from) :: w in seen || w in stack)
    && (forall u, w | u in seen && w in Next(g, against, u) :: w in seen || w in stack)
  }

  lemma BeyondStep(g: ProtocolGraph, against: bool, from: string, u: string, w: string)
    requires u == from || Beyond(g, against, from, u)
    requires w in Next(g, against, u)
    ensures Beyond(g, against, from, w)
  {
    ReachesItself(g, from);
    if against {
      if u == from {
        assert Chain(g, [w, from]) && [w, from][1] == from;
      } else {
        var p :| Chain(g, p) && |p| > 1 && p[0] == u && p[|p| - 1] == from;
        assert Chain(g, [w] + p) && ([w] + p)[|p|] == from;
      }
    } else {
      ReachesStep(g, from, u, w);
    }
  }

  lemma ClosingStart(g: ProtocolGraph, against: bool, from: string, stack: seq<string>)
    requires SetOf(stack) == Next(g, against, from)
    ensures Closing(g, against, from, [], {}, stack)
  {
    forall w | w in stack ensures Beyond(g, against, from, w) {
      assert w in SetOf(stack);
      BeyondStep(g, against, from, from, w);
    }
  }

  lemma ClosingSkip(
    g: ProtocolGraph, against: bool, from: string, collected: seq<string>, seen: set<string>, stack: seq<string>,
    current: string)
    requires Closing(g, against, from, collected, seen, stack + [current]) && current in seen
    ensures Closing(g, against, from, collected, seen, stack)
  {
    assert forall w :: w in stack + [current] <==> w in stack || w == current;
  }

  lemma ClosingTake(
    g: ProtocolGraph, against: bool, from: string, collected: seq<string>, seen: set<string>, stack: seq<string>,
    current: string,
    nexts: seq<string>)
    requires Closing(g, against, from, collected, seen, stack + [current]) && current !in seen
    requires SetOf(nexts) == Next(g, against, current)
    ensures Closing(g, against, from, collected + [current], seen + {current}, stack + nexts)
    ensures current in (if against then g.adjacency.Keys else Targets(g))
  {
    assert forall w :: w in stack + [current] <==> w in stack || w == current;
    assert forall w :: w in stack + nexts <==> w in stack || w in SetOf(nexts);
    assert SetOf(collected + [current]) == seen + {current};
    forall w | w in nexts ensures Beyond(g, against, from, w) {
      assert w in SetOf(nexts);
      BeyondStep(g, against, from, current, w);
    }
    BeyondStays(g, against, from, current);
  }

  lemma BeyondStays(g: ProtocolGraph, against: bool, from: string, w: string)
    requires Beyond(g, against, from, w)
    ensures w in (if against then g.adjacency.Keys else Targets(g))
  {
    if against {
      var p :| Chain(g, p) && |p| > 1 && p[0] == w && p[|p| - 1] == from;
      assert p[0] in Dependencies(g, p[0 + 1]);
    } else {
      var p :| WalkBetween(g, p, from, w) && |p| > 1;
      assert p[(|p| - 2) + 1] in Neighbors(g, p[|p| - 2]);
    }
  }

  lemma ClosingDone(g: ProtocolGraph, against: bool, from: string, collected: seq<string>, seen: set<string>)
    requires Closing(g, against, from, collected, seen, [])
    ensures Distinct(collected)
    ensures forall w :: w in collected <==> Beyond(g, against, from, w)
  {
    forall w | Beyond(g, against, from, w) ensures w in SetOf(collected) {
      if against {
        var p :| Chain(g, p) && |p| > 1 && p[0] == w && p[|p| - 1] == from;
        BackwardClosed(g, from, collected, seen, p);
      } else {
        var p :| WalkBetween(g, p, from, w) && |p| > 1;
        ForwardClosed(g, from, collected, seen, p);
      }
    }
    forall w | w in collected ensures Beyond(g, against, from, w) { assert w in SetOf(collected); }
  }

  lemma ForwardClosed(g: ProtocolGraph, from: string, collected: seq<string>, seen: set<string>, p: seq<string>)
    requires Walk(g, p) && |p| > 1 && p[0] == from
    requires Closing(g, false, from, collected, seen, [])
    ensures p[|p| - 1] in seen
  {
    assert p[0 + 1] in Neighbors(g, p[0]);
    assert p[1] in Next(g, false, from);
    WalkSlice(g, p, 1, |p|);
    forall u, w | u in seen && w in Neighbors(g, u) ensures w in seen { assert w in Next(g, false, u); }
    ClosedSetHoldsWalk(g, seen, p[1..]);
    assert p[1..][|p| - 2] in SetOf(p[1..]);
  }

  lemma {:induction false} BackwardClosed(
    g: ProtocolGraph, from: string, collected: seq<string>, seen: set<string>, p: seq<string>)
    requires Chain(g, p) && |p| > 1 && p[|p| - 1] == from
    requires Closing(g, true, from, collected, seen, [])
    ensures p[0] in seen
    decreases |p|
  {
    assert p[0] in Dependencies(g, p[0 + 1]);
    assert p[0] in Next(g, true, p[1]);
    if |p| > 2 {
      forall i | 0 <= i < |p[1..]| - 1 ensures p[1..][i] in Dependencies(g, p[1..][i + 1]) {
        assert p[i + 1] in Dependencies(g, p[(i + 1) + 1]);
      }
      BackwardClosed(g, from, collected, seen, p[1..]);
    }
  }

  /** Everything the lowered address reaches along at least one edge, sorted. */
  method Descendants(g: ProtocolGraph, address: string) returns (r: seq<string>)
    ensures forall v :: v in r <==> ReachesProperly(g, Lower(address), v)
    ensures Distinct(r) && Increasing(r, StringLess)
  {
    hide Closing, ReachesProperly, SetOf, Neighbors;
    var normalized := Lower(address);
    var collected: seq<string> := [];
    var seen: set<string> := {};
    var stack := Neighbors(g, normalized);
    ClosingStart(g, false, normalized, stack);
    while stack != []
      invariant Closing(g, false, normalized, collected, seen, stack)
      decreases Targets(g) - seen, |stack|
    {
      var current := stack[|stack| - 1];
      ghost var before := stack;
      stack := stack[..|stack| - 1];
      assert before == stack + [current];
      if current in seen {
        ClosingSkip(g, false, normalized, collected, seen, stack, current);
      } else {
        ClosingTake(g, false, normalized, collected, seen, stack, current, Neighbors(g, current));
        seen := seen + {current};
        collected := collected + [current];
        stack := stack + Neighbors(g, current);
      }
    }
    ClosingDone(g, false, normalized, collected, seen);
    r := SortedStrings(collected);
    SameMembers(r, collected);
  }

  lemma SameMembers(r: seq<string>, s: seq<string>)
    requires SetOf(r) == SetOf(s)
    ensures forall x :: x in r <==> x in s
  {
    forall x ensures x in r <==> x in s { assert x in SetOf(r) <==> x in SetOf(s); }
  }

  /** Everything that feeds into the lowered address along at least one edge, sorted. */
  method Ancestors(g: ProtocolGraph, address: string) returns (r: seq<string>)
    ensures forall u :: u in r <==> FeedsInto(g, u, Lower(address))
    ensures Sortable(g) ==> forall u :: u in r <==> IsLower(u) && ReachesProperly(g, u, Lower(address))
    ensures Distinct(r) && Increasing(r, StringLess)
  {
    hide Closing, Sortable, ReachesProperly, ReverseAdjacency, SetOf, Dependencies, IsLower, FeedsInto;
    var incoming := BuildReverseAdjacency(g);
    var normalized := Lower(address);
    var collected: seq<string> := [];
    var seen: set<string> := {};
    var stack := if normalized in incoming then incoming[normalized] else [];
    ReverseEntry(g, normalized);
    ClosingStart(g, true, normalized, stack);
    while stack != []
      invariant Closing(g, true, normalized, collected, seen, stack)
      decreases g.adjacency.Keys - seen, |stack|
    {
      var current := stack[|stack| - 1];
      ghost var before := stack;
      stack := stack[..|stack| - 1];
      assert before == stack + [current];
      if current in seen {
        ClosingSkip(g, true, normalized, collected, seen, stack, current);
      } else {
        var parents := if current in incoming then incoming[current] else [];
        ReverseEntry(g, current);
        ClosingTake(g, true, normalized, collected, seen, stack, current, parents);
        seen := seen + {current};
        collected := collected + [current];
        stack := stack + parents;
      }
    }
    ClosingDone(g, true, normalized, collected, seen);
    r := SortedStrings(collected);
    SameMembers(r, collected);
    if Sortable(g) {
      forall u ensures u in r <==> IsLower(u) && ReachesProperly(g, u, normalized) {
        FeedingIsReaching(g, u, normalized);
      }
    }
  }

  lemma ReverseEntry(g: ProtocolGraph, v: string)
    ensures SetOf(if v in ReverseAdjacency(g) then ReverseAdjacency(g)[v] else []) == Dependencies(g, v)
  {
    if v !in ReverseAdjacency(g) {
      assert forall s | s in Dependencies(g, v) :: v in Targets(g);
    }
  }
}
