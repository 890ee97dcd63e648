/** What a breadth-first search knows part way through, and why that is enough. */
module Exploration {
  import opened Ordering
  import opened ProtocolGraphs

  /** Some walk with exactly `n` edges leads from `u` to `v`. */
  ghost predicate HasWalk(g: ProtocolGraph, u: string, v: string, n: nat) {
    exists p :: WalkBetween(g, p, u, v) && |p| == n + 1
  }

  ghost function LeastWalk(g: ProtocolGraph, u: string, v: string, k: nat, bound: nat): (n: nat)
    requires k <= bound && HasWalk(g, u, v, bound)
    requires forall m | 0 <= m < k :: !HasWalk(g, u, v, m)
    ensures HasWalk(g, u, v, n) && forall m | 0 <= m < n :: !HasWalk(g, u, v, m)
    decreases bound - k
  {
    if HasWalk(g, u, v, k) then k else LeastWalk(g, u, v, k + 1, bound)
  }

  /** The number of edges of a shortest walk. */
  ghost function Distance(g: ProtocolGraph, u: string, v: string): (n: nat)
    requires Reaches(g, u, v)
    ensures HasWalk(g, u, v, n) && forall m | 0 <= m < n :: !HasWalk(g, u, v, m)
  {
    var p :| WalkBetween(g, p, u, v);
    assert HasWalk(g, u, v, |p| - 1);
    LeastWalk(g, u, v, 0, |p| - 1)
  }

  lemma DistanceIs(g: ProtocolGraph, u: string, v: string, n: nat)
    requires HasWalk(g, u, v, n)
    requires forall p | WalkBetween(g, p, u, v) :: |p| >= n + 1
    ensures Reaches(g, u, v) && Distance(g, u, v) == n
  {
    var d := Distance(g, u, v);
    var p :| WalkBetween(g, p, u, v) && |p| == d + 1;
  }

  /** `order` lists what has been discovered from `origin`, by non-decreasing `dist`; the
      first `done` entries have had all their neighbours discovered, and nothing waiting
      is more than one step further than the next one to be taken. */
  ghost predicate Explored(g: ProtocolGraph, origin: string, order: seq<string>, done: nat, dist: map<string, nat>) {
    && done <= |order| && order != [] && order[0] == origin
    && Distinct(order) && dist.Keys == SetOf(order) && dist[origin] == 0
    && (forall v | v in dist :: HasWalk(g, origin, v, dist[v]))
    && (forall i, j | 0 <= i < j < |order| :: dist[order[i]] <= dist[order[j]])
    && (forall i, w | 0 <= i < done && w in Neighbors(g, order[i]) :: w in dist && dist[w] <= dist[order[i]] + 1)
    && (forall i | done <= i < |order| :: dist[order[i]] <= dist[order[done]] + 1)
  }

  lemma StartExploring(g: ProtocolGraph, origin: string)
    ensures Explored(g, origin, [origin], 0, map[origin := 0])
  {
    assert WalkBetween(g, [origin], origin, origin);
  }

  lemma ExploredKeys(g: ProtocolGraph, origin: string, order: seq<string>, done: nat, dist: map<string, nat>)
    requires Explored(g, origin, order, done, dist)
    ensures done <= |order| && dist.Keys == SetOf(order)
    ensures forall i | 0 <= i < |order| :: order[i] in dist
  {
    hide Neighbors, HasWalk, Distinct;
  }

  lemma Discover(
    g: ProtocolGraph, origin: string, order: seq<string>, done: nat, dist: map<string, nat>, w: string)
    requires Explored(g, origin, order, done, dist) && done < |order|
    requires w in Neighbors(g, order[done]) && w !in dist
    ensures Explored(g, origin, order + [w], done, dist[w := dist[order[done]] + 1])
  {
    hide Neighbors, HasWalk, Distinct, SetOf;
    ExploredKeys(g, origin, order, done, dist);
    NotInSetOf(order, w);
    DistinctAppend(order, w);
    LongerWalk(g, origin, order[done], w, dist[order[done]]);
  }

  lemma LongerWalk(g: ProtocolGraph, u: string, v: string, w: string, n: nat)
    requires HasWalk(g, u, v, n) && w in Neighbors(g, v)
    ensures HasWalk(g, u, w, n + 1)
  {
    var p :| WalkBetween(g, p, u, v) && |p| == n + 1;
    WalkStep(g, p, w);
  }

  lemma Advance(g: ProtocolGraph, origin: string, order: seq<string>, done: nat, dist: map<string, nat>)
    requires Explored(g, origin, order, done, dist) && done < |order|
    requires forall w | w in Neighbors(g, order[done]) :: w in dist && dist[w] <= dist[order[done]] + 1
    ensures Explored(g, origin, order, done + 1, dist)
  {
    hide Neighbors, HasWalk, Distinct, SetOf;
    ExploredKeys(g, origin, order, done, dist);
    assert done + 1 < |order| ==> dist[order[done]] <= dist[order[done + 1]];
  }

  /** A walk from the origin either ends at a discovered vertex it cannot beat the recorded
      distance of, or is longer than the distance of the next vertex to be taken. */
  lemma {:induction false} WalkBound(
    g: ProtocolGraph, origin: string, order: seq<string>, done: nat, dist: map<string, nat>, p: seq<string>)
    requires Explored(g, origin, order, done, dist)
    requires Walk(g, p) && p[0] == origin
    ensures (p[|p| - 1] in dist && dist[p[|p| - 1]] < |p|) || (done < |order| && dist[order[done]] + 1 < |p|)
    decreases |p|
  {
    if |p| > 1 {
      var k := |p| - 1;
      assert p[(k - 1) + 1] in Neighbors(g, p[k - 1]);
      WalkSlice(g, p, 0, k);
      WalkBound(g, origin, order, done, dist, p[..k]);
      if p[k - 1] in dist && dist[p[k - 1]] < k {
        assert p[k - 1] in SetOf(order);
        var i :| 0 <= i < |order| && order[i] == p[k - 1];
        if i >= done {
          assert order[done] in dist;
          assert dist[order[done]] <= dist[order[i]];
        }
      }
    }
  }

  /** With nothing left waiting, the discovered vertices are the reachable ones and the
      recorded distances are exact. */
  lemma ExploredAll(g: ProtocolGraph, origin: string, order: seq<string>, dist: map<string, nat>)
    requires Explored(g, origin, order, |order|, dist)
    ensures Distinct(order)
    ensures forall v :: v in order <==> Reaches(g, origin, v)
    ensures forall v | v in order :: v in dist && Distance(g, origin, v) == dist[v]
    ensures forall i, j | 0 <= i < j < |order| :: Distance(g, origin, order[i]) <= Distance(g, origin, order[j])
  {
    forall v | v in dist ensures Reaches(g, origin, v) && Distance(g, origin, v) == dist[v] {
      forall p | WalkBetween(g, p, origin, v) ensures |p| >= dist[v] + 1 {
        WalkBound(g, origin, order, |order|, dist, p);
      }
      DistanceIs(g, origin, v, dist[v]);
    }
    forall v | Reaches(g, origin, v) ensures v in SetOf(order) {
      var p :| WalkBetween(g, p, origin, v);
      WalkBound(g, origin, order, |order|, dist, p);
    }
    assert forall v :: v in order <==> v in dist;
  }

  /** What is discovered stays within the origin and the targets of edges. */
  lemma ExploredFits(g: ProtocolGraph, origin: string, order: seq<string>, done: nat, dist: map<string, nat>)
    requires Explored(g, origin, order, done, dist)
    ensures |order| <= |{origin} + Targets(g)|
  {
    forall v | v in dist ensures v in {origin} + Targets(g) {
      var p :| WalkBetween(g, p, origin, v) && |p| == dist[v] + 1;
      WalkMeetsTargets(g, p);
      assert p[|p| - 1] in SetOf(p);
    }
    DistinctCardinality(order);
    SubsetCardinality(SetOf(order), {origin} + Targets(g));
  }

  // ---- the order of a search ----

  /** All the neighbours of the `k`-th vertex are among the first `i`. */
  ghost predicate Settled(g: ProtocolGraph, order: seq<string>, k: nat, i: nat)
    requires k < |order| && i <= |order|
  {
    forall w | w in Neighbors(g, order[k]) :: w in order[..i]
  }

  /** The `i`-th vertex is the first neighbour of the `j`-th that is not listed before. */
  ghost predicate FirstUnlisted(g: ProtocolGraph, order: seq<string>, j: nat, i: nat)
    requires j < i < |order|
  {
    var neighbors := Neighbors(g, order[j]);
    && order[i] !in order[..i]
    && exists n :: 0 <= n < |neighbors| && neighbors[n] == order[i] && forall m | 0 <= m < n ::
        neighbors[m] in order[..i]
  }

  /** The `i`-th vertex is taken from an earlier one: in a depth-first search from the latest
      that still has an unlisted neighbour, in a breadth-first search from the earliest. */
  ghost predicate TakenNext(g: ProtocolGraph, order: seq<string>, deep: bool, i: nat)
    requires i < |order|
  {
    exists j :: 0 <= j < i && FirstUnlisted(g, order, j, i)
      && forall k | 0 <= k < i && (if deep then j < k else k < j) :: Settled(g, order, k, i)
  }

  ghost predicate SearchOrder(g: ProtocolGraph, order: seq<string>, deep: bool) {
    forall i | 0 < i < |order| :: TakenNext(g, order, deep, i)
  }

  lemma SearchOrderStart(g: ProtocolGraph, origin: string, deep: bool)
    ensures SearchOrder(g, [origin], deep)
  {
  }

  lemma TakenNextStays(g: ProtocolGraph, order: seq<string>, more: seq<string>, deep: bool, i: nat)
    requires i < |order| && order <= more && TakenNext(g, order, deep, i)
    ensures TakenNext(g, more, deep, i)
  {
    assert order[..i] == more[..i];
    var j :| 0 <= j < i && FirstUnlisted(g, order, j, i)
      && forall k | 0 <= k < i && (if deep then j < k else k < j) :: Settled(g, order, k, i);
    assert FirstUnlisted(g, more, j, i);
    forall k | 0 <= k < i && (if deep then j < k else k < j) ensures Settled(g, more, k, i) {
      assert Settled(g, order, k, i) && more[k] == order[k];
    }
  }

  /** The vertex the next one is taken from still has an unlisted neighbour. */
  lemma UnlistedIsOpen(g: ProtocolGraph, order: seq<string>, j: nat, i: nat)
    requires j < i < |order| && FirstUnlisted(g, order, j, i)
    ensures !Settled(g, order, j, i)
  {
  }

  lemma SettledAlike(g: ProtocolGraph, a: seq<string>, b: seq<string>, k: nat, i: nat)
    requires k < i <= |a| && i <= |b| && a[..i] == b[..i]
    ensures Settled(g, a, k, i) == Settled(g, b, k, i)
  {
    assert a[k] == a[..i][k] && b[k] == b[..i][k];
  }

  lemma SameParentSameVertex(g: ProtocolGraph, a: seq<string>, b: seq<string>, j: nat, i: nat)
    requires j < i < |a| && i < |b| && a[..i] == b[..i]
    requires FirstUnlisted(g, a, j, i) && FirstUnlisted(g, b, j, i)
    ensures a[i] == b[i]
  {
    assert a[j] == a[..i][j] && b[j] == b[..i][j];
    hide Neighbors;
  }

  /** Where two search orders agree so far, they agree on the next vertex. */
  lemma NextIsUnique(g: ProtocolGraph, a: seq<string>, b: seq<string>, deep: bool, i: nat)
    requires i < |a| && i < |b| && a[..i] == b[..i]
    requires TakenNext(g, a, deep, i) && TakenNext(g, b, deep, i)
    ensures a[i] == b[i]
  {
    hide FirstUnlisted, Settled;
    var j :| 0 <= j < i && FirstUnlisted(g, a, j, i)
      && forall k | 0 <= k < i && (if deep then j < k else k < j) :: Settled(g, a, k, i);
    var h :| 0 <= h < i && FirstUnlisted(g, b, h, i)
      && forall k | 0 <= k < i && (if deep then h < k else k < h) :: Settled(g, b, k, i);
    UnlistedIsOpen(g, a, j, i);
    UnlistedIsOpen(g, b, h, i);
    SettledAlike(g, a, b, j, i);
    SettledAlike(g, a, b, h, i);
    assert j == h;
    SameParentSameVertex(g, a, b, j, i);
  }

  /** A start and a set of vertices have one depth-first and one breadth-first order. */
  lemma SearchOrderIsUnique(g: ProtocolGraph, a: seq<string>, b: seq<string>, deep: bool)
    requires SearchOrder(g, a, deep) && SearchOrder(g, b, deep)
    requires a != [] && b != [] && a[0] == b[0]
    requires Distinct(a) && Distinct(b) && SetOf(a) == SetOf(b)
    ensures a == b
  {
    hide TakenNext, Distinct, SetOf;
    DistinctCardinality(a);
    DistinctCardinality(b);
    for i := 1 to |a|
      invariant a[..i] == b[..i]
    {
      NextIsUnique(g, a, b, deep, i);
    }
    assert a == a[..|a|] && b == b[..|b|];
  }

  /** A newly discovered neighbour keeps the breadth-first order. */
  lemma DiscoveredNext(
    g: ProtocolGraph, origin: string, order: seq<string>, done: nat, dist: map<string, nat>, neighbors: seq<string>,
    n: nat)
    requires Explored(g, origin, order, done, dist) && done < |order| && SearchOrder(g, order, false)
    requires neighbors == Neighbors(g, order[done]) && n < |neighbors| && neighbors[n] !in dist
    requires forall m | 0 <= m < n :: neighbors[m] in dist
    ensures SearchOrder(g, order + [neighbors[n]], false)
  {
    hide SearchOrder, HasWalk, Distinct, Neighbors;
    var more := order + [neighbors[n]];
    assert more[..|order|] == order;
    assert forall v :: v in order <==> v in dist;
    DiscoveredFirst(g, order, done, neighbors, n);
    assert forall k | 0 <= k < done :: more[k] == order[k];
    assert forall k | 0 <= k < done :: Settled(g, more, k, |order|);
    assert TakenNext(g, more, false, |order|);
    SearchOrderGrows(g, order, neighbors[n], false);
  }

  lemma DiscoveredFirst(g: ProtocolGraph, order: seq<string>, done: nat, neighbors: seq<string>, n: nat)
    requires done < |order| && neighbors == Neighbors(g, order[done]) && n < |neighbors| && neighbors[n] !in order
    requires forall m | 0 <= m < n :: neighbors[m] in order
    ensures FirstUnlisted(g, order + [neighbors[n]], done, |order|)
  {
    assert (order + [neighbors[n]])[..|order|] == order;
  }

  lemma SearchOrderGrows(g: ProtocolGraph, order: seq<string>, w: string, deep: bool)
    requires SearchOrder(g, order, deep) && TakenNext(g, order + [w], deep, |order|)
    ensures SearchOrder(g, order + [w], deep)
  {
    forall i | 0 < i < |order| ensures TakenNext(g, order + [w], deep, i) {
      TakenNextStays(g, order, order + [w], deep, i);
    }
  }
}
