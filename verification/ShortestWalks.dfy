/** Which of several shortest walks a breadth-first search finds: the one that, where two of
    them part, takes the neighbour listed first. */
module ShortestWalks {
  import opened Ordering
  import opened ProtocolGraphs
  import opened Exploration

  /** `x` is listed before `y`. */
  ghost predicate Sooner(s: seq<string>, x: string, y: string) {
    x in s && y in s && IndexIn(s, x) < IndexIn(s, y)
  }

  ghost predicate Agree(p: seq<string>, q: seq<string>, k: nat) {
    k <= |p| && k <= |q| && p[..k] == q[..k]
  }

  /** At position `k` the two walks part, and `p` goes on to a neighbour listed before the one
      `q` goes on to. */
  ghost predicate PartsAt(g: ProtocolGraph, p: seq<string>, q: seq<string>, k: nat) {
    0 < k < |p| && k < |q| && Agree(p, q, k) && Sooner(Neighbors(g, p[k - 1]), p[k], q[k])
  }

  ghost predicate PartsBefore(g: ProtocolGraph, p: seq<string>, q: seq<string>) {
    exists k :: PartsAt(g, p, q, k)
  }

  lemma AgreeStill(p: seq<string>, q: seq<string>, x: string, y: string, k: nat)
    requires Agree(p, q, k)
    ensures Agree(p + [x], q + [y], k)
  {
    assert (p + [x])[..k] == p[..k] && (q + [y])[..k] == q[..k];
  }

  lemma PartsStill(g: ProtocolGraph, p: seq<string>, q: seq<string>, x: string, y: string)
    requires PartsBefore(g, p, q)
    ensures PartsBefore(g, p + [x], q + [y])
  {
    hide Neighbors, Sooner;
    var k :| PartsAt(g, p, q, k);
    AgreeStill(p, q, x, y, k);
    assert PartsAt(g, p + [x], q + [y], k);
  }

  lemma AgreeBefore(p: seq<string>, q: seq<string>, k: nat, m: nat)
    requires Agree(p, q, k) && m <= k
    ensures Agree(p, q, m) && (m > 0 ==> p[m - 1] == q[m - 1]) && (m < k ==> p[m] == q[m])
  {
    assert p[..m] == p[..k][..m] && q[..m] == q[..k][..m];
    if m > 0 { assert p[..k][m - 1] == q[..k][m - 1]; }
    if m < k { assert p[..k][m] == q[..k][m]; }
  }

  lemma AgreeThrough(p: seq<string>, q: seq<string>, r: seq<string>, k: nat)
    requires Agree(p, q, k) && Agree(q, r, k)
    ensures Agree(p, r, k)
  {
  }

  lemma PartsThrough(g: ProtocolGraph, p: seq<string>, q: seq<string>, r: seq<string>)
    requires PartsBefore(g, p, q) && PartsBefore(g, q, r)
    ensures PartsBefore(g, p, r)
  {
    hide Neighbors, Sooner, Agree;
    var k :| PartsAt(g, p, q, k);
    var h :| PartsAt(g, q, r, h);
    var m := if k <= h then k else h;
    AgreeBefore(p, q, k, m);
    AgreeBefore(q, r, h, m);
    AgreeThrough(p, q, r, m);
    if k == h { SoonerThrough(Neighbors(g, p[m - 1]), p[m], q[m], r[m]); }
    assert PartsAt(g, p, r, m);
  }

  lemma SoonerThrough(s: seq<string>, x: string, y: string, z: string)
    requires Sooner(s, x, y) && Sooner(s, y, z)
    ensures Sooner(s, x, z)
  {
  }

  /** The first of all walks of its length between its ends. */
  ghost predicate FirstWalk(g: ProtocolGraph, p: seq<string>, u: string, v: string) {
    && WalkBetween(g, p, u, v)
    && forall q | WalkBetween(g, q, u, v) && |q| == |p| :: q == p || PartsBefore(g, p, q)
  }

  // ---- the tree of a search ----

  /** The earliest vertex from which the `i`-th could have been found. */
  ghost predicate IsParent(g: ProtocolGraph, order: seq<string>, j: nat, i: nat)
    requires j < i < |order|
  {
    order[i] in Neighbors(g, order[j]) && forall k | 0 <= k < j :: order[i] !in Neighbors(g, order[k])
  }

  ghost function TreeWalk(g: ProtocolGraph, order: seq<string>, i: nat): (p: seq<string>)
    requires i < |order|
    ensures p != [] && p[|p| - 1] == order[i]
    decreases i
  {
    if j: nat :| j < i && IsParent(g, order, j, i) then TreeWalk(g, order, j) + [order[i]] else [order[i]]
  }

  lemma ParentIsUnique(g: ProtocolGraph, order: seq<string>, j: nat, h: nat, i: nat)
    requires j < i < |order| && h < i && IsParent(g, order, j, i) && IsParent(g, order, h, i)
    ensures j == h
  {
  }

  lemma TreeWalkStep(g: ProtocolGraph, order: seq<string>, j: nat, i: nat)
    requires j < i < |order| && IsParent(g, order, j, i)
    ensures TreeWalk(g, order, i) == TreeWalk(g, order, j) + [order[i]]
  {
    hide IsParent;
    var h: nat :| h < i && IsParent(g, order, h, i) && TreeWalk(g, order, i) == TreeWalk(g, order, h) + [order[i]];
    ParentIsUnique(g, order, j, h, i);
  }

  /** In breadth-first order a parent is the vertex the next one was taken from. */
  lemma TakenFromParent(g: ProtocolGraph, order: seq<string>, i: nat) returns (j: nat)
    requires 0 < i < |order| && TakenNext(g, order, false, i)
    ensures j < i && IsParent(g, order, j, i) && FirstUnlisted(g, order, j, i)
    ensures forall k | 0 <= k < j :: Settled(g, order, k, i)
  {
    hide Neighbors;
    j :| 0 <= j < i && FirstUnlisted(g, order, j, i)
      && forall k | 0 <= k < i && (if false then j < k else k < j) :: Settled(g, order, k, i);
    forall k | 0 <= k < j ensures order[i] !in Neighbors(g, order[k]) { assert Settled(g, order, k, i); }
    FirstUnlistedIsNeighbor(g, order, j, i);
  }

  lemma FirstUnlistedIsNeighbor(g: ProtocolGraph, order: seq<string>, j: nat, i: nat)
    requires j < i < |order| && FirstUnlisted(g, order, j, i)
    ensures order[i] in Neighbors(g, order[j]) && order[i] !in order[..i]
  {
  }

  /** What is known of a breadth-first search, gathered: discovered so far, in order. */
  ghost predicate Searched(
    g: ProtocolGraph, origin: string, order: seq<string>, done: nat, dist: map<string, nat>)
  {
    Explored(g, origin, order, done, dist) && SearchOrder(g, order, false)
  }

  /** Later vertices have later parents. */
  lemma ParentsInOrder(g: ProtocolGraph, order: seq<string>, i: nat, k: nat, j: nat, h: nat)
    requires 0 < i < k < |order| && j < i && h < k && Distinct(order)
    requires IsParent(g, order, j, i) && FirstUnlisted(g, order, j, i) && IsParent(g, order, h, k)
    requires forall m | 0 <= m < j :: Settled(g, order, m, i)
    ensures j <= h
    ensures j == h ==> Sooner(Neighbors(g, order[j]), order[i], order[k])
  {
    assert order[k] !in order[..i];
    assert h < j ==> Settled(g, order, h, i);
    if j == h { SoonerUnlisted(g, order, j, i, order[k]); }
  }

  /** The first unlisted neighbour comes before any other unlisted one. */
  lemma SoonerUnlisted(g: ProtocolGraph, order: seq<string>, j: nat, i: nat, y: string)
    requires j < i < |order| && FirstUnlisted(g, order, j, i)
    requires y in Neighbors(g, order[j]) && y !in order[..i] && y != order[i]
    ensures Sooner(Neighbors(g, order[j]), order[i], y)
  {
    var neighbors := Neighbors(g, order[j]);
    var n :| 0 <= n < |neighbors| && neighbors[n] == order[i] && forall m | 0 <= m < n :: neighbors[m] in order[..i];
    var a, b := IndexIn(neighbors, order[i]), IndexIn(neighbors, y);
    assert a <= n;
    assert b >= n;
  }

  lemma SearchedFacts(
    g: ProtocolGraph, origin: string, order: seq<string>, done: nat, dist: map<string, nat>, i: nat)
    requires Searched(g, origin, order, done, dist) && i < |order|
    ensures Distinct(order) && order[0] == origin && dist.Keys == SetOf(order) && order[i] in dist
    ensures i == 0 <==> dist[order[i]] == 0
    ensures i > 0 ==> TakenNext(g, order, false, i)
    ensures done < |order| ==> order[done] in dist && dist[order[i]] <= dist[order[done]] + 1
  {
    hide Neighbors, TakenNext;
    assert forall k | 0 <= k < |order| :: order[k] in dist;
    if dist[order[i]] == 0 {
      var p :| WalkBetween(g, p, origin, order[i]) && |p| == 1;
      assert order[i] == order[0];
    }
  }

  /** Recorded distances cannot be beaten. */
  lemma RecordedIsLeast(
    g: ProtocolGraph, origin: string, order: seq<string>, done: nat, dist: map<string, nat>, i: nat, q: seq<string>)
    requires Searched(g, origin, order, done, dist) && i < |order| && WalkBetween(g, q, origin, order[i])
    ensures order[i] in dist && |q| > dist[order[i]]
  {
    SearchedFacts(g, origin, order, done, dist, i);
    WalkBound(g, origin, order, done, dist, q);
  }

  /** The vertex before the last of a shortest walk has been discovered, one step nearer. */
  lemma BeforeLast(
    g: ProtocolGraph, origin: string, order: seq<string>, done: nat, dist: map<string, nat>, i: nat, q: seq<string>)
    returns (k: nat)
    requires Searched(g, origin, order, done, dist) && 0 < i < |order|
    requires WalkBetween(g, q, origin, order[i]) && order[i] in dist && |q| == dist[order[i]] + 1
    ensures |q| > 1 && k < i && order[k] == q[|q| - 2] && order[k] in dist && dist[order[k]] + 1 == dist[order[i]]
    ensures order[i] in Neighbors(g, order[k]) && WalkBetween(g, q[..|q| - 1], origin, order[k])
  {
    SearchedFacts(g, origin, order, done, dist, i);
    var m := |q| - 1;
    assert q[(m - 1) + 1] in Neighbors(g, q[m - 1]);
    WalkSlice(g, q, 0, m);
    assert q[0..m] == q[..m];
    WalkBound(g, origin, order, done, dist, q[..m]);
    k := AtIndex(order, q[m - 1], dist);
    NearerIsEarlier(g, origin, order, done, dist, k, i);
    StepFromShortest(g, origin, order, done, dist, k, i);
  }

  lemma AtIndex(order: seq<string>, x: string, dist: map<string, nat>) returns (k: nat)
    requires dist.Keys == SetOf(order) && x in dist
    ensures k < |order| && order[k] == x
  {
    assert x in SetOf(order);
    k :| k < |order| && order[k] == x;
  }

  lemma NearerIsEarlier(
    g: ProtocolGraph, origin: string, order: seq<string>, done: nat, dist: map<string, nat>, k: nat, i: nat)
    requires Searched(g, origin, order, done, dist) && i < |order| && k < |order|
    ensures order[k] in dist && order[i] in dist
    ensures dist[order[k]] < dist[order[i]] ==> k < i
    ensures k <= i ==> dist[order[k]] <= dist[order[i]]
  {
    hide Neighbors, SearchOrder;
    ExploredKeys(g, origin, order, done, dist);
  }

  lemma StepFromShortest(
    g: ProtocolGraph, origin: string, order: seq<string>, done: nat, dist: map<string, nat>, k: nat, i: nat)
    requires Searched(g, origin, order, done, dist) && i < |order| && k < |order|
    requires order[i] in Neighbors(g, order[k])
    ensures order[k] in dist && order[i] in dist && dist[order[i]] <= dist[order[k]] + 1
  {
    SearchedFacts(g, origin, order, done, dist, k);
    assert HasWalk(g, origin, order[k], dist[order[k]]);
    var p :| WalkBetween(g, p, origin, order[k]) && |p| == dist[order[k]] + 1;
    WalkStep(g, p, order[i]);
    RecordedIsLeast(g, origin, order, done, dist, i, p + [order[i]]);
  }

  /** A vertex is one step further than its parent. */
  lemma ParentIsNearer(
    g: ProtocolGraph, origin: string, order: seq<string>, done: nat, dist: map<string, nat>, j: nat, i: nat)
    requires Searched(g, origin, order, done, dist) && j < i < |order| && IsParent(g, order, j, i)
    ensures order[j] in dist && order[i] in dist && dist[order[i]] == dist[order[j]] + 1
    ensures order[i] in Neighbors(g, order[j])
  {
    StepFromShortest(g, origin, order, done, dist, j, i);
    assert HasWalk(g, origin, order[i], dist[order[i]]);
    var q :| WalkBetween(g, q, origin, order[i]) && |q| == dist[order[i]] + 1;
    var k := BeforeLast(g, origin, order, done, dist, i, q);
    assert j <= k;
    NearerIsEarlier(g, origin, order, done, dist, j, k);
  }

  /** The tree walks are walks of the recorded lengths. */
  lemma {:induction false} TreeWalkIsWalk(
    g: ProtocolGraph, origin: string, order: seq<string>, done: nat, dist: map<string, nat>, i: nat)
    requires Searched(g, origin, order, done, dist) && i < |order|
    ensures order[i] in dist && WalkBetween(g, TreeWalk(g, order, i), origin, order[i])
    ensures |TreeWalk(g, order, i)| == dist[order[i]] + 1
    decreases i
  {
    hide Searched, TakenNext, IsParent, Neighbors, FirstUnlisted, Settled, Distinct, SetOf;
    SearchedFacts(g, origin, order, done, dist, i);
    if i > 0 {
      var j := TakenFromParent(g, order, i);
      TreeWalkIsWalk(g, origin, order, done, dist, j);
      TreeWalkStep(g, order, j, i);
      ParentIsNearer(g, origin, order, done, dist, j, i);
      WalkStep(g, TreeWalk(g, order, j), order[i]);
    }
  }

  /** Of two vertices at the same distance the earlier one has the earlier tree walk. */
  lemma {:induction false} TreeWalksInOrder(
    g: ProtocolGraph, origin: string, order: seq<string>, done: nat, dist: map<string, nat>, i: nat, k: nat)
    requires Searched(g, origin, order, done, dist) && i < k < |order|
    requires order[i] in dist && order[k] in dist && dist[order[i]] == dist[order[k]]
    ensures PartsBefore(g, TreeWalk(g, order, i), TreeWalk(g, order, k))
    decreases k
  {
    hide Searched, TakenNext, IsParent, Neighbors, FirstUnlisted, Settled, Distinct, SetOf, TreeWalk, PartsBefore,
      Sooner;
    SearchedFacts(g, origin, order, done, dist, i);
    SearchedFacts(g, origin, order, done, dist, k);
    var j := TakenFromParent(g, order, i);
    var h := TakenFromParent(g, order, k);
    ParentsInOrder(g, order, i, k, j, h);
    ParentIsNearer(g, origin, order, done, dist, j, i);
    ParentIsNearer(g, origin, order, done, dist, h, k);
    TreeWalkStep(g, order, j, i);
    TreeWalkStep(g, order, h, k);
    if j < h {
      TreeWalksInOrder(g, origin, order, done, dist, j, h);
      PartsStill(g, TreeWalk(g, order, j), TreeWalk(g, order, h), order[i], order[k]);
    } else {
      PartsHere(g, TreeWalk(g, order, j), order[i], order[k]);
    }
  }

  lemma PartsHere(g: ProtocolGraph, p: seq<string>, x: string, y: string)
    requires p != [] && Sooner(Neighbors(g, p[|p| - 1]), x, y)
    ensures PartsBefore(g, p + [x], p + [y])
  {
    hide Neighbors, Sooner;
    assert (p + [x])[..|p|] == p == (p + [y])[..|p|];
    assert PartsAt(g, p + [x], p + [y], |p|);
  }

  /** A tree walk is the first among the walks of its length. */
  lemma {:induction false} TreeWalkIsFirst(
    g: ProtocolGraph, origin: string, order: seq<string>, done: nat, dist: map<string, nat>, i: nat, q: seq<string>)
    requires Searched(g, origin, order, done, dist) && i < |order|
    requires WalkBetween(g, q, origin, order[i]) && |q| == |TreeWalk(g, order, i)|
    ensures q == TreeWalk(g, order, i) || PartsBefore(g, TreeWalk(g, order, i), q)
    decreases i
  {
    hide Searched, TakenNext, IsParent, Neighbors, FirstUnlisted, Settled, Distinct, SetOf, TreeWalk, PartsBefore,
      Walk;
    TreeWalkIsWalk(g, origin, order, done, dist, i);
    SearchedFacts(g, origin, order, done, dist, i);
    if i == 0 {
      assert q == [origin] == TreeWalk(g, order, i);
    } else {
      var k := BeforeLast(g, origin, order, done, dist, i, q);
      var j := TakenFromParent(g, order, i);
      var rest := q[..|q| - 1];
      assert q == rest + [order[i]];
      TreeWalkStep(g, order, j, i);
      ParentIsNearer(g, origin, order, done, dist, j, i);
      TreeWalkIsWalk(g, origin, order, done, dist, k);
      TreeWalkIsFirst(g, origin, order, done, dist, k, rest);
      ParentIsEarliest(g, order, j, k, i);
      if j < k {
        TreeWalksInOrder(g, origin, order, done, dist, j, k);
        if rest != TreeWalk(g, order, k) { PartsThrough(g, TreeWalk(g, order, j), TreeWalk(g, order, k), rest); }
      }
      if rest != TreeWalk(g, order, j) { PartsStill(g, TreeWalk(g, order, j), rest, order[i], order[i]); }
    }
  }

  lemma ParentIsEarliest(g: ProtocolGraph, order: seq<string>, j: nat, k: nat, i: nat)
    requires j < i < |order| && k < i && IsParent(g, order, j, i) && order[i] in Neighbors(g, order[k])
    ensures j <= k
  {
  }

  /** What comes after does not change a tree walk. */
  lemma {:induction false} TreeWalkStays(g: ProtocolGraph, order: seq<string>, more: seq<string>, i: nat)
    requires i < |order| && order <= more
    ensures TreeWalk(g, more, i) == TreeWalk(g, order, i)
    decreases i
  {
    hide Neighbors;
    forall j: nat | j < i ensures IsParent(g, more, j, i) <==> IsParent(g, order, j, i) {}
    if j: nat :| j < i && IsParent(g, order, j, i) {
      TreeWalkStays(g, order, more, j);
      hide IsParent;
      TreeWalkStep(g, order, j, i);
      TreeWalkStep(g, more, j, i);
    }
  }

  /** A newly discovered neighbour extends the tree walk of the vertex it is discovered from. */
  lemma NewLeaf(
    g: ProtocolGraph, origin: string, order: seq<string>, done: nat, dist: map<string, nat>, neighbors: seq<string>,
    n: nat)
    requires Searched(g, origin, order, done, dist) && done < |order|
    requires neighbors == Neighbors(g, order[done]) && n < |neighbors| && neighbors[n] !in dist
    requires forall m | 0 <= m < n :: neighbors[m] in dist
    ensures var w := neighbors[n];
            && order[done] in dist
            && Searched(g, origin, order + [w], done, dist[w := dist[order[done]] + 1])
            && TreeWalk(g, order + [w], |order|) == TreeWalk(g, order, done) + [w]
  {
    var w := neighbors[n];
    SearchedFacts(g, origin, order, done, dist, done);
    Discover(g, origin, order, done, dist, w);
    DiscoveredNext(g, origin, order, done, dist, neighbors, n);
    assert IsParent(g, order + [w], done, |order|) by { NewParent(g, origin, order, done, dist, w); }
    hide Searched, Explored, SearchOrder, IsParent, Neighbors;
    TreeWalkStep(g, order + [w], done, |order|);
    TreeWalkStays(g, order, order + [w], done);
  }

  lemma NewParent(
    g: ProtocolGraph, origin: string, order: seq<string>, done: nat, dist: map<string, nat>, w: string)
    requires Explored(g, origin, order, done, dist) && done < |order| && w in Neighbors(g, order[done]) && w !in dist
    ensures IsParent(g, order + [w], done, |order|)
  {
    hide Neighbors;
    forall k | 0 <= k < done ensures w !in Neighbors(g, order[k]) {}
  }

  /** A discovered vertex is reached; its tree walk is shortest, and the first of those. */
  lemma TreeWalkIsAnswer(
    g: ProtocolGraph, origin: string, order: seq<string>, done: nat, dist: map<string, nat>, i: nat)
    requires Searched(g, origin, order, done, dist) && i < |order|
    ensures var p := TreeWalk(g, order, i);
            Reaches(g, origin, order[i]) && Distance(g, origin, order[i]) + 1 == |p| &&
            FirstWalk(g, p, origin, order[i])
  {
    hide Searched, TreeWalk, PartsBefore, Walk, Neighbors;
    var p := TreeWalk(g, order, i);
    TreeWalkIsWalk(g, origin, order, done, dist, i);
    forall q | WalkBetween(g, q, origin, order[i]) ensures |q| >= |p| {
      RecordedIsLeast(g, origin, order, done, dist, i, q);
    }
    forall q | WalkBetween(g, q, origin, order[i]) && |q| == |p| ensures q == p || PartsBefore(g, p, q) {
      TreeWalkIsFirst(g, origin, order, done, dist, i, q);
    }
    assert HasWalk(g, origin, order[i], |p| - 1);
    DistanceIs(g, origin, order[i], |p| - 1);
  }

  // ---- on sorted lists of neighbours ----

  ghost predicate SortedLists(g: ProtocolGraph) {
    forall a | a in g.adjacency :: Increasing(g.adjacency[a], StringLess) && Distinct(g.adjacency[a])
  }

  lemma {:induction false} LexAt(p: seq<string>, q: seq<string>, k: nat)
    requires k < |p| && k < |q| && p[..k] == q[..k] && StringLess(p[k], q[k])
    ensures TupleLess(p, q)
    decreases k
  {
    if k > 0 {
      assert p[0] == p[..k][0] && q[0] == q[..k][0];
      assert p[1..][..k - 1] == p[..k][1..] && q[1..][..k - 1] == q[..k][1..];
      LexAt(p[1..], q[1..], k - 1);
    }
  }

  /** There the first walk is the least in tuple order. */
  lemma FirstIsLeast(g: ProtocolGraph, p: seq<string>, u: string, v: string, q: seq<string>)
    requires SortedLists(g) && FirstWalk(g, p, u, v)
    requires WalkBetween(g, q, u, v) && |q| == |p| && q != p
    ensures TupleLess(p, q)
  {
    var k :| PartsAt(g, p, q, k);
    OrdersAreTotal();
    hide StringLess, TupleLess;
    LexAt(p, q, k);
  }
}
