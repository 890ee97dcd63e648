/** Kahn's topological sort over an indegree table, and the acyclicity test built on it. The
    table counts edges by their keys as they are, and is counted down along the neighbours
    of lowered addresses. */
module Kahn {
  import opened Ordering
  import opened Text
  import opened ProtocolGraphs

  // ---- counting up and down ----

  /** The positions at which the lists kept under `from` name `v`. */
  ghost function Places(lists: map<string, seq<string>>, from: set<string>, v: string): set<(string, int)> {
    set a, i | a in from && a in lists && 0 <= i < |lists[a]| && lists[a][i] == v :: (a, i)
  }

  lemma PlacesInLonger(a: string, list: seq<string>, last: string, v: string)
    ensures Places(map[a := list + [last]], {a}, v)
         == Places(map[a := list], {a}, v) + (if last == v then {(a, |list|)} else {})
    ensures (a, |list|) !in Places(map[a := list], {a}, v)
  {
  }

  lemma {:induction false} PlacesInList(a: string, list: seq<string>, v: string)
    ensures |Places(map[a := list], {a}, v)| == multiset(list)[v]
  {
    if list == [] {
      assert Places(map[a := list], {a}, v) == {};
    } else {
      hide Places;
      var init, last := list[..|list| - 1], list[|list| - 1];
      assert list == init + [last];
      PlacesInList(a, init, v);
      PlacesInLonger(a, init, last, v);
    }
  }

  lemma PlacesAdd(lists: map<string, seq<string>>, from: set<string>, a: string, v: string)
    requires a in lists && a !in from
    ensures |Places(lists, from + {a}, v)| == |Places(lists, from, v)| + multiset(lists[a])[v]
  {
    PlacesInList(a, lists[a], v);
    assert Places(lists, from + {a}, v) == Places(lists, from, v) + Places(map[a := lists[a]], {a}, v);
  }

  lemma PlacesGrow(lists: map<string, seq<string>>, from: set<string>, more: set<string>, v: string)
    requires from <= more
    ensures |Places(lists, from, v)| <= |Places(lists, more, v)|
  {
    SubsetCardinality(Places(lists, from, v), Places(lists, more, v));
  }

  /** How many edges lead into `v`; this is where its count starts. */
  ghost function Demand(g: ProtocolGraph, v: string): nat { |Places(g.adjacency, g.adjacency.Keys, v)| }

  /** The neighbours looked up when a node is taken. */
  ghost function Followed(g: ProtocolGraph): map<string, seq<string>> { map u | u in Addresses(g) :: Neighbors(g, u) }

  /** How often `v` has been counted down when the nodes of `done` have been taken. */
  ghost function Supply(g: ProtocolGraph, done: set<string>, v: string): nat { |Places(Followed(g), done, v)| }

  /** The neighbours met when the entries are taken one after the other. */
  ghost function Met(g: ProtocolGraph, list: seq<string>): seq<string> {
    if list == [] then [] else Met(g, list[..|list| - 1]) + Neighbors(g, list[|list| - 1])
  }

  lemma {:induction false} MetIsSupply(g: ProtocolGraph, list: seq<string>, v: string)
    requires Distinct(list) && SetOf(list) <= Addresses(g)
    ensures multiset(Met(g, list))[v] == Supply(g, SetOf(list), v)
  {
    if list == [] {
      assert Places(Followed(g), SetOf(list), v) == {};
    } else {
      var n := |list| - 1;
      assert list == list[..n] + [list[n]];
      assert SetOf(list) == SetOf(list[..n]) + {list[n]};
      hide Addresses;
      MetIsSupply(g, list[..n], v);
      assert list[n] !in list[..n];
      PlacesAdd(Followed(g), SetOf(list[..n]), list[n], v);
    }
  }

  lemma MetAppend(g: ProtocolGraph, list: seq<string>, u: string)
    ensures Met(g, list + [u]) == Met(g, list) + Neighbors(g, u)
  {
    assert (list + [u])[..|list|] == list;
  }

  lemma {:induction false} MetPrefix(g: ProtocolGraph, list: seq<string>, k: nat)
    requires k <= |list|
    ensures Met(g, list[..k]) <= Met(g, list)
  {
    if k == |list| {
      assert list[..k] == list;
    } else {
      var n := |list| - 1;
      MetPrefix(g, list[..n], k);
      assert list[..n][..k] == list[..k];
    }
  }

  // ---- which order ----

  /** `v` has been met as often as there are edges into it. */
  ghost predicate Freed(g: ProtocolGraph, met: seq<string>, v: string) {
    Demand(g, v) <= multiset(met)[v]
  }

  lemma FreedStays(g: ProtocolGraph, met: seq<string>, more: seq<string>, v: string)
    requires met <= more && Freed(g, met, v)
    ensures Freed(g, more, v)
  {
    assert more == met + more[|met|..];
  }

  /** Every entry is freed by the entries before it. */
  ghost predicate Released(g: ProtocolGraph, list: seq<string>) {
    forall i | 0 <= i < |list| :: Freed(g, Met(g, list[..i]), list[i])
  }

  /** `x` goes before `y`: it is freed earlier, or both are free from the start and `x` is
      the smaller one. */
  ghost predicate InTurn(g: ProtocolGraph, met: seq<string>, x: string, y: string) {
    || (Demand(g, x) == 0 == Demand(g, y) && StringLess(x, y))
    || exists t :: 0 <= t <= |met| && Freed(g, met[..t], x) && !Freed(g, met[..t], y)
  }

  ghost predicate InTurnAll(g: ProtocolGraph, met: seq<string>, list: seq<string>) {
    forall i, j | 0 <= i < j < |list| :: InTurn(g, met, list[i], list[j])
  }

  /** All nodes, once each, in the order in which taking them one by one frees them. */
  ghost predicate QueueOrder(g: ProtocolGraph, list: seq<string>) {
    && Distinct(list) && SetOf(list) == Addresses(g)
    && Released(g, list) && InTurnAll(g, Met(g, list), list)
  }

  lemma InTurnStays(g: ProtocolGraph, met: seq<string>, more: seq<string>, x: string, y: string)
    requires met <= more && InTurn(g, met, x, y)
    ensures InTurn(g, more, x, y)
  {
    hide Demand, StringLess;
    if t :| 0 <= t <= |met| && Freed(g, met[..t], x) && !Freed(g, met[..t], y) { assert more[..t] == met[..t]; }
  }

  /** Whether `x` precedes a freed `y` has been decided by the time `y` is freed. */
  lemma InTurnEarly(g: ProtocolGraph, met: seq<string>, more: seq<string>, x: string, y: string)
    requires met <= more && Freed(g, met, y) && InTurn(g, more, x, y)
    ensures InTurn(g, met, x, y)
  {
    hide Demand, StringLess, Freed;
    if t :| 0 <= t <= |more| && Freed(g, more[..t], x) && !Freed(g, more[..t], y) {
      if t >= |met| { FreedStays(g, met, more[..t], y); } else { assert more[..t] == met[..t]; }
    }
  }

  lemma InTurnIsStrict(g: ProtocolGraph, met: seq<string>, x: string, y: string)
    requires InTurn(g, met, x, y)
    ensures !InTurn(g, met, y, x)
  {
    OrdersAreTotal();
    hide Demand, StringLess;
    forall t, s | 0 <= t <= |met| && 0 <= s <= |met| && Freed(g, met[..t], x) && Freed(g, met[..s], y)
      ensures Freed(g, met[..s], x) || Freed(g, met[..t], y)
    {
      if t <= s { FreedStays(g, met[..t], met[..s], x); } else { FreedStays(g, met[..s], met[..t], y); }
    }
  }

  lemma LaterIn(p: seq<string>, q: seq<string>, k: nat) returns (j: nat)
    requires SetOf(p) == SetOf(q) && Distinct(q)
    requires k < |p| && k < |q| && p[..k] == q[..k] && p[k] != q[k]
    ensures k < j < |p| && p[j] == q[k]
  {
    IndexedIn(q, k);
    assert q[k] in SetOf(p);
    j := IndexIn(p, q[k]);
    assert forall h | 0 <= h < k :: p[h] == p[..k][h] && q[h] == q[..k][h] && q[h] != q[k];
  }

  /** Where two such orders agree so far, they agree on the next entry. */
  lemma NextInTurn(g: ProtocolGraph, p: seq<string>, q: seq<string>, k: nat)
    requires QueueOrder(g, p) && QueueOrder(g, q)
    requires k < |p| && k < |q| && p[..k] == q[..k]
    ensures p[k] == q[k]
  {
    hide Met, Freed, InTurn, Distinct, SetOf, Addresses;
    if p[k] != q[k] {
      var j := LaterIn(p, q, k);
      var i := LaterIn(q, p, k);
      var met := Met(g, p[..k]);
      MetPrefix(g, p, k);
      MetPrefix(g, q, k);
      assert InTurn(g, Met(g, p), p[k], p[j]) && InTurn(g, Met(g, q), q[k], q[i]);
      InTurnEarly(g, met, Met(g, p), p[k], q[k]);
      InTurnEarly(g, met, Met(g, q), q[k], p[k]);
      InTurnIsStrict(g, met, p[k], q[k]);
    }
  }

  /** So a graph, whatever its addresses look like, has at most one order of this kind. */
  lemma QueueOrderIsUnique(g: ProtocolGraph, p: seq<string>, q: seq<string>)
    requires QueueOrder(g, p) && QueueOrder(g, q)
    ensures p == q
  {
    hide Released, InTurnAll, Distinct, SetOf, Addresses;
    DistinctCardinality(p);
    DistinctCardinality(q);
    for k := 0 to |p|
      invariant p[..k] == q[..k]
    {
      NextInTurn(g, p, q, k);
    }
    assert p == p[..|p|] && q == q[..|q|];
  }

  /** What goes before a freed entry is freed. */
  lemma InTurnFreed(g: ProtocolGraph, met: seq<string>, more: seq<string>, x: string, y: string)
    requires met <= more && Freed(g, met, y) && InTurn(g, more, x, y)
    ensures Freed(g, met, x)
  {
    InTurnEarly(g, met, more, x, y);
    hide Demand, StringLess;
    if t :| 0 <= t <= |met| && Freed(g, met[..t], x) && !Freed(g, met[..t], y) { FreedStays(g, met[..t], met, x); }
  }

  // ---- when there is none ----

  /** Taking all the other nodes frees none of these. */
  ghost predicate Blocked(g: ProtocolGraph, s: set<string>) {
    s != {} && s <= Addresses(g) && forall v | v in s :: Supply(g, Addresses(g) - s, v) < Demand(g, v)
  }

  /** The first listed member of a set has been freed by nodes outside it. */
  lemma FirstIsSupplied(g: ProtocolGraph, list: seq<string>, s: set<string>) returns (v: string)
    requires Distinct(list) && SetOf(list) == Addresses(g) && Released(g, list)
    requires s != {} && s <= Addresses(g)
    ensures v in s && Demand(g, v) <= Supply(g, Addresses(g) - s, v)
  {
    hide Demand, Addresses;
    var k := FirstMember(list, s);
    v := list[k];
    PrefixDistinct(list, k);
    MetIsSupply(g, list[..k], v);
    PlacesGrow(Followed(g), SetOf(list[..k]), Addresses(g) - s, v);
    assert Freed(g, Met(g, list[..k]), list[k]);
  }

  lemma ReleasedNotBlocked(g: ProtocolGraph, list: seq<string>, s: set<string>)
    requires Distinct(list) && SetOf(list) == Addresses(g) && Released(g, list)
    ensures !Blocked(g, s)
  {
    hide Demand, Addresses, Supply, Released;
    if s != {} && s <= Addresses(g) { var v := FirstIsSupplied(g, list, s); }
  }

  lemma PrefixDistinct(list: seq<string>, k: nat)
    requires Distinct(list) && k <= |list|
    ensures Distinct(list[..k]) && SetOf(list[..k]) <= SetOf(list)
  {
  }

  lemma {:induction false} FirstMember(list: seq<string>, s: set<string>) returns (k: nat)
    requires s != {} && s <= SetOf(list)
    ensures k < |list| && list[k] in s && SetOf(list[..k]) <= SetOf(list) - s
    decreases |list|
  {
    var n := |list| - 1;
    SetOfTake(list, n);
    if s * SetOf(list[..n]) != {} {
      k := FirstMember(list[..n], s * SetOf(list[..n]));
      assert list[..n][..k] == list[..k];
    } else {
      k := n;
    }
  }

  // ---- topological_sort ----

  /** What has been queued so far, taken or not: the nodes whose count is used up, in turn. */
  ghost predicate Queued(g: ProtocolGraph, table: map<string, int>, list: seq<string>, met: seq<string>) {
    && table.Keys == Addresses(g)
    && (forall v | v in table :: table[v] == Demand(g, v) - multiset(met)[v])
    && (forall v | v in table :: table[v] <= 0 <==> v in list)
    && Distinct(list) && SetOf(list) <= Addresses(g)
    && InTurnAll(g, met, list)
  }

  function ZeroSet(table: map<string, int>): set<string> { set a | a in table && table[a] == 0 }

  lemma QueuedStart(g: ProtocolGraph, table: map<string, int>, queue: seq<string>)
    requires table.Keys == Addresses(g) && forall v | v in table :: table[v] == Demand(g, v)
    requires queue == SortedSet(ZeroSet(table))
    ensures Queued(g, table, queue, [])
  {
    hide Demand, Addresses, Distinct, SetOf, InTurnAll, Increasing;
    forall v | v in table ensures table[v] <= 0 <==> v in queue { NotInSetOf(queue, v); }
    forall v | v in queue ensures Demand(g, v) == 0 { NotInSetOf(queue, v); }
    SourcesInTurn(g, queue);
  }

  lemma SourcesInTurn(g: ProtocolGraph, queue: seq<string>)
    requires Increasing(queue, StringLess) && Distinct(queue)
    requires forall v | v in queue :: Demand(g, v) == 0
    ensures InTurnAll(g, [], queue)
  {
    OrdersAreTotal();
    hide Demand, StringLess;
  }

  lemma CountedDown(g: ProtocolGraph, table: map<string, int>, met: seq<string>, w: string)
    requires forall v | v in table :: table[v] == Demand(g, v) - multiset(met)[v]
    ensures var t := if w in table then table[w := table[w] - 1] else table;
            t.Keys == table.Keys && forall v | v in t :: t[v] == Demand(g, v) - multiset(met + [w])[v]
  {
    hide Demand;
  }

  lemma InTurnAllStays(g: ProtocolGraph, met: seq<string>, more: seq<string>, list: seq<string>)
    requires met <= more && InTurnAll(g, met, list)
    ensures InTurnAll(g, more, list)
  {
    hide InTurn;
    forall i, j | 0 <= i < j < |list| ensures InTurn(g, more, list[i], list[j]) {
      InTurnStays(g, met, more, list[i], list[j]);
    }
  }

  /** What is freed now comes after everything freed before. */
  lemma InTurnLast(g: ProtocolGraph, met: seq<string>, list: seq<string>, w: string)
    requires InTurnAll(g, met, list) && forall v | v in list :: Freed(g, met, v)
    requires !Freed(g, met, w)
    ensures InTurnAll(g, met, list + [w])
  {
    hide Freed, Demand;
    assert met[..|met|] == met;
    var more := list + [w];
    forall i, j | 0 <= i < j < |more| ensures InTurn(g, met, more[i], more[j]) {
      if j < |list| { assert InTurn(g, met, list[i], list[j]); } else { assert more[i] in list; }
    }
  }

  lemma QueuedStep(g: ProtocolGraph, table: map<string, int>, list: seq<string>, met: seq<string>, w: string)
    requires Queued(g, table, list, met)
    ensures var t := if w in table then table[w := table[w] - 1] else table;
            Queued(g, t, if w in table && t[w] == 0 then list + [w] else list, met + [w])
  {
    hide Demand, Addresses, InTurnAll, Distinct, SetOf;
    CountedDown(g, table, met, w);
    if w in table && table[w] == 1 {
      forall v | v in list ensures Freed(g, met, v) { NotInSetOf(list, v); }
      InTurnLast(g, met, list, w);
      DistinctAppend(list, w);
      InTurnAllStays(g, met, met + [w], list + [w]);
    } else {
      InTurnAllStays(g, met, met + [w], list);
    }
  }

  lemma HeadOfQueue(ordering: seq<string>, queue: seq<string>)
    requires queue != []
    ensures ordering + queue == ordering + [queue[0]] + queue[1..] && queue[0] in ordering + queue
  {
    assert (ordering + queue)[|ordering|] == queue[0];
  }

  lemma ReleasedAppend(g: ProtocolGraph, list: seq<string>, v: string)
    requires Released(g, list) && Freed(g, Met(g, list), v)
    ensures Released(g, list + [v])
  {
    hide Freed, Met;
    var more := list + [v];
    forall i | 0 <= i < |more| ensures Freed(g, Met(g, more[..i]), more[i]) {
      if i < |list| { assert more[..i] == list[..i]; } else { assert more[..i] == list; }
    }
  }

  lemma QueuedFits(g: ProtocolGraph, table: map<string, int>, list: seq<string>, met: seq<string>)
    requires Queued(g, table, list, met)
    ensures |list| <= |Addresses(g)| == |table|
  {
    hide Demand, Addresses, InTurnAll, SetOf, Distinct;
    DistinctCardinality(list);
    SubsetCardinality(SetOf(list), Addresses(g));
    assert |table| == |table.Keys|;
  }

  /** Taking the head of the queue: it has been freed by what was taken before. */
  lemma QueuedTake(
    g: ProtocolGraph, table: map<string, int>, ordering: seq<string>, queue: seq<string>, met: seq<string>)
    requires Queued(g, table, ordering + queue, met) && queue != []
    requires met == Met(g, ordering) && Released(g, ordering)
    ensures ordering + queue == ordering + [queue[0]] + queue[1..] && Released(g, ordering + [queue[0]])
  {
    hide Demand, Addresses, InTurnAll, Met, SetOf, Released, Distinct;
    HeadOfQueue(ordering, queue);
    NotInSetOf(ordering + queue, queue[0]);
    ReleasedAppend(g, ordering, queue[0]);
  }

  /** With the queue empty, either everything is listed or what is not listed is blocked. */
  lemma QueuedEnd(g: ProtocolGraph, table: map<string, int>, ordering: seq<string>)
    requires Queued(g, table, ordering, Met(g, ordering)) && Released(g, ordering)
    ensures |ordering| == |table| ==> QueueOrder(g, ordering)
    ensures |ordering| != |table| ==> Blocked(g, Addresses(g) - SetOf(ordering))
  {
    hide Demand, Addresses, InTurnAll, Met, Released, Supply, SetOf, Distinct;
    QueuedFits(g, table, ordering, Met(g, ordering));
    DistinctCardinality(ordering);
    SubsetCardinality(SetOf(ordering), Addresses(g));
    var rest := Addresses(g) - SetOf(ordering);
    assert Addresses(g) - rest == SetOf(ordering);
    if rest == {} { DifferenceEmpty(Addresses(g), SetOf(ordering)); }
    forall v | v in rest ensures Supply(g, SetOf(ordering), v) < Demand(g, v) {
      NotInSetOf(ordering, v);
      MetIsSupply(g, ordering, v);
    }
  }

  /** The counts when the lists of `done`, and the targets in `part`, have been gone through. */
  ghost predicate CountedUp(g: ProtocolGraph, table: map<string, int>, done: set<string>, part: seq<string>) {
    && table.Keys == Addresses(g)
    && forall v | v in table :: table[v] == |Places(g.adjacency, done, v)| + multiset(part)[v]
  }

  lemma CountingStart(g: ProtocolGraph, table: map<string, int>)
    requires table == map a | a in Addresses(g) :: 0
    ensures CountedUp(g, table, {}, [])
  {
    hide Addresses;
    forall v | v in table ensures Places(g.adjacency, {}, v) == {} {}
  }

  lemma CountingTarget(g: ProtocolGraph, table: map<string, int>, done: set<string>, part: seq<string>, t: string)
    requires CountedUp(g, table, done, part)
    ensures CountedUp(g, if t in table then table[t := table[t] + 1] else table, done, part + [t])
  {
    hide Places, Addresses;
  }

  lemma CountingSource(g: ProtocolGraph, table: map<string, int>, done: set<string>, source: string)
    requires source in g.adjacency && source !in done && CountedUp(g, table, done, g.adjacency[source])
    ensures CountedUp(g, table, done + {source}, [])
  {
    hide Places, Addresses;
    forall v | v in table ensures |Places(g.adjacency, done + {source}, v)| == table[v] {
      PlacesAdd(g.adjacency, done, source, v);
    }
  }

  /** The initial table: one for every edge into the address, as often as it is listed. */
  method CountIncoming(g: ProtocolGraph) returns (indegree: map<string, int>)
    ensures indegree.Keys == Addresses(g)
    ensures forall v | v in indegree :: indegree[v] == Demand(g, v)
  {
    hide CountedUp, Addresses;
    indegree := map a | a in Addresses(g) :: 0;
    var todo := g.adjacency.Keys;
    CountingStart(g, indegree);
    assert g.adjacency.Keys - todo == {};
    while todo != {}
      invariant todo <= g.adjacency.Keys
      invariant CountedUp(g, indegree, g.adjacency.Keys - todo, [])
    {
      var source :| source in todo;
      var targets := g.adjacency[source];
      ghost var done := g.adjacency.Keys - todo;
      for i := 0 to |targets|
        invariant CountedUp(g, indegree, done, targets[..i])
      {
        TakeNext(targets, i);
        CountingTarget(g, indegree, done, targets[..i], targets[i]);
        if targets[i] in indegree {
          indegree := indegree[targets[i] := indegree[targets[i]] + 1];
        }
      }
      assert targets[..|targets|] == targets;
      CountingSource(g, indegree, done, source);
      assert g.adjacency.Keys - (todo - {source}) == done + {source};
      todo := todo - {source};
    }
    CountedAll(g, indegree, g.adjacency.Keys - todo);
  }

  lemma CountedAll(g: ProtocolGraph, table: map<string, int>, done: set<string>)
    requires CountedUp(g, table, done, []) && done == g.adjacency.Keys
    ensures table.Keys == Addresses(g) && forall v | v in table :: table[v] == Demand(g, v)
  {
    hide Addresses, Places;
  }

  // ---- where addresses are lower case, or nodes do not share their lists ----

  /** No two nodes that differ only in case, and so are looked up alike, have neighbours. */
  ghost predicate OwnLists(g: ProtocolGraph) {
    forall u, w | u in Addresses(g) && w in Addresses(g) && u != w && Lower(u) == Lower(w) :: Neighbors(g, u) == []
  }

  /** A node depends on an address that is not lower case. The edge is counted, and never
      counted down. */
  ghost predicate NeedsMixedCase(g: ProtocolGraph) {
    exists u, v :: v in Addresses(g) && u in Dependencies(g, v) && !IsLower(u)
  }

  lemma SortableHasOwnLists(g: ProtocolGraph)
    requires Sortable(g)
    ensures OwnLists(g) && !NeedsMixedCase(g)
  {
    hide IsLower, Addresses;
    forall u, v | u in Dependencies(g, v) ensures IsLower(u) { DependenciesAreNodes(g, v); }
    forall u | u in Addresses(g) ensures Lower(u) == u { NodesAreLower(g, u); }
  }

  /** Then a node with neighbours is lower case, so what is looked up are its own targets. */
  lemma OwnNeighbors(g: ProtocolGraph, u: string)
    requires Consistent(g) && OwnLists(g) && u in Addresses(g) && Neighbors(g, u) != []
    ensures IsLower(u) && u in g.adjacency && Neighbors(g, u) == g.adjacency[u]
  {
    LowerIsIdempotent(u);
    hide Addresses;
  }

  lemma FollowedAreEdges(g: ProtocolGraph, done: set<string>, v: string)
    requires Consistent(g) && OwnLists(g)
    ensures Places(Followed(g), done, v) <= Places(g.adjacency, g.adjacency.Keys, v)
    ensures forall p | p in Places(Followed(g), done, v) :: p.0 in done && IsLower(p.0)
  {
    hide Addresses, Consistent, OwnLists, IsLower;
    forall p | p in Places(Followed(g), done, v)
      ensures p in Places(g.adjacency, g.adjacency.Keys, v) && p.0 in done && IsLower(p.0)
    {
      OwnNeighbors(g, p.0);
    }
  }

  lemma EdgesAreFollowed(g: ProtocolGraph, done: set<string>, v: string)
    requires Dependencies(g, v) <= done <= Addresses(g)
    requires forall u | u in Dependencies(g, v) :: IsLower(u)
    ensures Places(g.adjacency, g.adjacency.Keys, v) <= Places(Followed(g), done, v)
  {
    hide Addresses;
    forall p | p in Places(g.adjacency, g.adjacency.Keys, v) ensures p in Places(Followed(g), done, v) {
      assert p.0 in Dependencies(g, v);
    }
  }

  /** Then a node is freed by the nodes of `done` exactly when these are all it depends on,
      and all of that is lower case. */
  lemma SuppliedByDependencies(g: ProtocolGraph, done: set<string>, v: string)
    requires Consistent(g) && OwnLists(g) && done <= Addresses(g)
    ensures Demand(g, v) <= Supply(g, done, v) <==>
            Dependencies(g, v) <= done && forall u | u in Dependencies(g, v) :: IsLower(u)
  {
    FollowedAreEdges(g, done, v);
    var follows, edges := Places(Followed(g), done, v), Places(g.adjacency, g.adjacency.Keys, v);
    SubsetCardinality(follows, edges);
    if follows == edges {
      forall u | u in Dependencies(g, v) ensures u in done && IsLower(u) {
        var i :| 0 <= i < |g.adjacency[u]| && g.adjacency[u][i] == v;
        assert (u, i) in edges;
      }
    } else if Dependencies(g, v) <= done && forall u | u in Dependencies(g, v) :: IsLower(u) {
      EdgesAreFollowed(g, done, v);
    }
  }

  /** Then some nodes block each other exactly when there is a cycle or a mixed-case dependency. */
  lemma BlockedWhenOwnLists(g: ProtocolGraph)
    requires Consistent(g) && OwnLists(g)
    ensures (exists s :: Blocked(g, s)) <==> Cyclic(g) || NeedsMixedCase(g)
  {
    hide Demand, Supply, Addresses, Dependencies, Consistent, OwnLists, IsLower;
    if s :| Blocked(g, s) && !NeedsMixedCase(g) {
      forall v | v in s ensures Dependencies(g, v) * s != {} {
        SuppliedByDependencies(g, Addresses(g) - s, v);
        DependenciesAreNodes(g, v);
        assert forall u | u in Dependencies(g, v) :: u in Addresses(g) - s || u in Dependencies(g, v) * s;
      }
      TrappedSetIsCyclic(g, s);
    }
    if NeedsMixedCase(g) {
      var u, v :| v in Addresses(g) && u in Dependencies(g, v) && !IsLower(u);
      SuppliedByDependencies(g, Addresses(g) - {v}, v);
      assert Blocked(g, {v});
    }
    if p :| ClosedChain(g, p) { ClosedChainBlocks(g, p); }
  }

  lemma ClosedChainBlocks(g: ProtocolGraph, p: seq<string>)
    requires Consistent(g) && OwnLists(g) && ClosedChain(g, p)
    ensures Blocked(g, SetOf(p))
  {
    ClosedChainInside(g, p);
    IndexedIn(p, 0);
    hide Demand, Supply, Addresses, Dependencies, Consistent, OwnLists, IsLower;
    var s := SetOf(p);
    forall v | v in s ensures Supply(g, Addresses(g) - s, v) < Demand(g, v) {
      var i :| 0 <= i < |p| && p[i] == v;
      var j := if i > 0 then i - 1 else |p| - 2;
      assert p[j] in Dependencies(g, p[j + 1]);
      IndexedIn(p, j);
      SuppliedByDependencies(g, Addresses(g) - s, v);
    }
  }

  /** What is freed by a prefix of the order depends on nothing else. */
  lemma FreedByPrefix(g: ProtocolGraph, list: seq<string>, k: nat, v: string)
    requires Consistent(g) && OwnLists(g) && QueueOrder(g, list) && k <= |list| && v in list
    ensures Freed(g, Met(g, list[..k]), v) <==> Dependencies(g, v) <= SetOf(list[..k])
  {
    hide Demand, Supply, Met, Addresses, Dependencies, Consistent, OwnLists, IsLower, InTurnAll;
    PrefixDistinct(list, k);
    MetIsSupply(g, list[..k], v);
    SuppliedByDependencies(g, SetOf(list[..k]), v);
    var i := IndexIn(list, v);
    PrefixDistinct(list, i);
    MetIsSupply(g, list[..i], v);
    SuppliedByDependencies(g, SetOf(list[..i]), v);
    assert Freed(g, Met(g, list[..i]), list[i]);
  }

  /** Everything an entry depends on comes before it. */
  ghost predicate DependenciesListed(g: ProtocolGraph, order: seq<string>) {
    forall i | 0 <= i < |order| :: Dependencies(g, order[i]) <= SetOf(order[..i])
  }

  lemma ListedAppend(g: ProtocolGraph, order: seq<string>, v: string)
    requires DependenciesListed(g, order) && Dependencies(g, v) <= SetOf(order)
    ensures DependenciesListed(g, order + [v])
  {
    hide Dependencies;
    var o := order + [v];
    forall i | 0 <= i < |o| ensures Dependencies(g, o[i]) <= SetOf(o[..i]) {
      if i == |order| { assert o[..i] == order; } else { assert o[..i] == order[..i]; }
    }
  }

  lemma DependenciesFirst(g: ProtocolGraph, order: seq<string>)
    requires Distinct(order) && SetOf(order) == Addresses(g) && DependenciesListed(g, order)
    ensures TopologicalOrder(g, order)
  {
    hide Dependencies;
    forall i, j | 0 <= i < |order| && 0 <= j < |order| && order[i] in Dependencies(g, order[j]) ensures i < j {
      assert order[i] in SetOf(order[..j]);
    }
  }

  lemma QueueOrderIsTopological(g: ProtocolGraph, list: seq<string>)
    requires Consistent(g) && OwnLists(g) && QueueOrder(g, list)
    ensures DependenciesListed(g, list) && TopologicalOrder(g, list)
  {
    forall i | 0 <= i < |list| ensures Dependencies(g, list[i]) <= SetOf(list[..i]) {
      FreedByPrefix(g, list, i, list[i]);
    }
    hide Demand, Met, Addresses, Dependencies, Consistent, OwnLists, InTurnAll, Released;
    DependenciesFirst(g, list);
  }

  lemma NothingMet(g: ProtocolGraph, queue: seq<string>)
    ensures Met(g, []) == [] && Released(g, []) && [] + queue == queue
  {
  }

  lemma NoneMet(met: seq<string>, s: seq<string>)
    ensures met + s[..0] == met && met + s[..|s|] == met + s
  {
  }

  lemma NextMet(met: seq<string>, s: seq<string>, i: nat)
    requires i < |s|
    ensures met + s[..i + 1] == met + s[..i] + [s[i]]
  {
    assert s[..i + 1] == s[..i] + [s[i]];
  }

  lemma NoNodes(g: ProtocolGraph, ordering: seq<string>)
    ensures Addresses(g) == {} <==> g.nodes == []
    ensures |Addresses(g)| == 0 <==> g.nodes == []
  {
    SetOfEmpty(AddressList(g.nodes));
    if |Addresses(g)| == 0 { assert Addresses(g) == {}; }
  }

  /** What it means that the queue has run empty. */
  lemma SortVerdict(g: ProtocolGraph, table: map<string, int>, ordering: seq<string>)
    requires Queued(g, table, ordering, Met(g, ordering)) && Released(g, ordering)
    ensures |ordering| == |table| ==> QueueOrder(g, ordering) && (ordering == [] <==> g.nodes == [])
    ensures |ordering| == |table| <==> !exists s :: Blocked(g, s)
    ensures Consistent(g) && OwnLists(g) && |ordering| == |table| ==> TopologicalOrder(g, ordering)
    ensures Consistent(g) && OwnLists(g) ==> (|ordering| == |table| <==> !Cyclic(g) && !NeedsMixedCase(g))
    ensures Sortable(g) ==> OwnLists(g) && !NeedsMixedCase(g)
  {
    hide Met, Released, Blocked, Addresses, Consistent, LowerCase, OwnLists, NeedsMixedCase, Cyclic, TopologicalOrder,
      Demand, InTurnAll, SetOf, Distinct;
    QueuedEnd(g, table, ordering);
    NoNodes(g, ordering);
    QueuedFits(g, table, ordering, Met(g, ordering));
    if |ordering| == |table| {
      forall s ensures !Blocked(g, s) { ReleasedNotBlocked(g, ordering, s); }
      if Consistent(g) && OwnLists(g) { QueueOrderIsTopological(g, ordering); }
    }
    if Consistent(g) && OwnLists(g) { BlockedWhenOwnLists(g); }
    if Sortable(g) { SortableHasOwnLists(g); }
  }

  /** On every graph: the queue order, or the empty tuple exactly when there is no node or some
      nodes are blocked. Unless nodes that have neighbours differ only in case, this is a
      topological order, or the empty tuple exactly when there is no node, a cycle, or a
      dependency on an address that is not lower case. */
  method TopologicalSort(g: ProtocolGraph) returns (r: seq<string>)
    ensures r != [] ==> QueueOrder(g, r)
    ensures r == [] <==> g.nodes == [] || exists s :: Blocked(g, s)
    ensures Consistent(g) && OwnLists(g) ==> (r != [] ==> TopologicalOrder(g, r))
    ensures Consistent(g) && OwnLists(g) ==> (r == [] <==> g.nodes == [] || Cyclic(g) || NeedsMixedCase(g))
    ensures Sortable(g) ==> (r == [] <==> g.nodes == [] || Cyclic(g))
  {
    hide Queued, Met, Neighbors, Released, Blocked, Addresses, SetOf, ZeroSet, Consistent, LowerCase, OwnLists,
      NeedsMixedCase, Cyclic, TopologicalOrder, QueueOrder, Increasing, Distinct, Demand;
    var indegree := CountIncoming(g);
    var queue := SortedSet(ZeroSet(indegree));
    var ordering: seq<string> := [];
    QueuedStart(g, indegree, queue);
    NothingMet(g, queue);
    while queue != []
      invariant Queued(g, indegree, ordering + queue, Met(g, ordering)) && Released(g, ordering)
      decreases |Addresses(g)| - |ordering|
    {
      ghost var before := ordering;
      ghost var met := Met(g, ordering);
      QueuedFits(g, indegree, ordering + queue, met);
      QueuedTake(g, indegree, ordering, queue, met);
      var current := queue[0];
      queue := queue[1..];
      ordering := ordering + [current];
      var neighbors := Neighbors(g, current);
      NoneMet(met, neighbors);
      for i := 0 to |neighbors|
        invariant Queued(g, indegree, ordering + queue, met + neighbors[..i])
      {
        var neighbor := neighbors[i];
        NextMet(met, neighbors, i);
        QueuedStep(g, indegree, ordering + queue, met + neighbors[..i], neighbor);
        if neighbor in indegree {
          indegree := indegree[neighbor := indegree[neighbor] - 1];
          if indegree[neighbor] == 0 {
            assert ordering + queue + [neighbor] == ordering + (queue + [neighbor]);
            queue := queue + [neighbor];
          }
        }
      }
      MetAppend(g, before, current);
    }
    assert ordering + [] == ordering;
    SortVerdict(g, indegree, ordering);
    if |ordering| != |indegree| {
      return [];
    }
    return ordering;
  }

  /** False on graphs without nodes and where nodes are blocked; where lists are not shared, that
      is, where there is a cycle or a dependency that is not lower case. */
  method IsDag(g: ProtocolGraph) returns (r: bool)
    ensures r <==> g.nodes != [] && !exists s :: Blocked(g, s)
    ensures Consistent(g) && OwnLists(g) ==> (r <==> g.nodes != [] && !Cyclic(g) && !NeedsMixedCase(g))
    ensures Sortable(g) ==> (r <==> g.nodes != [] && !Cyclic(g))
  {
    hide Consistent, LowerCase, OwnLists, NeedsMixedCase, Cyclic, TopologicalOrder, QueueOrder, Blocked;
    var order := TopologicalSort(g);
    r := order != [];
  }

  // ---- the exceptional cases occur ----

  /** An acyclic graph that is not sorted: its one edge is never followed, so its target is
      never freed. */
  lemma MixedCaseIsNotSorted() returns (g: ProtocolGraph)
    ensures Consistent(g) && OwnLists(g) && g.nodes != []
    ensures !Cyclic(g) && NeedsMixedCase(g)
  {
    var a, x := ProtocolNode("A", Token, "", map[]), ProtocolNode("x", Token, "", map[]);
    g := ProtocolGraph([a, x], [ProtocolEdge("A", "x", DependsOn, 1)], "A", map["A" := ["x"], "x" := []]);
    var order := AddressList(g.nodes);
    assert order == ["A", "x"];
    assert Dependencies(g, "x") == {"A"} && Dependencies(g, "A") == {};
    assert Lower("A")[0] == 'a' && Lower("x")[0] == 'x';
    assert order[0] in Addresses(g) && !IsLower("A");
    assert Neighbors(g, "A") == [] && Neighbors(g, "x") == [];
    assert order[0] in SetOf(order) && order[1] in SetOf(order);
    assert TopologicalOrder(g, order);
    OrderForbidsCycle(g, order);
  }

  /** The list of "a" is followed for "A" as well, which frees "x" before "a" has been taken. */
  function SharedList(): ProtocolGraph {
    ProtocolGraph(
      [ProtocolNode("A", Token, "", map[]), ProtocolNode("a", Token, "", map[]), ProtocolNode("x", Token, "", map[])],
      [ProtocolEdge("a", "x", DependsOn, 1), ProtocolEdge("x", "a", DependsOn, 1)], "A",
      map["A" := [], "a" := ["x"], "x" := ["a"]])
  }

  lemma SharedListNodes()
    ensures AddressList(SharedList().nodes) == ["A", "a", "x"] && Addresses(SharedList()) == {"A", "a", "x"}
  {
    assert AddressList(SharedList().nodes) == ["A", "a", "x"];
  }

  lemma SharedListNeighbors()
    ensures Neighbors(SharedList(), "A") == ["x"] && Lower("A") == Lower("a")
    ensures Neighbors(SharedList(), "a") == ["x"] && Neighbors(SharedList(), "x") == ["a"]
  {
    assert Lower("A") == "a" && Lower("a") == "a" && Lower("x") == "x";
  }

  lemma SharedListDemands()
    ensures Demand(SharedList(), "A") == 0 && Demand(SharedList(), "a") == 1 && Demand(SharedList(), "x") == 1
  {
    var g := SharedList();
    assert Places(g.adjacency, g.adjacency.Keys, "A") == {};
    assert Places(g.adjacency, g.adjacency.Keys, "a") == {("x", 0)};
    assert Places(g.adjacency, g.adjacency.Keys, "x") == {("a", 0)};
  }

  lemma SharedListMet()
    ensures Met(SharedList(), []) == [] && Met(SharedList(), ["A"]) == ["x"]
    ensures Met(SharedList(), ["A", "x"]) == ["x", "a"] && Met(SharedList(), ["A", "x", "a"]) == ["x", "a", "x"]
  {
    SharedListNeighbors();
    hide Neighbors, SharedList;
    var g := SharedList();
    MetAppend(g, [], "A");
    MetAppend(g, ["A"], "x");
    MetAppend(g, ["A", "x"], "a");
    assert ["A", "x"] + ["a"] == ["A", "x", "a"];
  }

  lemma SharedListInTurn()
    ensures InTurn(SharedList(), ["x", "a", "x"], "A", "x") && InTurn(SharedList(), ["x", "a", "x"], "A", "a")
    ensures InTurn(SharedList(), ["x", "a", "x"], "x", "a")
  {
    SharedListDemands();
    hide Demand, SharedList;
    var g, met := SharedList(), ["x", "a", "x"];
    assert met[..0] == [] && met[..1] == ["x"];
    assert Freed(g, met[..0], "A") && !Freed(g, met[..0], "x") && !Freed(g, met[..0], "a");
    assert Freed(g, met[..1], "x") && !Freed(g, met[..1], "a");
  }

  lemma SharedListReleased()
    ensures Released(SharedList(), ["A", "x", "a"])
  {
    SharedListDemands();
    SharedListMet();
    hide Demand, SharedList, Met;
    var g, order := SharedList(), ["A", "x", "a"];
    assert order[..0] == [] && order[..1] == ["A"] && order[..2] == ["A", "x"];
    assert Freed(g, [], "A") && Freed(g, ["x"], "x") && Freed(g, ["x", "a"], "a");
  }

  lemma SharedListIsCyclic()
    ensures Consistent(SharedList()) && Cyclic(SharedList())
  {
    SharedListNodes();
    hide Addresses, AddressList;
    assert ClosedChain(SharedList(), ["a", "x", "a"]);
  }

  lemma SharedListIsShared()
    ensures !OwnLists(SharedList())
  {
    SharedListNodes();
    SharedListNeighbors();
    hide Addresses, Neighbors, SharedList, Lower;
    assert "A" in Addresses(SharedList()) && "a" in Addresses(SharedList());
    assert "A"[0] != "a"[0];
  }

  lemma SharedListOrder()
    ensures QueueOrder(SharedList(), ["A", "x", "a"])
  {
    SharedListNodes();
    SharedListMet();
    SharedListInTurn();
    SharedListReleased();
    hide SharedList, Met, Released, InTurn, Addresses;
    assert SetOf(["A", "x", "a"]) == {"A", "a", "x"};
  }

  /** A cyclic graph that is sorted: two nodes that differ only in case share a list. */
  lemma SharedListIsSorted() returns (g: ProtocolGraph, order: seq<string>)
    ensures Consistent(g) && !OwnLists(g) && Cyclic(g)
    ensures order != [] && QueueOrder(g, order) && !TopologicalOrder(g, order)
  {
    hide SharedList, Consistent, OwnLists, Cyclic, QueueOrder, TopologicalOrder;
    g, order := SharedList(), ["A", "x", "a"];
    SharedListIsCyclic();
    SharedListIsShared();
    SharedListOrder();
    if TopologicalOrder(g, order) { OrderForbidsCycle(g, order); }
  }

  /** The graph without nodes has no cycle, and `IsDag` says no. */
  lemma EmptyGraphIsAcyclic() returns (g: ProtocolGraph)
    ensures Sortable(g) && !Cyclic(g) && g.nodes == []
  {
    g := ProtocolGraph([], [], "", map[]);
    if p :| ClosedChain(g, p) { ChainStaysInside(g, p); }
  }

  /** A consistent graph can be ordered exactly when it has no cycle. */
  lemma OrderableIffAcyclic(g: ProtocolGraph)
    requires Consistent(g)
    ensures (exists order :: TopologicalOrder(g, order)) <==> !Cyclic(g)
  {
    hide Consistent;
    if order :| TopologicalOrder(g, order) { OrderForbidsCycle(g, order); }
    if !Cyclic(g) { var order := GrowOrder(g, []); }
  }

  lemma WithoutRest(a: set<string>, all: set<string>, part: set<string>)
    requires a <= all && a * (all - part) == {}
    ensures a <= part
  {
    forall x | x in a ensures x in part { assert x !in a * (all - part); }
  }

  /** In an acyclic graph, dependencies-first listings extend to topological orders. */
  lemma {:induction false} GrowOrder(g: ProtocolGraph, prefix: seq<string>) returns (order: seq<string>)
    requires Consistent(g) && !Cyclic(g)
    requires Distinct(prefix) && SetOf(prefix) <= Addresses(g)
    requires DependenciesListed(g, prefix)
    ensures prefix <= order && TopologicalOrder(g, order)
    decreases Addresses(g) - SetOf(prefix)
  {
    hide Dependencies, Consistent, Cyclic, Addresses;
    var rest := Addresses(g) - SetOf(prefix);
    if rest == {} {
      order := prefix;
      DifferenceEmpty(Addresses(g), SetOf(prefix));
      DependenciesFirst(g, order);
    } else {
      if Trapped(g, rest) { TrappedSetIsCyclic(g, rest); }
      var v :| v in rest && Dependencies(g, v) * rest == {};
      DependenciesAreNodes(g, v);
      WithoutRest(Dependencies(g, v), Addresses(g), SetOf(prefix));
      DistinctAppend(prefix, v);
      ListedAppend(g, prefix, v);
      order := GrowOrder(g, prefix + [v]);
    }
  }
}
