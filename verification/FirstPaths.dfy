/** By which path a depth-first search over all nodes, in sorted order, first comes to a vertex,
    and which cycles it closes. */
module FirstPaths {
  import opened Ordering
  import opened ProtocolGraphs

  /** What the search goes through at the end of a path: the sorted nodes to begin with. */
  function Choices(g: ProtocolGraph, path: seq<string>): seq<string> {
    if path == [] then SortedStrings(AddressList(g.nodes)) else Neighbors(g, path[|path| - 1])
  }

  /** A way for the search to go: from a node along edges, without coming back. */
  ghost predicate SearchPath(g: ProtocolGraph, p: seq<string>) {
    Distinct(p) && forall i | 0 <= i < |p| :: p[i] in Choices(g, p[..i])
  }

  /** `x` is listed before `y` is. */
  ghost predicate ComesBefore(s: seq<string>, x: string, y: string) {
    exists k :: 0 <= k < |s| && s[k] == x && y !in s[..k + 1]
  }

  lemma OneComesBefore(s: seq<string>, x: string, y: string)
    requires x in s && y in s && x != y
    ensures ComesBefore(s, x, y) || ComesBefore(s, y, x)
  {
    var j, k := IndexIn(s, x), IndexIn(s, y);
    if j < k { assert y !in s[..j + 1]; } else { assert x !in s[..k + 1]; }
  }

  /** At step `i`, `m` is among the choices before the one taken. */
  ghost predicate PassedBy(g: ProtocolGraph, p: seq<string>, i: nat, m: string)
    requires i < |p|
  {
    ComesBefore(Choices(g, p[..i]), m, p[i])
  }

  ghost predicate ReachesAvoiding(g: ProtocolGraph, avoid: set<string>, u: string, v: string) {
    exists p :: WalkBetween(g, p, u, v) && SetOf(p) !! avoid
  }

  /** No choice passed by leads to `v` except back over the path. */
  ghost predicate NoneEarlier(g: ProtocolGraph, p: seq<string>, v: string) {
    forall i, m | 0 <= i < |p| && PassedBy(g, p, i, m) :: !ReachesAvoiding(g, SetOf(p[..i]), m, v)
  }

  /** The path takes, at every step, the first choice that leads to its end without coming
      back. */
  ghost predicate FirstPath(g: ProtocolGraph, p: seq<string>) {
    p != [] && SearchPath(g, p) && NoneEarlier(g, p, p[|p| - 1])
  }

  lemma SearchPathPrefix(g: ProtocolGraph, p: seq<string>, k: nat)
    requires SearchPath(g, p) && k <= |p|
    ensures SearchPath(g, p[..k])
  {
    hide Choices;
    forall i | 0 <= i < k ensures p[..k][i] in Choices(g, p[..k][..i]) { assert p[..k][..i] == p[..i]; }
  }

  lemma SearchPathStep(g: ProtocolGraph, p: seq<string>, w: string)
    requires SearchPath(g, p) && w in Choices(g, p) && w !in p
    ensures SearchPath(g, p + [w])
  {
    hide Choices;
    var q := p + [w];
    forall i | 0 <= i < |q| ensures q[i] in Choices(g, q[..i]) {
      if i < |p| { assert q[..i] == p[..i]; } else { assert q[..i] == p; }
    }
  }

  lemma SearchPathIsWalk(g: ProtocolGraph, p: seq<string>)
    requires SearchPath(g, p) && p != []
    ensures Walk(g, p) && Distinct(p) && p[0] in Addresses(g)
  {
    hide Neighbors;
    forall i | 0 <= i < |p| - 1 ensures p[i + 1] in Neighbors(g, p[i]) {
      assert p[..i + 1] != [] && p[..i + 1][i] == p[i];
      assert p[i + 1] in Choices(g, p[..i + 1]);
    }
    assert p[..0] == [] && p[0] in Choices(g, p[..0]);
    NotInSetOf(Choices(g, []), p[0]);
  }

  lemma PassedInPrefix(g: ProtocolGraph, p: seq<string>, k: nat, i: nat, m: string)
    requires i < k <= |p|
    ensures PassedBy(g, p[..k], i, m) <==> PassedBy(g, p, i, m)
  {
    assert p[..k][..i] == p[..i];
    hide ComesBefore;
  }

  /** From any entry the rest of a path leads to its end, avoiding what comes before. */
  lemma RestLeads(g: ProtocolGraph, p: seq<string>, i: nat, k: nat)
    requires SearchPath(g, p) && i <= k < |p|
    ensures ReachesAvoiding(g, SetOf(p[..i]), p[k], p[|p| - 1])
  {
    hide SearchPath, Distinct, SetOf, Walk, WalkBetween;
    SearchPathIsWalk(g, p);
    RestAvoids(p, i, k);
    WalkSlice(g, p, k, |p|);
    assert p[k..|p|] == p[k..];
  }

  lemma RestAvoids(p: seq<string>, i: nat, k: nat)
    requires Distinct(p) && i <= k < |p|
    ensures SetOf(p[k..]) !! SetOf(p[..i])
  {
    forall x | x in p[k..] ensures x !in p[..i] {}
  }

  lemma AvoidingJoin(g: ProtocolGraph, avoid: set<string>, u: string, v: string, w: string)
    requires ReachesAvoiding(g, avoid, u, v) && ReachesAvoiding(g, avoid, v, w)
    ensures ReachesAvoiding(g, avoid, u, w)
  {
    var p :| WalkBetween(g, p, u, v) && SetOf(p) !! avoid;
    var q :| WalkBetween(g, q, v, w) && SetOf(q) !! avoid;
    WalkJoin(g, p, q);
    hide Walk;
    assert SetOf(p + q[1..]) <= SetOf(p) + SetOf(q);
    assert WalkBetween(g, p + q[1..], u, w);
  }

  /** What leads to a vertex of a path, avoiding an earlier part of it, leads on to its end. */
  lemma LeadsOn(g: ProtocolGraph, p: seq<string>, i: nat, k: nat, m: string)
    requires SearchPath(g, p) && i <= k < |p| && ReachesAvoiding(g, SetOf(p[..i]), m, p[k])
    ensures ReachesAvoiding(g, SetOf(p[..i]), m, p[|p| - 1])
  {
    hide SearchPath, SetOf, ReachesAvoiding;
    RestLeads(g, p, i, k);
    AvoidingJoin(g, SetOf(p[..i]), m, p[k], p[|p| - 1]);
  }

  /** The beginning of a first path is a first path. */
  lemma FirstPathPrefix(g: ProtocolGraph, p: seq<string>, k: nat)
    requires FirstPath(g, p) && 0 < k <= |p|
    ensures FirstPath(g, p[..k])
  {
    hide PassedBy, ReachesAvoiding, SearchPath, SetOf;
    SearchPathPrefix(g, p, k);
    var q, v := p[..k], p[|p| - 1];
    forall i, m | 0 <= i < k && PassedBy(g, q, i, m) ensures !ReachesAvoiding(g, SetOf(q[..i]), m, q[k - 1]) {
      PassedInPrefix(g, p, k, i, m);
      assert q[..i] == p[..i];
      assert !ReachesAvoiding(g, SetOf(p[..i]), m, v);
      if ReachesAvoiding(g, SetOf(p[..i]), m, p[k - 1]) { LeadsOn(g, p, i, k - 1, m); }
    }
  }

  /** Of two different choices one comes before the other. */
  lemma OnePassedBy(g: ProtocolGraph, p: seq<string>, q: seq<string>, i: nat)
    requires SearchPath(g, p) && SearchPath(g, q) && i < |p| && i < |q| && p[..i] == q[..i] && p[i] != q[i]
    ensures PassedBy(g, p, i, q[i]) || PassedBy(g, q, i, p[i])
  {
    hide Choices, ComesBefore;
    OneComesBefore(Choices(g, p[..i]), p[i], q[i]);
  }

  lemma NoEarlierBranch(g: ProtocolGraph, p: seq<string>, q: seq<string>, i: nat)
    requires FirstPath(g, p) && FirstPath(g, q) && p[|p| - 1] == q[|q| - 1]
    requires i < |p| && i < |q| && p[..i] == q[..i]
    ensures !PassedBy(g, p, i, q[i])
  {
    hide PassedBy, ReachesAvoiding, SearchPath, SetOf;
    RestLeads(g, q, i, i);
  }

  lemma NextIsSame(g: ProtocolGraph, p: seq<string>, q: seq<string>, k: nat)
    requires FirstPath(g, p) && FirstPath(g, q) && p[|p| - 1] == q[|q| - 1]
    requires k < |p| && k < |q| && p[..k] == q[..k]
    ensures p[k] == q[k]
  {
    NoEarlierBranch(g, p, q, k);
    NoEarlierBranch(g, q, p, k);
    hide PassedBy, SearchPath, NoneEarlier;
    if p[k] != q[k] { OnePassedBy(g, p, q, k); }
  }

  /** There is at most one first path to a vertex. */
  lemma FirstPathIsUnique(g: ProtocolGraph, p: seq<string>, q: seq<string>)
    requires FirstPath(g, p) && FirstPath(g, q) && p[|p| - 1] == q[|q| - 1]
    ensures p == q
  {
    hide NoneEarlier, Choices;
    var k := 0;
    while k < |p| && k < |q|
      invariant k <= |p| && k <= |q| && p[..k] == q[..k]
    {
      NextIsSame(g, p, q, k);
      k := k + 1;
    }
    hide FirstPath;
    assert p[..|p|] == p && q[..|q|] == q;
    SameEnd(p, q);
  }

  /** A sequence without repetition cannot go on after its last entry. */
  lemma SameEnd(p: seq<string>, q: seq<string>)
    requires p != [] && q != [] && Distinct(p) && Distinct(q)
    requires (p <= q || q <= p) && p[|p| - 1] == q[|q| - 1]
    ensures p == q
  {
  }

  // ---- how the search keeps to first paths ----

  /** Whatever a choice passed by leads to, except back over the path, is in `done`. */
  ghost predicate Exhausted(g: ProtocolGraph, p: seq<string>, done: set<string>) {
    forall i, m, v | 0 <= i < |p| && PassedBy(g, p, i, m) && ReachesAvoiding(g, SetOf(p[..i]), m, v) :: v in done
  }

  lemma ExhaustedPrefix(g: ProtocolGraph, p: seq<string>, k: nat, done: set<string>)
    requires k <= |p| && Exhausted(g, p, done)
    ensures Exhausted(g, p[..k], done)
  {
    hide PassedBy, ReachesAvoiding;
    forall i, m, v | 0 <= i < k && PassedBy(g, p[..k], i, m) && ReachesAvoiding(g, SetOf(p[..k][..i]), m, v)
      ensures v in done
    {
      PassedInPrefix(g, p, k, i, m);
      assert p[..k][..i] == p[..i];
    }
  }

  lemma ExhaustedGrows(g: ProtocolGraph, p: seq<string>, done: set<string>, more: set<string>)
    requires Exhausted(g, p, done) && done <= more
    ensures Exhausted(g, p, more)
  {
    hide PassedBy, ReachesAvoiding;
  }

  /** A walk that starts in `done` and avoids the path stays in `done`. */
  lemma StaysDone(g: ProtocolGraph, p: seq<string>, done: set<string>, m: string, v: string)
    requires forall f, w | f in done && w in Neighbors(g, f) :: w in done || w in p
    requires m in done || m in p
    requires ReachesAvoiding(g, SetOf(p), m, v)
    ensures v in done
  {
    hide Neighbors;
    var q :| WalkBetween(g, q, m, v) && SetOf(q) !! SetOf(p);
    IndexedIn(q, 0);
    var k := 0;
    while k < |q| - 1
      invariant 0 <= k < |q| && q[k] in done
    {
      IndexedIn(q, k + 1);
      assert q[k + 1] in Neighbors(g, q[k]);
      k := k + 1;
    }
  }

  lemma ExhaustedStep(g: ProtocolGraph, p: seq<string>, w: string, done: set<string>)
    requires Exhausted(g, p, done)
    requires forall f, x | f in done && x in Neighbors(g, f) :: x in done || x in p
    requires forall m | PassedBy(g, p + [w], |p|, m) :: m in done || m in p
    ensures Exhausted(g, p + [w], done)
  {
    hide PassedBy, ReachesAvoiding, Neighbors;
    var q := p + [w];
    forall i, m, v | 0 <= i < |q| && PassedBy(g, q, i, m) && ReachesAvoiding(g, SetOf(q[..i]), m, v) ensures v in done {
      assert q[..|p|] == p;
      if i < |p| {
        PassedInPrefix(g, q, |p|, i, m);
        assert q[..i] == p[..i];
      } else {
        StaysDone(g, p, done, m, v);
      }
    }
  }

  lemma FirstWhenExhausted(g: ProtocolGraph, p: seq<string>, done: set<string>)
    requires p != [] && SearchPath(g, p) && Exhausted(g, p, done) && p[|p| - 1] !in done
    ensures FirstPath(g, p)
  {
    hide PassedBy, ReachesAvoiding, SearchPath;
  }

  // ---- cycles ----

  ghost predicate EndsWith(p: seq<string>, s: seq<string>) {
    |s| <= |p| && p[|p| - |s|..] == s
  }

  /** The first path to the last vertex ends with the cycle, and one more edge closes it. */
  ghost predicate FirstCycle(g: ProtocolGraph, c: seq<string>) {
    && |c| > 1 && c[0] == c[|c| - 1] && c[0] in Neighbors(g, c[|c| - 2])
    && exists p :: FirstPath(g, p) && EndsWith(p, c[..|c| - 1])
  }

  // ---- every vertex a node leads to has one ----

  /** A walk to somewhere else leaves its start for good at some point. */
  lemma {:induction false} LastLeft(g: ProtocolGraph, avoid: set<string>, p: seq<string>, u: string, v: string)
    returns (w: string)
    requires WalkBetween(g, p, u, v) && SetOf(p) !! avoid && u != v
    ensures w in Neighbors(g, u) && ReachesAvoiding(g, avoid + {u}, w, v)
    decreases |p|
  {
    assert p[0 + 1] in Neighbors(g, p[0]);
    WalkSlice(g, p, 1, |p|);
    assert p[1..|p|] == p[1..];
    hide Walk, Neighbors;
    if u in p[1..] {
      var k := 1 + IndexIn(p[1..], u);
      WalkSlice(g, p, k, |p|);
      assert p[k..|p|] == p[k..];
      w := LastLeft(g, avoid, p[k..], u, v);
    } else {
      w := p[1];
    }
  }

  lemma LeavesForGood(g: ProtocolGraph, avoid: set<string>, u: string, v: string) returns (w: string)
    requires ReachesAvoiding(g, avoid, u, v) && u != v
    ensures w in Neighbors(g, u) && ReachesAvoiding(g, avoid + {u}, w, v)
  {
    var p :| WalkBetween(g, p, u, v) && SetOf(p) !! avoid;
    w := LastLeft(g, avoid, p, u, v);
  }

  lemma StartsOutside(g: ProtocolGraph, avoid: set<string>, u: string, v: string)
    requires ReachesAvoiding(g, avoid, u, v)
    ensures u !in avoid
  {
    var p :| WalkBetween(g, p, u, v) && SetOf(p) !! avoid;
    IndexedIn(p, 0);
  }

  lemma BeforeInRest(s: seq<string>, x: string, y: string)
    requires s != [] && ComesBefore(s, x, y)
    ensures x == s[0] || ComesBefore(s[1..], x, y)
  {
    var k :| 0 <= k < |s| && s[k] == x && y !in s[..k + 1];
    if k > 0 {
      assert s[..k + 1] == [s[0]] + s[1..][..k];
      assert s[1..][k - 1] == x;
    }
  }

  lemma NothingBeforeHead(s: seq<string>)
    requires s != []
    ensures forall x :: !ComesBefore(s, x, s[0])
  {
    forall k {:trigger s[k]} | 0 <= k < |s| ensures s[0] in s[..k + 1] { assert s[..k + 1][0] == s[0]; }
  }

  /** The first choice that leads on. */
  lemma {:induction false} FirstLeading(
    g: ProtocolGraph, avoid: set<string>, choices: seq<string>, v: string, m: string) returns (w: string)
    requires m in choices && ReachesAvoiding(g, avoid, m, v)
    ensures w in choices && ReachesAvoiding(g, avoid, w, v)
    ensures forall x | ComesBefore(choices, x, w) :: !ReachesAvoiding(g, avoid, x, v)
  {
    hide ReachesAvoiding, ComesBefore;
    if ReachesAvoiding(g, avoid, choices[0], v) {
      NothingBeforeHead(choices);
      w := choices[0];
    } else {
      w := FirstLeading(g, avoid, choices[1..], v, m);
      forall x | ComesBefore(choices, x, w) ensures !ReachesAvoiding(g, avoid, x, v) {
        BeforeInRest(choices, x, w);
      }
    }
  }

  lemma NoneEarlierStep(g: ProtocolGraph, p: seq<string>, w: string, v: string)
    requires NoneEarlier(g, p, v)
    requires forall x | ComesBefore(Choices(g, p), x, w) :: !ReachesAvoiding(g, SetOf(p), x, v)
    ensures NoneEarlier(g, p + [w], v)
  {
    hide ReachesAvoiding, ComesBefore, Choices;
    var q := p + [w];
    assert q[..|p|] == p;
    forall i, m | 0 <= i < |q| && PassedBy(g, q, i, m) ensures !ReachesAvoiding(g, SetOf(q[..i]), m, v) {
      if i < |p| { assert q[..i] == p[..i]; }
    }
  }

  lemma ChoicesWithin(g: ProtocolGraph, p: seq<string>, w: string)
    requires w in Choices(g, p)
    ensures w in Addresses(g) + Targets(g)
  {
    NotInSetOf(Choices(g, p), w);
    hide SetOf, AddressList;
  }

  lemma {:induction false} ExtendFirst(g: ProtocolGraph, p: seq<string>, v: string, m: string) returns (q: seq<string>)
    requires SearchPath(g, p) && NoneEarlier(g, p, v)
    requires m in Choices(g, p) && ReachesAvoiding(g, SetOf(p), m, v)
    ensures FirstPath(g, q) && q[|q| - 1] == v
    decreases Addresses(g) + Targets(g) - SetOf(p)
  {
    hide SearchPath, NoneEarlier, ComesBefore, Addresses, Targets, Neighbors, ReachesAvoiding;
    var w := FirstLeading(g, SetOf(p), Choices(g, p), v, m);
    StartsOutside(g, SetOf(p), w, v);
    NotInSetOf(p, w);
    SearchPathStep(g, p, w);
    NoneEarlierStep(g, p, w, v);
    q := p + [w];
    ChoicesWithin(g, p, w);
    assert SetOf(q) == SetOf(p) + {w};
    if w != v {
      var x := LeavesForGood(g, SetOf(p), w, v);
      q := ExtendFirst(g, q, v, x);
    }
  }

  /** Whatever a node leads to has a first path, and only such vertices have one. */
  lemma HasFirstPath(g: ProtocolGraph, v: string)
    ensures Rooted(g, v) <==> exists p :: FirstPath(g, p) && p[|p| - 1] == v
  {
    hide Choices, Addresses, ReachesAvoiding, NoneEarlier, SearchPath;
    if Rooted(g, v) { var p := RootedHasPath(g, v); }
    if p :| FirstPath(g, p) && p[|p| - 1] == v {
      SearchPathIsWalk(g, p);
      assert WalkBetween(g, p, p[0], v);
    }
  }

  lemma RootedHasPath(g: ProtocolGraph, v: string) returns (p: seq<string>)
    requires Rooted(g, v)
    ensures FirstPath(g, p) && p[|p| - 1] == v
  {
    hide Addresses, Walk, SortedStrings, WalkBetween, ReachesAvoiding, FirstPath, AddressList;
    var r :| r in Addresses(g) && Reaches(g, r, v);
    AddressesAre(g);
    NotInSetOf(Choices(g, []), r);
    NothingAvoided(g, r, v);
    p := ExtendFirst(g, [], v, r);
  }

  lemma NothingAvoided(g: ProtocolGraph, u: string, v: string)
    requires Reaches(g, u, v)
    ensures ReachesAvoiding(g, SetOf([]), u, v)
  {
    var p :| WalkBetween(g, p, u, v);
    assert SetOf(p) !! SetOf<string>([]);
  }

  // ---- which cycles are closed ----

  lemma EndOfPath(g: ProtocolGraph, p: seq<string>, s: seq<string>)
    requires FirstPath(g, p) && EndsWith(p, s) && s != []
    ensures Walk(g, s) && Distinct(s) && Rooted(g, s[0])
  {
    hide FirstPath, Walk, Reaches, Addresses, Distinct;
    var k := |p| - |s|;
    FirstPathWalks(g, p);
    WalkSlice(g, p, k, |p|);
    WalkSlice(g, p, 0, k + 1);
    assert p[k..|p|] == p[k..] == s;
    RestIsDistinct(p, k);
    assert p[k] == s[0];
    StartReaches(g, p[0..k + 1]);
  }

  lemma StartReaches(g: ProtocolGraph, p: seq<string>)
    requires Walk(g, p) && p[0] in Addresses(g)
    ensures Rooted(g, p[|p| - 1])
  {
    assert WalkBetween(g, p, p[0], p[|p| - 1]);
  }

  lemma FirstPathWalks(g: ProtocolGraph, p: seq<string>)
    requires FirstPath(g, p)
    ensures Walk(g, p) && Distinct(p) && p[0] in Addresses(g)
  {
    SearchPathIsWalk(g, p);
  }

  lemma RestIsDistinct(s: seq<string>, k: nat)
    requires Distinct(s) && k <= |s|
    ensures Distinct(s[k..])
  {
  }

  lemma FirstCycleIsSimple(g: ProtocolGraph, c: seq<string>)
    requires FirstCycle(g, c)
    ensures SimpleCycle(g, c) && Rooted(g, c[0])
  {
    hide FirstPath, EndsWith, Walk, Neighbors, Rooted, Distinct;
    var s := c[..|c| - 1];
    var p :| FirstPath(g, p) && EndsWith(p, s);
    EndOfPath(g, p, s);
    WalkStep(g, s, c[0]);
    assert c == s + [c[0]];
  }

  /** When the edge from `u` to `w` comes up, `w` is neither on the path nor new: the first path
      to `u` does not meet it, and does not go on to it either. */
  ghost predicate PassedOver(g: ProtocolGraph, u: string, w: string) {
    exists p :: FirstPath(g, p) && p[|p| - 1] == u && w !in p && !FirstPath(g, p + [w])
  }

  /** When `m`, a choice before `w`, has an edge to `w`, the search comes to `w` from there. */
  lemma Overtaken(g: ProtocolGraph, p: seq<string>, m: string, w: string)
    requires FirstPath(g, p) && m !in p && w !in p && w in Neighbors(g, m)
    requires ComesBefore(Choices(g, p), m, w)
    ensures PassedOver(g, p[|p| - 1], w)
  {
    hide SearchPath, Choices, Neighbors, ComesBefore;
    LeadsDirectly(g, SetOf(p), m, w);
    assert (p + [w])[..|p|] == p;
    assert PassedBy(g, p + [w], |p|, m);
    hide ReachesAvoiding, PassedBy;
    assert !NoneEarlier(g, p + [w], w);
  }

  lemma LeadsDirectly(g: ProtocolGraph, avoid: set<string>, m: string, w: string)
    requires m !in avoid && w !in avoid && w in Neighbors(g, m)
    ensures ReachesAvoiding(g, avoid, m, w)
  {
    hide Neighbors;
    assert WalkBetween(g, [m, w], m, w) && SetOf([m, w]) == {m, w};
  }

  /** The search starts at the least node. */
  lemma LeastIsFirst(g: ProtocolGraph, x: string)
    requires x in AddressList(g.nodes) && forall y | y in AddressList(g.nodes) && y != x :: StringLess(x, y)
    ensures FirstPath(g, [x])
  {
    hide StringLess, Increasing, AddressList;
    var choices := Choices(g, []);
    forall y ensures y in choices <==> y in AddressList(g.nodes) {
      NotInSetOf(choices, y);
      NotInSetOf(AddressList(g.nodes), y);
    }
    hide Choices, SetOf;
    assert [x][..0] == [];
    forall m ensures !ComesBefore(choices, m, x) { NothingBeforeLeast(choices, m, x); }
  }

  lemma NothingBeforeLeast(s: seq<string>, m: string, x: string)
    requires Increasing(s, StringLess) && x in s && forall y | y in s && y != x :: StringLess(x, y)
    ensures !ComesBefore(s, m, x)
  {
    OrdersAreTotal();
    HeadIsLeast(s, StringLess);
    hide StringLess, StrictTotal, Increasing;
    assert s[0] in s && x in multiset(s);
    forall k {:trigger s[k]} | 0 <= k < |s| ensures x in s[..k + 1] { assert s[..k + 1][0] == x; }
  }

  lemma NotPassedOver(g: ProtocolGraph, p: seq<string>, w: string)
    requires FirstPath(g, p)
    ensures PassedOver(g, p[|p| - 1], w) <==> w !in p && !FirstPath(g, p + [w])
  {
    assert p != [];
    hide FirstPath;
    if PassedOver(g, p[|p| - 1], w) {
      var q :| FirstPath(g, q) && q[|q| - 1] == p[|p| - 1] && w !in q && !FirstPath(g, q + [w]);
      FirstPathIsUnique(g, p, q);
    }
  }

  /** None of the edges of the cycle is passed over. */
  ghost predicate AllFollowed(g: ProtocolGraph, c: seq<string>) {
    forall i | 0 <= i < |c| - 1 :: !PassedOver(g, c[i], c[i + 1])
  }

  lemma FirstCycleIsFollowed(g: ProtocolGraph, c: seq<string>)
    requires FirstCycle(g, c)
    ensures AllFollowed(g, c)
  {
    hide FirstPath, PassedOver;
    var p :| FirstPath(g, p) && EndsWith(p, c[..|c| - 1]);
    var n, k := |c| - 1, |p| - (|c| - 1);
    forall i | 0 <= i < n ensures !PassedOver(g, c[i], c[i + 1]) {
      FirstPathPrefix(g, p, k + i + 1);
      var q := p[..k + i + 1];
      assert q[k + i] == p[k..][i] == c[i];
      NotPassedOver(g, q, c[i + 1]);
      if i < n - 1 {
        FirstPathPrefix(g, p, k + i + 2);
        assert p[..k + i + 2] == q + [p[k + i + 1]];
        assert p[k + i + 1] == p[k..][i + 1] == c[i + 1];
      } else {
        assert p[k] == p[k..][0] == c[0];
        assert q[k] == c[0];
      }
    }
  }

  // ---- the same cycle from another start ----

  /** The cycle written from its `k`-th vertex on. */
  function Rotate(c: seq<string>, k: nat): seq<string>
    requires k < |c| - 1
  {
    var s := c[..|c| - 1];
    s[k..] + s[..k] + [s[k]]
  }

  lemma RotateEdge(c: seq<string>, k: nat, i: nat) returns (j: nat)
    requires k < |c| - 1 && i < |c| - 1 && c[0] == c[|c| - 1]
    ensures j < |c| - 1 && Rotate(c, k)[i] == c[j] && Rotate(c, k)[i + 1] == c[j + 1]
    ensures j == (if k + i < |c| - 1 then k + i else k + i - (|c| - 1))
  {
    j := if k + i < |c| - 1 then k + i else k + i - (|c| - 1);
  }

  lemma RotateDistinct(c: seq<string>, k: nat)
    requires k < |c| - 1 && c[0] == c[|c| - 1] && Distinct(c[..|c| - 1])
    ensures var d := Rotate(c, k); |d| == |c| && d[0] == d[|d| - 1] == c[k] && Distinct(d[..|d| - 1])
    ensures SetOf(Rotate(c, k)) == SetOf(c)
  {
    hide Distinct, SetOf;
    var s := c[..|c| - 1];
    var t := s[k..] + s[..k];
    assert s == s[..k] + s[k..];
    SwapDistinct(s[..k], s[k..]);
    OneMore(s, s[0]);
    OneMore(t, s[k]);
    assert c == s + [s[0]];
    IndexedIn(s, k);
    IndexedIn(s, 0);
    assert (t + [s[k]])[..|c| - 1] == t;
  }

  lemma OneMore(s: seq<string>, x: string)
    ensures SetOf(s + [x]) == SetOf(s) + {x}
  {
  }

  lemma SwapDistinct(a: seq<string>, b: seq<string>)
    requires Distinct(a + b)
    ensures Distinct(b + a) && SetOf(b + a) == SetOf(a + b)
  {
    var s, t := a + b, b + a;
    forall i, j | 0 <= i < j < |t| ensures t[i] != t[j] {
      var h, k := if i < |b| then |a| + i else i - |b|, if j < |b| then |a| + j else j - |b|;
      assert s[h] == t[i] && s[k] == t[j];
    }
    assert forall x :: x in t <==> x in a || x in b;
  }

  lemma RotateIsCycle(g: ProtocolGraph, c: seq<string>, k: nat)
    requires SimpleCycle(g, c) && k < |c| - 1
    ensures SimpleCycle(g, Rotate(c, k))
  {
    hide Rotate, Neighbors, Distinct;
    RotateDistinct(c, k);
    var d := Rotate(c, k);
    forall i | 0 <= i < |d| - 1 ensures d[i + 1] in Neighbors(g, d[i]) { var j := RotateEdge(c, k, i); }
  }

  lemma RotateFollowed(g: ProtocolGraph, c: seq<string>, k: nat)
    requires SimpleCycle(g, c) && k < |c| - 1
    ensures AllFollowed(g, c) <==> AllFollowed(g, Rotate(c, k))
  {
    hide Rotate, PassedOver, Distinct, Walk;
    RotateDistinct(c, k);
    var d, n := Rotate(c, k), |c| - 1;
    if AllFollowed(g, c) {
      forall i | 0 <= i < n ensures !PassedOver(g, d[i], d[i + 1]) {
        var j := RotateEdge(c, k, i);
        assert !PassedOver(g, c[j], c[j + 1]);
      }
    }
    if AllFollowed(g, d) {
      forall i | 0 <= i < n ensures !PassedOver(g, c[i], c[i + 1]) {
        var h := if i >= k then i - k else i - k + n;
        var j := RotateEdge(c, k, h);
        assert !PassedOver(g, d[h], d[h + 1]);
      }
    }
  }

  /** The cycle, from whatever vertex it is written, is one that the search closes. */
  ghost predicate Closed(g: ProtocolGraph, c: seq<string>)
    requires |c| > 1
  {
    exists k :: 0 <= k < |c| - 1 && FirstCycle(g, Rotate(c, k))
  }

  /** The vertex of a set that the search has the shortest path to. */
  lemma {:induction false} Shallowest(g: ProtocolGraph, s: seq<string>) returns (k: nat, p: seq<string>)
    requires s != [] && forall v | v in s :: Rooted(g, v)
    ensures k < |s| && FirstPath(g, p) && p[|p| - 1] == s[k]
    ensures forall q | FirstPath(g, q) && q[|q| - 1] in s :: |p| <= |q|
  {
    hide SearchPath, NoneEarlier, Rooted;
    var n := |s| - 1;
    var last := RootedHasPath(g, s[n]);
    assert s == s[..n] + [s[n]];
    if n == 0 {
      k, p := 0, last;
    } else {
      k, p := Shallowest(g, s[..n]);
      if |last| < |p| { k, p := n, last; }
    }
    forall q | FirstPath(g, q) && q[|q| - 1] in s ensures |p| <= |q| {
      if q[|q| - 1] == s[n] { FirstPathIsUnique(g, q, last); } else { assert q[|q| - 1] in s[..n]; }
    }
  }

  /** From there, along edges that are not passed over, the first paths follow the cycle. */
  lemma {:induction false} PathsFollow(g: ProtocolGraph, c: seq<string>, p: seq<string>, i: nat)
    requires |c| > 1 && Distinct(c[..|c| - 1]) && AllFollowed(g, c) && i < |c| - 1
    requires FirstPath(g, p) && p[|p| - 1] == c[0]
    requires forall q | FirstPath(g, q) && q[|q| - 1] in c :: |p| <= |q|
    ensures FirstPath(g, p + c[1..i + 1])
  {
    hide SearchPath, NoneEarlier, PassedOver, Distinct;
    if i == 0 {
      assert p + c[1..1] == p;
    } else {
      PathsFollow(g, c, p, i - 1);
      var q := p + c[1..i];
      assert q + [c[i]] == p + c[1..i + 1];
      assert q[|q| - 1] == c[i - 1];
      assert !PassedOver(g, c[i - 1], c[(i - 1) + 1]);
      NotPassedOver(g, q, c[i]);
      NotBack(g, c, p, i);
    }
  }

  lemma NotBack(g: ProtocolGraph, c: seq<string>, p: seq<string>, i: nat)
    requires |c| > 1 && Distinct(c[..|c| - 1]) && 0 < i < |c| - 1
    requires p != [] && p[|p| - 1] == c[0] && FirstPath(g, p + c[1..i])
    requires forall q | FirstPath(g, q) && q[|q| - 1] in c :: |p| <= |q|
    ensures c[i] !in p + c[1..i]
  {
    hide SearchPath, NoneEarlier;
    var q, s := p + c[1..i], c[..|c| - 1];
    assert forall k | 0 <= k < i :: s[k] == c[k] && s[k] != s[i];
    assert s[i] == c[i];
    forall k | 0 <= k < |q| ensures q[k] != c[i] {
      if k + 1 < |p| {
        FirstPathPrefix(g, q, k + 1);
        assert q[..k + 1][k] == q[k];
      } else {
        assert q[k] == c[k + 1 - |p|];
      }
    }
  }

  /** So the search closes exactly the cycles none of whose edges it passes over. */
  lemma ClosedExactlyWhenFollowed(g: ProtocolGraph, c: seq<string>)
    requires SimpleCycle(g, c) && Rooted(g, c[0])
    ensures Closed(g, c) <==> AllFollowed(g, c)
  {
    hide FirstCycle, AllFollowed, FirstPath, Rooted, Rotate, SimpleCycle;
    CycleIsLong(g, c);
    if Closed(g, c) {
      var k :| 0 <= k < |c| - 1 && FirstCycle(g, Rotate(c, k));
      FirstCycleIsFollowed(g, Rotate(c, k));
      RotateFollowed(g, c, k);
    }
    if AllFollowed(g, c) {
      var k := FollowedIsClosed(g, c);
    }
  }

  lemma CycleIsLong(g: ProtocolGraph, c: seq<string>)
    requires SimpleCycle(g, c)
    ensures |c| > 1 && c[0] == c[|c| - 1] && Distinct(c[..|c| - 1])
  {
  }

  lemma FollowedIsClosed(g: ProtocolGraph, c: seq<string>) returns (k: nat)
    requires SimpleCycle(g, c) && Rooted(g, c[0]) && AllFollowed(g, c)
    ensures k < |c| - 1 && FirstCycle(g, Rotate(c, k))
  {
    hide FirstCycle, AllFollowed, SearchPath, NoneEarlier, Rooted, SimpleCycle;
    CycleIsLong(g, c);
    CycleIsRooted(g, c);
    var p;
    k, p := Shallowest(g, c[..|c| - 1]);
    var d := Rotate(c, k);
    RotateIsCycle(g, c, k);
    RotateDistinct(c, k);
    RotateFollowed(g, c, k);
    hide Rotate;
    forall v | v in d ensures v in c[..|c| - 1] { InCycle(c, d, v); }
    PathsFollow(g, d, p, |d| - 2);
    FollowedCloses(g, d, p);
  }

  lemma InCycle(c: seq<string>, d: seq<string>, v: string)
    requires |c| > 1 && c[0] == c[|c| - 1] && SetOf(d) == SetOf(c) && v in d
    ensures v in c[..|c| - 1]
  {
    assert v in SetOf(c);
    var i :| 0 <= i < |c| && c[i] == v;
    assert c[..|c| - 1][if i == |c| - 1 then 0 else i] == v;
  }

  lemma CycleIsRooted(g: ProtocolGraph, c: seq<string>)
    requires SimpleCycle(g, c) && Rooted(g, c[0])
    ensures forall v | v in c :: Rooted(g, v)
  {
    hide Distinct, Rooted;
    for i := 1 to |c|
      invariant forall j | 0 <= j < i :: Rooted(g, c[j])
    {
      assert c[(i - 1) + 1] in Neighbors(g, c[i - 1]);
      RootedStep(g, c[i - 1], c[i]);
    }
  }

  lemma FollowedCloses(g: ProtocolGraph, d: seq<string>, p: seq<string>)
    requires SimpleCycle(g, d) && p != [] && p[|p| - 1] == d[0] && FirstPath(g, p + d[1..|d| - 1])
    ensures FirstCycle(g, d)
  {
    hide FirstPath, Distinct;
    var n := |d| - 1;
    var q := p + d[1..n];
    assert q[|q| - n..] == [d[0]] + d[1..n] == d[..n];
    assert d[(n - 1) + 1] in Neighbors(g, d[n - 1]);
    assert EndsWith(q, d[..n]);
  }
}
