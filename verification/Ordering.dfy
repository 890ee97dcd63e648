/** Python's orderings and `sorted`: strings compare by code point, tuples compare
    element by element, and `sorted` lists a collection in increasing order. */
module Ordering {

  ghost predicate StrictTotal<T(!new)>(lt: (T, T) -> bool) {
    && (forall x :: !lt(x, x))
    && (forall x, y, z :: lt(x, y) && lt(y, z) ==> lt(x, z))
    && (forall x, y :: x == y || lt(x, y) || lt(y, x))
  }

  predicate LexLess<T(==)>(lt: (T, T) -> bool, a: seq<T>, b: seq<T>) {
    && b != []
    && (|| a == []
        || lt(a[0], b[0])
        || (a[0] == b[0] && LexLess(lt, a[1..], b[1..])))
  }

  predicate CharLess(a: char, b: char) { a < b }

  predicate StringLess(a: string, b: string) { LexLess(CharLess, a, b) }

  predicate TupleLess(a: seq<string>, b: seq<string>) { LexLess(StringLess, a, b) }

  lemma {:induction false} LexIrreflexive<T(!new)>(lt: (T, T) -> bool, a: seq<T>)
    requires StrictTotal(lt)
    ensures !LexLess(lt, a, a)
  {
    if a != [] { LexIrreflexive(lt, a[1..]); }
  }

  lemma {:induction false} LexTransitive<T(!new)>(lt: (T, T) -> bool, a: seq<T>, b: seq<T>, c: seq<T>)
    requires StrictTotal(lt) && LexLess(lt, a, b) && LexLess(lt, b, c)
    ensures LexLess(lt, a, c)
  {
    if a != [] && a[0] == b[0] && b[0] == c[0] {
      LexTransitive(lt, a[1..], b[1..], c[1..]);
    }
  }

  lemma {:induction false} LexTrichotomy<T(!new)>(lt: (T, T) -> bool, a: seq<T>, b: seq<T>)
    requires StrictTotal(lt)
    ensures a == b || LexLess(lt, a, b) || LexLess(lt, b, a)
  {
    if a != [] && b != [] && a[0] == b[0] {
      LexTrichotomy(lt, a[1..], b[1..]);
      assert a == [a[0]] + a[1..] && b == [b[0]] + b[1..];
    }
  }

  /** Both orders the code sorts by are strict and total. */
  lemma OrdersAreTotal()
    ensures StrictTotal(StringLess)
    ensures StrictTotal(TupleLess)
  {
    assert StrictTotal(CharLess);
    forall a: string, b: string, c: string
      ensures !StringLess(a, a)
      ensures StringLess(a, b) && StringLess(b, c) ==> StringLess(a, c)
      ensures a == b || StringLess(a, b) || StringLess(b, a)
    {
      LexIrreflexive(CharLess, a);
      LexTrichotomy(CharLess, a, b);
      if StringLess(a, b) && StringLess(b, c) { LexTransitive(CharLess, a, b, c); }
    }
    assert StrictTotal(StringLess);
    forall a: seq<string>, b: seq<string>, c: seq<string>
      ensures !TupleLess(a, a)
      ensures TupleLess(a, b) && TupleLess(b, c) ==> TupleLess(a, c)
      ensures a == b || TupleLess(a, b) || TupleLess(b, a)
    {
      LexIrreflexive(StringLess, a);
      LexTrichotomy(StringLess, a, b);
      if TupleLess(a, b) && TupleLess(b, c) { LexTransitive(StringLess, a, b, c); }
    }
  }

  // ---- which orders they are ----

  /** Where the two first differ, `a` has the lower code point, or `a` ends there. */
  ghost predicate Precedes(a: string, b: string) {
    || (|a| < |b| && a == b[..|a|])
    || exists k :: 0 <= k < |a| && k < |b| && a[..k] == b[..k] && a[k] as int < b[k] as int
  }

  /** Where the two first differ, the entry of `a` precedes that of `b`, or `a` ends there. */
  ghost predicate TuplePrecedes(a: seq<string>, b: seq<string>) {
    || (|a| < |b| && a == b[..|a|])
    || exists k :: 0 <= k < |a| && k < |b| && a[..k] == b[..k] && Precedes(a[k], b[k])
  }

  /** A lexicographic order, read off the first difference. */
  ghost predicate FirstDifference<T>(lt: (T, T) -> bool, a: seq<T>, b: seq<T>) {
    || (|a| < |b| && a == b[..|a|])
    || exists k :: 0 <= k < |a| && k < |b| && a[..k] == b[..k] && lt(a[k], b[k])
  }

  lemma DifferenceInTail<T>(lt: (T, T) -> bool, a: seq<T>, b: seq<T>)
    requires a != [] && b != [] && a[0] == b[0] && FirstDifference(lt, a[1..], b[1..])
    ensures FirstDifference(lt, a, b)
  {
    var c, d := a[1..], b[1..];
    assert a == [a[0]] + c && b == [b[0]] + d;
    if |c| < |d| && c == d[..|c|] {
      assert b[..|a|] == [b[0]] + d[..|c|];
    } else {
      var k :| 0 <= k < |c| && k < |d| && c[..k] == d[..k] && lt(c[k], d[k]);
      assert a[..k + 1] == [a[0]] + c[..k] && b[..k + 1] == [b[0]] + d[..k];
      assert lt(a[k + 1], b[k + 1]);
    }
  }

  lemma DifferenceAfterHead<T>(lt: (T, T) -> bool, a: seq<T>, b: seq<T>)
    requires FirstDifference(lt, a, b) && a != []
    ensures b != [] && (lt(a[0], b[0]) || (a[0] == b[0] && FirstDifference(lt, a[1..], b[1..])))
  {
    var c, d := a[1..], b[1..];
    if |a| < |b| && a == b[..|a|] {
      assert a[0] == b[..|a|][0] && c == b[..|a|][1..] == d[..|c|];
    } else {
      var k :| 0 <= k < |a| && k < |b| && a[..k] == b[..k] && lt(a[k], b[k]);
      if k > 0 {
        assert a[..k][0] == b[..k][0] && c[..k - 1] == a[..k][1..] && d[..k - 1] == b[..k][1..];
        assert lt(c[k - 1], d[k - 1]);
      }
    }
  }

  lemma {:induction false} LexMeans<T>(lt: (T, T) -> bool, a: seq<T>, b: seq<T>)
    ensures LexLess(lt, a, b) <==> FirstDifference(lt, a, b)
  {
    if a != [] && b != [] {
      LexMeans(lt, a[1..], b[1..]);
      if a[0] == b[0] && FirstDifference(lt, a[1..], b[1..]) { DifferenceInTail(lt, a, b); }
      if FirstDifference(lt, a, b) { DifferenceAfterHead(lt, a, b); }
      if lt(a[0], b[0]) { assert a[..0] == b[..0]; }
    }
  }

  /** Strings are sorted by code point. */
  lemma StringOrder(a: string, b: string)
    ensures StringLess(a, b) <==> Precedes(a, b)
  {
    LexMeans(CharLess, a, b);
  }

  /** Tuples are sorted by their entries in turn. */
  lemma TupleOrder(a: seq<string>, b: seq<string>)
    ensures TupleLess(a, b) <==> TuplePrecedes(a, b)
  {
    LexMeans(StringLess, a, b);
    hide StringLess, Precedes;
    forall x: string, y: string ensures StringLess(x, y) <==> Precedes(x, y) { StringOrder(x, y); }
  }

  ghost predicate Increasing<T>(s: seq<T>, lt: (T, T) -> bool) {
    forall i, j | 0 <= i < j < |s| :: !lt(s[j], s[i])
  }

  ghost predicate Distinct<T(!new)>(s: seq<T>) {
    forall i, j | 0 <= i < j < |s| :: s[i] != s[j]
  }

  ghost predicate IsLeast<T>(x: T, m: multiset<T>, lt: (T, T) -> bool) {
    x in m && forall y | y in m :: !lt(y, x)
  }

  lemma {:induction false} HasLeast<T(!new)>(m: multiset<T>, lt: (T, T) -> bool)
    requires StrictTotal(lt) && m != multiset{}
    ensures exists x :: IsLeast(x, m, lt)
    decreases |m|
  {
    var x :| x in m;
    var rest := m - multiset{x};
    assert forall y | y in m :: y == x || y in rest;
    if rest == multiset{} {
      assert IsLeast(x, m, lt);
    } else {
      HasLeast(rest, lt);
      var z :| IsLeast(z, rest, lt);
      assert IsLeast(if lt(x, z) then x else z, m, lt);
    }
  }

  function Least<T(!new, ==)>(m: multiset<T>, lt: (T, T) -> bool): (x: T)
    requires StrictTotal(lt) && m != multiset{}
    ensures IsLeast(x, m, lt)
  {
    HasLeast(m, lt);
    var x :| x in m && forall y | y in m :: !lt(y, x);
    x
  }

  lemma ConsIncreasing<T(!new)>(x: T, rest: seq<T>, m: multiset<T>, lt: (T, T) -> bool)
    requires Increasing(rest, lt) && IsLeast(x, m, lt) && multiset(rest) <= m
    ensures Increasing([x] + rest, lt)
  {
    var r := [x] + rest;
    forall i, j | 0 <= i < j < |r| ensures !lt(r[j], r[i]) {
      assert r[j] == rest[j - 1];
      assert rest[j - 1] in multiset(rest);
    }
  }

  lemma ConsSorted<T(!new)>(x: T, rest: seq<T>, m: multiset<T>, lt: (T, T) -> bool)
    requires IsLeast(x, m, lt) && multiset(rest) == m - multiset{x} && Increasing(rest, lt)
    ensures multiset([x] + rest) == m && Increasing([x] + rest, lt)
  {
    assert x in m;
    hide Increasing, IsLeast;
    ConsIncreasing(x, rest, m, lt);
  }

  lemma LeastIsMember<T>(x: T, m: multiset<T>, lt: (T, T) -> bool)
    requires IsLeast(x, m, lt)
    ensures |m - multiset{x}| < |m|
  {
  }

  lemma NothingIncreasing<T>(lt: (T, T) -> bool)
    ensures Increasing([], lt)
  {
  }

  /** `sorted(m)`. */
  function Sorted<T(!new, ==)>(m: multiset<T>, lt: (T, T) -> bool): (r: seq<T>)
    requires StrictTotal(lt)
    ensures multiset(r) == m
    ensures Increasing(r, lt)
    decreases |m|
  {
    hide StrictTotal, Increasing, IsLeast;
    NothingIncreasing(lt);
    if m == multiset{} then []
    else
      var x := Least(m, lt);
      LeastIsMember(x, m, lt);
      var rest := Sorted(m - multiset{x}, lt);
      ConsSorted(x, rest, m, lt);
      [x] + rest
  }

  lemma HeadIsLeast<T(!new)>(a: seq<T>, lt: (T, T) -> bool)
    requires StrictTotal(lt) && Increasing(a, lt) && a != []
    ensures IsLeast(a[0], multiset(a), lt)
    ensures multiset(a[1..]) == multiset(a) - multiset{a[0]}
    ensures Increasing(a[1..], lt)
  {
    assert a == [a[0]] + a[1..];
    forall y | y in multiset(a) ensures !lt(y, a[0]) {
      var i :| 0 <= i < |a| && a[i] == y;
    }
  }

  lemma LeastIsUnique<T(!new)>(x: T, y: T, m: multiset<T>, lt: (T, T) -> bool)
    requires StrictTotal(lt) && IsLeast(x, m, lt) && IsLeast(y, m, lt)
    ensures x == y
  {
  }

  /** The increasing list of a collection is unique. */
  lemma {:induction false} SortedIsCanonical<T(!new)>(a: seq<T>, b: seq<T>, lt: (T, T) -> bool)
    requires StrictTotal(lt)
    requires multiset(a) == multiset(b) && Increasing(a, lt) && Increasing(b, lt)
    ensures a == b
  {
    assert |multiset(a)| == |a| && |multiset(b)| == |b|;
    if a != [] {
      HeadIsLeast(a, lt);
      HeadIsLeast(b, lt);
      LeastIsUnique(a[0], b[0], multiset(a), lt);
      SortedIsCanonical(a[1..], b[1..], lt);
      assert a == [a[0]] + a[1..] && b == [b[0]] + b[1..];
    }
  }

  function SetOf<T(==)>(s: seq<T>): set<T> { set x | x in s }

  lemma RepeatsCount<T(!new)>(r: seq<T>, i: nat, j: nat)
    requires i < j < |r| && r[i] == r[j]
    ensures multiset(r)[r[i]] >= 2
  {
    assert r == r[..i] + [r[i]] + r[i + 1..j] + [r[j]] + r[j + 1..];
  }

  lemma MultisetOfSet<T(!new)>(r: seq<T>, s: set<T>)
    requires multiset(r) == multiset(s)
    ensures Distinct(r) && SetOf(r) == s && |r| == |s|
  {
    if i: nat, j: nat :| i < j < |r| && r[i] == r[j] {
      RepeatsCount(r, i, j);
      assert false;
    }
    assert forall x :: x in r <==> x in multiset(r);
    assert |multiset(r)| == |r|;
  }

  /** `sorted(s)` for a set of strings. */
  function SortedSet(s: set<string>): (r: seq<string>)
    ensures Increasing(r, StringLess)
    ensures Distinct(r) && SetOf(r) == s && |r| == |s|
  {
    OrdersAreTotal();
    var r := Sorted(multiset(s), StringLess);
    MultisetOfSet(r, s);
    r
  }

  /** `order.index(v)`. */
  function IndexIn<T(==)>(order: seq<T>, v: T): (i: nat)
    requires v in order
    ensures i < |order| && order[i] == v
    ensures forall j | 0 <= j < i :: order[j] != v
  {
    if order[0] == v then 0 else 1 + IndexIn(order[1..], v)
  }

  /** `sorted(s)` for a list of strings. */
  function SortedStrings(s: seq<string>): (r: seq<string>)
    ensures Increasing(r, StringLess)
    ensures Distinct(s) ==> r == SortedSet(SetOf(s))
    ensures SetOf(r) == SetOf(s) && |r| == |s| && multiset(r) == multiset(s)
  {
    OrdersAreTotal();
    var r := Sorted(multiset(s), StringLess);
    SortedDistinct(s, r);
    r
  }

  lemma SortedDistinct(s: seq<string>, r: seq<string>)
    requires multiset(r) == multiset(s) && Increasing(r, StringLess)
    ensures Distinct(s) ==> r == SortedSet(SetOf(s))
    ensures SetOf(r) == SetOf(s) && |r| == |s|
  {
    OrdersAreTotal();
    hide StringLess, Distinct, Increasing, StrictTotal;
    assert forall x :: x in r <==> x in multiset(r);
    assert forall x :: x in s <==> x in multiset(s);
    assert |multiset(r)| == |r| && |multiset(s)| == |s|;
    if Distinct(s) {
      DistinctMultiset(s);
      DistinctMultiset(SortedSet(SetOf(s)));
      SortedIsCanonical(r, SortedSet(SetOf(s)), StringLess);
    }
  }

  lemma {:induction false} DistinctMultiset<T(!new)>(s: seq<T>)
    requires Distinct(s)
    ensures multiset(s) == multiset(SetOf(s))
  {
    if s != [] {
      var t := s[1..];
      DistinctMultiset(t);
      assert s == [s[0]] + t;
      assert SetOf(s) == {s[0]} + SetOf(t);
      assert s[0] !in SetOf(t);
    }
  }

  lemma TakeNext<T>(s: seq<T>, k: nat)
    requires k < |s|
    ensures s[k..][0] == s[k] && s[k..][1..] == s[k + 1..]
    ensures s[..k] + [s[k]] == s[..k + 1]
  {
  }

  lemma SetOfTake<T>(s: seq<T>, i: nat)
    requires i <= |s|
    ensures SetOf(s[..0]) == {} && s[..|s|] == s
    ensures i < |s| ==> SetOf(s[..i + 1]) == SetOf(s[..i]) + {s[i]}
  {
    if i < |s| { assert s[..i + 1] == s[..i] + [s[i]]; }
  }

  lemma NotYetTaken<T(!new)>(s: seq<T>, i: nat)
    requires Distinct(s) && i < |s|
    ensures s[i] !in SetOf(s[..i]) && s[i] in s
  {
  }

  lemma IndexedIn<T>(s: seq<T>, i: nat)
    requires i < |s|
    ensures s[i] in SetOf(s)
  {
  }

  lemma DifferenceEmpty<T>(a: set<T>, b: set<T>)
    ensures |a - b| == 0 <==> a <= b
  {
    assert |a - b| == 0 <==> a - b == {};
    assert forall x | x in a :: x in b || x in a - b;
  }

  lemma DifferenceStep<T>(a: set<T>, b: set<T>, x: T)
    requires x !in b
    ensures |a - (b + {x})| == |a - b| - (if x in a then 1 else 0)
  {
    if x in a {
      assert a - b == (a - (b + {x})) + {x};
    } else {
      assert a - b == a - (b + {x});
    }
  }

  lemma Outsider<T>(a: set<T>, b: set<T>) returns (x: T)
    requires !(a <= b)
    ensures x in a && x !in b
  {
    x :| x in a && x !in b;
  }

  lemma DistinctAppend<T(!new)>(s: seq<T>, x: T)
    requires Distinct(s) && x !in s
    ensures Distinct(s + [x]) && SetOf(s + [x]) == SetOf(s) + {x}
    ensures forall y :: y in s + [x] <==> y in s || y == x
  {
  }

  lemma NotInSetOf<T>(s: seq<T>, x: T)
    ensures x in s <==> x in SetOf(s)
  {
  }

  /** `all` and `any` over the list of a set's members. */
  lemma AllAndAny<T(!new)>(s: seq<T>, b: set<T>)
    ensures (forall k | 0 <= k < |s| :: s[k] in b) <==> SetOf(s) <= b
    ensures (exists k :: 0 <= k < |s| && s[k] in b) <==> SetOf(s) * b != {}
  {
    if SetOf(s) <= b {
      forall k | 0 <= k < |s| ensures s[k] in b { IndexedIn(s, k); }
    }
    if SetOf(s) * b != {} {
      var x :| x in SetOf(s) * b;
      var k :| 0 <= k < |s| && s[k] == x;
    }
    if k :| 0 <= k < |s| && s[k] in b {
      assert s[k] in SetOf(s) * b;
    }
  }

  lemma SortedSetIs(r: seq<string>, s: set<string>)
    requires Increasing(r, StringLess) && Distinct(r) && SetOf(r) == s
    ensures r == SortedSet(s)
  {
    OrdersAreTotal();
    hide StringLess, Distinct, Increasing, StrictTotal;
    DistinctMultiset(r);
    DistinctMultiset(SortedSet(s));
    SortedIsCanonical(r, SortedSet(s), StringLess);
  }

  lemma PartitionSize<T>(x: set<T>, y: set<T>, z: set<T>, whole: set<T>)
    requires forall a :: a in whole <==> a in x || a in y || a in z
    requires x !! y && x !! z && y !! z
    ensures |x| + |y| + |z| == |whole|
  {
    assert (x + y) !! z;
    assert x + y + z == whole;
  }

  lemma IncreasingAppend<T(!new)>(f: seq<T>, x: T, lt: (T, T) -> bool)
    requires Increasing(f, lt) && forall y | y in f :: !lt(x, y)
    ensures Increasing(f + [x], lt)
  {
  }

  lemma IncreasingInit<T(!new)>(s: seq<T>, lt: (T, T) -> bool)
    requires Increasing(s, lt) && Distinct(s) && s != []
    ensures var n := |s| - 1;
            && Increasing(s[..n], lt) && Distinct(s[..n]) && s == s[..n] + [s[n]]
            && forall y | y in s[..n] :: y != s[n] && !lt(s[n], y)
  {
  }

  /** `sorted(s)` for a set of tuples of strings. */
  function SortedTuples(s: set<seq<string>>): (r: seq<seq<string>>)
    ensures SetOf(r) == s && |r| == |s|
    ensures forall i | 0 <= i < |r| :: r[i] in s
    ensures forall i, j | 0 <= i < j < |r| :: TupleLess(r[i], r[j])
  {
    OrdersAreTotal();
    var r := Sorted(multiset(s), TupleLess);
    SortedKeys(r, s);
    r
  }

  lemma SortedKeys(keys: seq<seq<string>>, s: set<seq<string>>)
    requires multiset(keys) == multiset(s) && Increasing(keys, TupleLess)
    ensures SetOf(keys) == s && |keys| == |s|
    ensures forall i | 0 <= i < |keys| :: keys[i] in s
    ensures forall i, j | 0 <= i < j < |keys| :: TupleLess(keys[i], keys[j])
  {
    MultisetOfSet(keys, s);
    OrdersAreTotal();
    forall i | 0 <= i < |keys| ensures keys[i] in s { IndexedIn(keys, i); }
  }

  lemma SetOfEmpty<T>(s: seq<T>)
    ensures SetOf(s) == {} <==> s == []
  {
    if s != [] { assert s[0] in SetOf(s); }
  }

  lemma {:induction false} DistinctCardinality<T(!new)>(s: seq<T>)
    requires Distinct(s)
    ensures |SetOf(s)| == |s|
  {
    if s != [] {
      DistinctCardinality(s[1..]);
      assert SetOf(s) == {s[0]} + SetOf(s[1..]);
    }
  }

  lemma {:induction false} AtMostLength<T(!new)>(s: seq<T>)
    ensures |SetOf(s)| <= |s|
  {
    if s != [] {
      AtMostLength(s[1..]);
      assert SetOf(s) == SetOf(s[1..]) + {s[0]};
    }
  }

  /** A sequence longer than the set it draws from repeats an element. */
  lemma Pigeonhole<T(!new)>(s: seq<T>, universe: set<T>)
    requires SetOf(s) <= universe && |s| > |universe|
    ensures !Distinct(s)
  {
    if Distinct(s) {
      DistinctCardinality(s);
      SubsetCardinality(SetOf(s), universe);
    }
  }

  lemma {:induction false} SubsetCardinality<T>(a: set<T>, b: set<T>)
    requires a <= b
    ensures |a| <= |b|
    ensures |a| == |b| ==> a == b
  {
    if a != {} {
      var x :| x in a;
      SubsetCardinality(a - {x}, b - {x});
      assert a == (a - {x}) + {x} && b == (b - {x}) + {x};
    }
  }

  /** A sorted list without repetition is strictly increasing by code point. */
  lemma StrictlyIncreasing(r: seq<string>)
    requires Increasing(r, StringLess) && Distinct(r)
    ensures forall j, k | 0 <= j < k < |r| :: Precedes(r[j], r[k])
  {
    OrdersAreTotal();
    hide StringLess, Precedes;
    forall j, k | 0 <= j < k < |r| ensures Precedes(r[j], r[k]) { StringOrder(r[j], r[k]); }
  }

  /** The order of pairs, entry by entry. */
  lemma PairOrder(a: string, b: string, c: string, d: string)
    ensures TupleLess([a, b], [c, d]) <==> Precedes(a, c) || (a == c && Precedes(b, d))
  {
    hide Precedes;
    StringOrder(a, c);
    StringOrder(b, d);
    hide StringLess;
    assert [b][1..] == [] && [d][1..] == [] && !LexLess(StringLess, [], []);
    assert LexLess(StringLess, [b], [d]) <==> StringLess(b, d);
    assert [a, b][1..] == [b] && [c, d][1..] == [d];
  }

  /** And of triples. */
  lemma TripleOrder(a: string, b: string, c: string, x: string, y: string, z: string)
    ensures TupleLess([a, b, c], [x, y, z]) <==>
            Precedes(a, x) || (a == x && (Precedes(b, y) || (b == y && Precedes(c, z))))
  {
    PairOrder(b, c, y, z);
    StringOrder(a, x);
    hide Precedes, StringLess;
    assert [a, b, c][1..] == [b, c] && [x, y, z][1..] == [y, z];
  }
}
