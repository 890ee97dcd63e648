/** The string operations the code leans on: `str.lower` on ASCII, decimal `str(int)`
    with its inverse, and the watch identifier format built from them. */
module Text {
  import opened Ordering

  function LowerChar(c: char): char {
    if 'A' <= c <= 'Z' then (c as int + 32) as char else c
  }

  function Lower(s: string): (r: string)
    ensures |r| == |s|
    ensures forall i | 0 <= i < |s| :: r[i] == LowerChar(s[i])
  {
    seq(|s|, i requires 0 <= i < |s| => LowerChar(s[i]))
  }

  /** `s == s.lower()`. */
  predicate IsLower(s: string) { Lower(s) == s }

  lemma LowerIsIdempotent(s: string)
    ensures Lower(Lower(s)) == Lower(s)
  {
    var r := Lower(s);
    assert forall i | 0 <= i < |s| :: LowerChar(r[i]) == r[i];
  }

  /** The letters with code points 65 to 90 move up by 32, every other character stays, and no
      such letter is left. */
  lemma LowerMeans(s: string, i: nat)
    requires i < |s|
    ensures Lower(s)[i] as int == s[i] as int + (if 65 <= s[i] as int <= 90 then 32 else 0)
    ensures !(65 <= Lower(s)[i] as int <= 90)
  {
  }

  const DIGITS: string := "0123456789"

  function DigitValue(c: char): int { c as int - '0' as int }

  predicate IsDigits(s: string) { forall i | 0 <= i < |s| :: '0' <= s[i] <= '9' }

  function NatText(n: nat): (s: string)
    ensures s != [] && IsDigits(s)
  {
    if n < 10 then [DIGITS[n]] else NatText(n / 10) + [DIGITS[n % 10]]
  }

  function NatValue(s: string): nat
    requires IsDigits(s)
  {
    if s == [] then 0 else NatValue(s[..|s| - 1]) * 10 + DigitValue(s[|s| - 1])
  }

  lemma {:induction false} NatTextInverse(n: nat)
    ensures NatValue(NatText(n)) == n
  {
    if n >= 10 {
      NatTextInverse(n / 10);
      assert NatText(n)[..|NatText(n)| - 1] == NatText(n / 10);
    } else {
      assert NatText(n)[..0] == [];
    }
  }

  /** Decimal notation, one digit after the other and no leading zero. */
  lemma DecimalDigits(n: nat, d: nat)
    requires d < 10
    ensures NatText(d) == ["0123456789"[d]]
    ensures n > 0 ==> NatText(10 * n + d) == NatText(n) + ["0123456789"[d]]
  {
    assert (10 * n + d) / 10 == n && (10 * n + d) % 10 == d;
  }

  /** What a run of digits stands for. */
  lemma DigitsRead(s: string, c: char)
    requires IsDigits(s) && '0' <= c <= '9'
    ensures IsDigits(s + [c]) && NatValue(s + [c]) == 10 * NatValue(s) + (c as int - '0' as int)
    ensures NatValue([]) == 0
  {
    assert (s + [c])[..|s|] == s;
  }

  /** `str(n)`. */
  function IntText(n: int): string {
    if n < 0 then "-" + NatText(-n) else NatText(n)
  }

  datatype Option<+T> = None | Some(value: T) {
    predicate IsFailure() { None? }

    function PropagateFailure<U>(): Option<U>
      requires None?
    {
      None
    }

    function Extract(): T
      requires Some?
    {
      value
    }
  }

  datatype Result<+T, +E> = Success(value: T) | Failure(error: E)

  /** `int(s)` on the texts `str` produces; None stands for its ValueError. */
  function IntValue(s: string): Option<int> {
    if s != [] && s[0] == '-' && |s| > 1 && IsDigits(s[1..]) then
      var k: int := NatValue(s[1..]);
      Some(-k)
    else if s != [] && IsDigits(s) then
      var k: int := NatValue(s);
      Some(k)
    else None
  }

  lemma DigitsHaveNoColon(s: string)
    requires IsDigits(s)
    ensures ':' !in s && ("-" + s)[1..] == s && ':' !in "-" + s
  {
  }

  lemma IntTextInverse(n: int)
    ensures IntValue(IntText(n)) == Some(n)
    ensures ':' !in IntText(n)
  {
    var s := NatText(if n < 0 then -n else n);
    NatTextInverse(if n < 0 then -n else n);
    DigitsHaveNoColon(s);
    assert s[0] != '-';
    hide NatText;
    hide NatValue;
    hide IsDigits;
  }

  /** `watch_id`: decimal chain id, colon, lowercased root address. */
  function WatchId(chainId: int, rootAddress: string): string {
    IntText(chainId) + ":" + Lower(rootAddress)
  }

  /** An identifier is the decimal chain id up to its first colon and the lowered address
      after it. */
  lemma WatchIdParts(chainId: int, rootAddress: string)
    ensures var id := WatchId(chainId, rootAddress);
            && ':' in id
            && id[..IndexIn(id, ':')] == IntText(chainId) && id[IndexIn(id, ':') + 1..] == Lower(rootAddress)
    ensures chainId >= 0 ==> IntText(chainId) == NatText(chainId)
    ensures chainId < 0 ==> IntText(chainId) == ['-'] + NatText(-chainId)
  {
    IntTextInverse(chainId);
    FirstColon(IntText(chainId), Lower(rootAddress));
    hide NatText, Lower;
  }

  /** `int` reads a non-empty run of digits after at most one minus sign, and nothing else. */
  lemma IntValueReads(s: string)
    ensures s != [] && IsDigits(s) ==> IntValue(s) == Some(NatValue(s))
    ensures |s| > 1 && s[0] == '-' && IsDigits(s[1..]) ==> IntValue(s) == Some(0 - NatValue(s[1..]))
    ensures IntValue(s).Some? ==> (s != [] && IsDigits(s)) || (|s| > 1 && s[0] == '-' && IsDigits(s[1..]))
  {
    if s != [] && IsDigits(s) { assert s[0] != '-'; }
  }

  lemma FirstColon(a: string, x: string)
    requires ':' !in a
    ensures ':' in a + ":" + x && IndexIn(a + ":" + x, ':') == |a|
  {
    var s := a + ":" + x;
    assert s[|a|] == ':';
    assert forall j | 0 <= j < |a| :: s[j] == a[j];
  }

  lemma ColonSplits(a: string, b: string, x: string, y: string)
    requires ':' !in a && ':' !in b
    requires a + ":" + x == b + ":" + y
    ensures a == b && x == y
  {
    FirstColon(a, x);
    FirstColon(b, y);
    assert (a + ":" + x)[..|a|] == a && (b + ":" + y)[..|b|] == b;
    assert (a + ":" + x)[|a| + 1..] == x && (b + ":" + y)[|b| + 1..] == y;
  }

  /** Two registrations share an identifier exactly when they name the same chain and
      the same address up to letter case. */
  lemma WatchIdInjective(c1: int, a1: string, c2: int, a2: string)
    ensures WatchId(c1, a1) == WatchId(c2, a2) <==> c1 == c2 && Lower(a1) == Lower(a2)
  {
    IntTextInverse(c1);
    IntTextInverse(c2);
    if WatchId(c1, a1) == WatchId(c2, a2) {
      ColonSplits(IntText(c1), IntText(c2), Lower(a1), Lower(a2));
    }
  }
}
