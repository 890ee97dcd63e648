/** Decoding of ABI return data at the level of bytes. */
module TradeEncoding {

  type Byte = b: int | 0 <= b < 256

  const WORD := 32

  function Power256(k: nat): nat {
    if k == 0 then 1 else 256 * Power256(k - 1)
  }

  /** `int.from_bytes(data, "big")`. */
  function FromBytes(data: seq<Byte>): nat {
    if data == [] then 0 else FromBytes(data[..|data| - 1]) * 256 + data[|data| - 1]
  }

  /** The `k` low bytes of `n`, most significant first. */
  function ToBytes(n: nat, k: nat): (r: seq<Byte>)
    ensures |r| == k
  {
    if k == 0 then [] else ToBytes(n / 256, k - 1) + [n % 256]
  }

  lemma {:induction false} BytesRoundTrip(n: nat, k: nat)
    requires n < Power256(k)
    ensures FromBytes(ToBytes(n, k)) == n
  {
    if k > 0 {
      BytesRoundTrip(n / 256, k - 1);
      assert ToBytes(n, k)[..k - 1] == ToBytes(n / 256, k - 1);
    }
  }

  /** The first byte counts most. */
  lemma {:induction false} BigEndian(b: Byte, rest: seq<Byte>)
    ensures FromBytes([]) == 0 && FromBytes([b] + rest) == b * Power256(|rest|) + FromBytes(rest)
    decreases |rest|
  {
    if rest == [] {
      assert ([b] + rest)[..0] == [];
    } else {
      var n := |rest| - 1;
      BigEndian(b, rest[..n]);
      assert ([b] + rest)[..n + 1] == [b] + rest[..n];
      assert b * Power256(n + 1) == b * Power256(n) * 256;
    }
  }

  /** A uint256. */
  ghost predicate IsUint256(n: int) { 0 <= n < Power256(WORD) }

  /** The word at byte `start`. */
  function WordAt(data: seq<Byte>, start: nat): nat
    requires start + WORD <= |data|
  {
    FromBytes(data[start..start + WORD])
  }

  /** `decode_uint256`: the last word, zero when there is none. */
  function DecodeUint256(data: seq<Byte>): nat {
    if |data| < WORD then 0 else WordAt(data, |data| - WORD)
  }

  /** Zero for less than one word, and the last 32 bytes otherwise. */
  lemma DecodeUint256Is(data: seq<Byte>)
    ensures |data| < 32 ==> DecodeUint256(data) == 0
    ensures |data| >= 32 ==> DecodeUint256(data) == FromBytes(data[|data| - 32..])
  {
    if |data| >= 32 { assert data[|data| - 32..|data|] == data[|data| - 32..]; }
  }

  lemma DecodeUint256Inverts(n: nat, before: seq<Byte>)
    requires IsUint256(n)
    ensures DecodeUint256(before + ToBytes(n, WORD)) == n
  {
    BytesRoundTrip(n, WORD);
    assert (before + ToBytes(n, WORD))[|before|..|before| + WORD] == ToBytes(n, WORD);
  }

  /** How many element words follow the length word at `base`. */
  function WordsAfter(data: seq<Byte>, base: nat): nat
    requires base + WORD <= |data|
  {
    (|data| - base - WORD) / WORD
  }

  /** What return data says as a `uint256[]`: as many of the announced elements as are there
      in full, and nothing when the head or the length word is not. */
  function Amounts(data: seq<Byte>): seq<nat> {
    if |data| < 2 * WORD then []
    else
      var base := WordAt(data, 0);
      if base + WORD > |data| then []
      else
        var announced := WordAt(data, base);
        var present := WordsAfter(data, base);
        seq(if announced <= present then announced else present,
            i requires 0 <= i && base + WORD + i * WORD + WORD <= |data| => WordAt(data, base + WORD + i * WORD))
  }

  /** The amounts are words that follow each other from `start` on, at most `announced` of them,
      and fewer only where the next would not be there in full. */
  ghost predicate WordsFrom(data: seq<Byte>, start: nat, announced: nat, amounts: seq<nat>) {
    && |amounts| <= announced && start + 32 * |amounts| <= |data|
    && (|amounts| == announced || start + 32 * |amounts| + 32 > |data|)
    && forall i | 0 <= i < |amounts| :: amounts[i] == FromBytes(data[start + 32 * i..start + 32 * i + 32])
  }

  /** Nothing below 64 bytes or when the length word is missing; else the words after it. */
  ghost predicate Announces(data: seq<Byte>, amounts: seq<nat>) {
    && (|data| < 64 ==> amounts == [])
    && (|data| >= 64 ==>
          var base := FromBytes(data[..32]);
          if base + 32 > |data| then amounts == []
          else WordsFrom(data, base + 32, FromBytes(data[base..base + 32]), amounts))
  }

  lemma AmountsAre(data: seq<Byte>)
    ensures Announces(data, Amounts(data))
  {
    hide FromBytes;
    if |data| >= 64 { assert data[0..32] == data[..32]; }
  }

  /** `decode_amounts_out`. */
  method DecodeAmountsOut(data: seq<Byte>) returns (amounts: seq<nat>)
    ensures amounts == Amounts(data)
    ensures Announces(data, amounts)
  {
    AmountsAre(data);
    hide Announces;
    if |data| < 2 * WORD {
      return [];
    }
    var base := WordAt(data, 0);
    if base + WORD > |data| {
      return [];
    }
    var length := WordAt(data, base);
    amounts := [];
    for index := 0 to length
      invariant |amounts| == index && base + WORD + index * WORD <= |data|
      invariant forall i | 0 <= i < index :: amounts[i] == WordAt(data, base + WORD + i * WORD)
    {
      var start := base + WORD + index * WORD;
      var end := start + WORD;
      if end > |data| {
        break;
      }
      amounts := amounts + [FromBytes(data[start..end])];
    }
  }

  // ---- the standard encoding ----

  function EncodeWords(xs: seq<nat>): (r: seq<Byte>)
    ensures |r| == WORD * |xs|
  {
    if xs == [] then [] else EncodeWords(xs[..|xs| - 1]) + ToBytes(xs[|xs| - 1], WORD)
  }

  /** The ABI encoding of one `uint256[]` value: the offset of its tail, its length, its
      elements. */
  function EncodeArray(xs: seq<nat>): (r: seq<Byte>)
    ensures |r| == 2 * WORD + WORD * |xs|
  {
    ToBytes(WORD, WORD) + ToBytes(|xs|, WORD) + EncodeWords(xs)
  }

  ghost predicate Encodable(xs: seq<nat>) {
    IsUint256(|xs|) && forall i | 0 <= i < |xs| :: IsUint256(xs[i])
  }

  lemma {:induction false} WordOfEncoded(xs: seq<nat>, i: nat)
    requires i < |xs| && forall j | 0 <= j < |xs| :: IsUint256(xs[j])
    ensures WordAt(EncodeWords(xs), i * WORD) == xs[i]
    decreases |xs|
  {
    var rest, last := xs[..|xs| - 1], xs[|xs| - 1];
    if i == |xs| - 1 {
      BytesRoundTrip(last, WORD);
      assert EncodeWords(xs)[i * WORD..i * WORD + WORD] == ToBytes(last, WORD);
    } else {
      WordOfEncoded(rest, i);
      assert EncodeWords(xs)[i * WORD..i * WORD + WORD] == EncodeWords(rest)[i * WORD..i * WORD + WORD];
    }
  }

  lemma WordSmall()
    ensures IsUint256(WORD)
  {
    assert Power256(32) == 256 * Power256(31);
    PowerPositive(31);
  }

  lemma {:induction false} PowerPositive(k: nat)
    ensures Power256(k) >= 1
  {
    if k > 0 { PowerPositive(k - 1); }
  }

  /** Data that starts like the encoding of `xs`, for at least the first two words. */
  ghost predicate StartsAs(data: seq<Byte>, xs: seq<nat>, k: nat) {
    2 * WORD <= k <= |data| && k <= |EncodeArray(xs)| && data[..k] == EncodeArray(xs)[..k]
  }

  lemma SameSlice(data: seq<Byte>, e: seq<Byte>, k: nat, start: nat)
    requires k <= |data| && k <= |e| && data[..k] == e[..k] && start + WORD <= k
    ensures data[start..start + WORD] == e[start..start + WORD]
  {
    assert data[start..start + WORD] == data[..k][start..start + WORD];
    assert e[start..start + WORD] == e[..k][start..start + WORD];
  }

  lemma SliceOfTail(head: seq<Byte>, tail: seq<Byte>, j: nat)
    requires j + WORD <= |tail|
    ensures (head + tail)[|head| + j..|head| + j + WORD] == tail[j..j + WORD]
  {
  }

  lemma HeadOf(data: seq<Byte>, xs: seq<nat>, k: nat)
    requires Encodable(xs) && StartsAs(data, xs, k)
    ensures WordAt(data, 0) == WORD && WordAt(data, WORD) == |xs|
  {
    WordSmall();
    BytesRoundTrip(WORD, WORD);
    BytesRoundTrip(|xs|, WORD);
    hide FromBytes, ToBytes, EncodeWords, Power256;
    var e := EncodeArray(xs);
    SameSlice(data, e, k, 0);
    SameSlice(data, e, k, WORD);
    assert e[0..WORD] == ToBytes(WORD, WORD);
    assert e[WORD..WORD + WORD] == ToBytes(|xs|, WORD);
  }

  lemma ElementOf(data: seq<Byte>, xs: seq<nat>, k: nat, i: nat)
    requires Encodable(xs) && StartsAs(data, xs, k)
    requires i < |xs| && 2 * WORD + i * WORD + WORD <= k
    ensures WordAt(data, 2 * WORD + i * WORD) == xs[i]
  {
    hide FromBytes, ToBytes, EncodeWords, Power256;
    WordOfEncoded(xs, i);
    SameSlice(data, EncodeArray(xs), k, 2 * WORD + i * WORD);
    SliceOfTail(ToBytes(WORD, WORD) + ToBytes(|xs|, WORD), EncodeWords(xs), i * WORD);
  }

  /** Of an encoding cut off after `k` bytes, head and length included, exactly the elements
      whose words are wholly present come back. */
  lemma TruncatedEncoding(xs: seq<nat>, k: nat)
    requires Encodable(xs) && 2 * WORD <= k <= |EncodeArray(xs)|
    ensures (k - 2 * WORD) / WORD <= |xs|
    ensures Amounts(EncodeArray(xs)[..k]) == xs[..(k - 2 * WORD) / WORD]
  {
    hide FromBytes, EncodeArray, Power256;
    var data := EncodeArray(xs)[..k];
    assert data[..k] == data;
    HeadOf(data, xs, k);
    var n := (k - 2 * WORD) / WORD;
    assert WordsAfter(data, WORD) == n;
    forall i | 0 <= i < n ensures Amounts(data)[i] == xs[i] { ElementOf(data, xs, k, i); }
    assert |Amounts(data)| == n;
  }

  /** Decoding inverts the standard encoding of every list, whatever bytes follow it. */
  lemma DecodeInvertsEncode(xs: seq<nat>, after: seq<Byte>)
    requires Encodable(xs)
    ensures Amounts(EncodeArray(xs) + after) == xs
  {
    hide FromBytes, EncodeArray, Power256;
    var data, k := EncodeArray(xs) + after, |EncodeArray(xs)|;
    assert data[..k] == EncodeArray(xs) == EncodeArray(xs)[..k];
    HeadOf(data, xs, k);
    assert WordsAfter(data, WORD) >= |xs|;
    assert |Amounts(data)| == |xs|;
    forall i | 0 <= i < |xs| ensures Amounts(data)[i] == xs[i] { ElementOf(data, xs, k, i); }
  }
}
