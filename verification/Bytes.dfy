/** Byte strings, the longest common prefix of two positions, and the word-at-a-time
    comparison both match finders use to measure it. */
module Bytes {
  import opened Arithmetic

  type Byte = b: int | 0 <= b < 256

  /** Number of equal bytes at positions `a` and `b`, at most `limit`. */
  function Lcp(input: seq<Byte>, a: nat, b: nat, limit: nat): (n: nat)
    requires a + limit <= |input| && b + limit <= |input|
    ensures n <= limit
    decreases limit
  {
    if limit == 0 || input[a] != input[b] then 0 else 1 + Lcp(input, a + 1, b + 1, limit - 1)
  }

  /** The longest common prefix agrees on all its bytes and on no more. */
  lemma {:induction false} LcpAgrees(input: seq<Byte>, a: nat, b: nat, limit: nat)
    requires a + limit <= |input| && b + limit <= |input|
    ensures var n := Lcp(input, a, b, limit);
            input[a..a + n] == input[b..b + n] && (n < limit ==> input[a + n] != input[b + n])
    decreases limit
  {
    if limit != 0 && input[a] == input[b] {
      LcpAgrees(input, a + 1, b + 1, limit - 1);
      var m := Lcp(input, a + 1, b + 1, limit - 1);
      assert input[a..a + (m + 1)] == [input[a]] + input[a + 1..a + 1 + m];
      assert input[b..b + (m + 1)] == [input[b]] + input[b + 1..b + 1 + m];
    }
  }

  /** It is the only length that agrees and cannot be extended. */
  lemma {:induction false} LcpUnique(input: seq<Byte>, a: nat, b: nat, limit: nat, n: nat)
    requires a + limit <= |input| && b + limit <= |input|
    requires n <= limit && input[a..a + n] == input[b..b + n]
    requires n < limit ==> input[a + n] != input[b + n]
    ensures Lcp(input, a, b, limit) == n
    decreases limit
  {
    if n > 0 {
      assert input[a] == input[a..a + n][0] == input[b..b + n][0] == input[b];
      assert input[a + 1..a + 1 + (n - 1)] == input[a..a + n][1..];
      assert input[b + 1..b + 1 + (n - 1)] == input[b..b + n][1..];
      LcpUnique(input, a + 1, b + 1, limit - 1, n - 1);
    }
  }

  /** Bytes already known to agree need not be compared again. */
  lemma {:induction false} LcpSkip(input: seq<Byte>, a: nat, b: nat, limit: nat, skip: nat)
    requires skip <= limit && a + limit <= |input| && b + limit <= |input|
    requires input[a..a + skip] == input[b..b + skip]
    ensures Lcp(input, a, b, limit) == skip + Lcp(input, a + skip, b + skip, limit - skip)
    decreases limit
  {
    if skip > 0 {
      assert input[a] == input[a..a + skip][0] == input[b..b + skip][0] == input[b];
      assert input[a + 1..a + 1 + (skip - 1)] == input[a..a + skip][1..];
      assert input[b + 1..b + 1 + (skip - 1)] == input[b..b + skip][1..];
      LcpSkip(input, a + 1, b + 1, limit - 1, skip - 1);
    }
  }

  /** The little-endian load of a short string of bytes. */
  function LoadLe(bytes: seq<Byte>): (word: nat)
  {
    if bytes == [] then 0 else bytes[0] + 256 * LoadLe(bytes[1..])
  }

  /** `(x ^ y).trailing_zeros()` for distinct words: how many low-order bits agree. */
  function TrailingAgreement(x: nat, y: nat): (bits: nat)
    requires x != y
    decreases x + y
  {
    if x % 2 != y % 2 then 0 else 1 + TrailingAgreement(x / 2, y / 2)
  }

  /** The `n` low-order bits of a word, and what is left above them. */
  function LowBits(x: nat, n: nat): nat
  {
    if n == 0 then 0 else x % 2 + 2 * LowBits(x / 2, n - 1)
  }

  function HighBits(x: nat, n: nat): nat
  {
    if n == 0 then x else HighBits(x / 2, n - 1)
  }

  lemma {:induction false} LowBitsOfSum(n: nat, low: nat, high: nat)
    requires low < Pow2(n)
    ensures LowBits(low + Pow2(n) * high, n) == low && HighBits(low + Pow2(n) * high, n) == high
  {
    if n > 0 {
      var k := Pow2(n - 1) * high;
      MulAssociates(2, Pow2(n - 1), high);
      assert low + Pow2(n) * high == low + 2 * k;
      assert (low + 2 * k) / 2 == low / 2 + k && (low + 2 * k) % 2 == low % 2;
      LowBitsOfSum(n - 1, low / 2, high);
    }
  }

  lemma {:induction false} TrailingAgreementSplits(low: nat, x: nat, y: nat)
    requires x != y
    ensures LowBits(x, low) == LowBits(y, low) ==>
              && HighBits(x, low) != HighBits(y, low)
              && TrailingAgreement(x, y) == low + TrailingAgreement(HighBits(x, low), HighBits(y, low))
    ensures LowBits(x, low) != LowBits(y, low) ==> TrailingAgreement(x, y) < low
    decreases low
  {
    if low > 0 && x % 2 == y % 2 {
      TrailingAgreementSplits(low - 1, x / 2, y / 2);
    }
  }

  /** The first byte where two loaded words differ is an eighth of their bit agreement. */
  lemma {:induction false} FirstDifference(s: seq<Byte>, t: seq<Byte>)
    requires |s| == |t| && s != t
    ensures LoadLe(s) != LoadLe(t)
    ensures var k := TrailingAgreement(LoadLe(s), LoadLe(t)) / 8;
            k < |s| && s[..k] == t[..k] && s[k] != t[k]
  {
    var x, y := LoadLe(s), LoadLe(t);
    LoadLeStep(s);
    LoadLeStep(t);
    assert s == [s[0]] + s[1..] && t == [t[0]] + t[1..];
    if s[0] == t[0] {
      FirstDifference(s[1..], t[1..]);
      TrailingAgreementSplits(8, x, y);
      var k := TrailingAgreement(LoadLe(s[1..]), LoadLe(t[1..])) / 8;
      assert s[..k + 1] == [s[0]] + s[1..][..k];
      assert t[..k + 1] == [t[0]] + t[1..][..k];
    } else {
      TrailingAgreementSplits(8, x, y);
    }
  }

  lemma LoadLeStep(s: seq<Byte>)
    requires s != []
    ensures LowBits(LoadLe(s), 8) == s[0] && HighBits(LoadLe(s), 8) == LoadLe(s[1..])
  {
    assert Pow2(8) == 256 by { assert Pow2(4) == 16; }
    LowBitsOfSum(8, s[0], LoadLe(s[1..]));
  }

  /** Comparing two 64-bit words: 8 when equal, otherwise the first differing byte. */
  function CompareWords(input: seq<Byte>, a: nat, b: nat): (k: nat)
    requires a + 8 <= |input| && b + 8 <= |input|
    ensures k == Lcp(input, a, b, 8)
  {
    var s, t := input[a..a + 8], input[b..b + 8];
    var x, y := LoadLe(s), LoadLe(t);
    if x == y then
      assert s == t by {
        if s != t {
          FirstDifference(s, t);
        }
      }
      LcpUnique(input, a, b, 8, 8);
      8
    else
      var k := TrailingAgreement(x, y) / 8;
      FirstDifference(s, t);
      LcpOfSlices(input, a, b, 8, k);
      k
  }

  lemma LcpOfSlices(input: seq<Byte>, a: nat, b: nat, width: nat, k: nat)
    requires a + width <= |input| && b + width <= |input| && k < width
    requires input[a..a + width][..k] == input[b..b + width][..k]
    requires input[a..a + width][k] != input[b..b + width][k]
    ensures Lcp(input, a, b, width) == k
  {
    assert input[a..a + width][..k] == input[a..a + k];
    assert input[b..b + width][..k] == input[b..b + k];
    LcpUnique(input, a, b, width, k);
  }

  /** Measuring a prefix in two stages. */
  lemma {:induction false} LcpInStages(input: seq<Byte>, a: nat, b: nat, limit: nat, first: nat)
    requires first <= limit && a + limit <= |input| && b + limit <= |input|
    ensures Lcp(input, a, b, limit) ==
            if Lcp(input, a, b, first) < first then Lcp(input, a, b, first)
            else first + Lcp(input, a + first, b + first, limit - first)
    decreases first
  {
    if first > 0 && input[a] == input[b] {
      LcpInStages(input, a + 1, b + 1, limit - 1, first - 1);
    }
  }

  /** Counts equal bytes in 8-byte words while one fits, then byte by byte. */
  method MatchLength(input: seq<Byte>, a: nat, b: nat, limit: nat) returns (length: nat)
    requires a + limit <= |input| && b + limit <= |input|
    ensures length == Lcp(input, a, b, limit)
  {
    hide Lcp;
    length := 0;
    while length + 8 <= limit
      invariant length <= limit
      invariant Lcp(input, a, b, limit) == length + Lcp(input, a + length, b + length, limit - length)
    {
      var k := CompareWords(input, a + length, b + length);
      LcpInStages(input, a + length, b + length, limit - length, 8);
      if k < 8 {
        return length + k;
      }
      length := length + 8;
    }
    while length < limit && input[a + length] == input[b + length]
      invariant length <= limit
      invariant Lcp(input, a, b, limit) == length + Lcp(input, a + length, b + length, limit - length)
    {
      LcpStep(input, a + length, b + length, limit - length);
      length := length + 1;
    }
    LcpStep(input, a + length, b + length, limit - length);
  }

  lemma LcpStep(input: seq<Byte>, a: nat, b: nat, limit: nat)
    requires a + limit <= |input| && b + limit <= |input|
    ensures limit == 0 || input[a] != input[b] ==> Lcp(input, a, b, limit) == 0
    ensures limit > 0 && input[a] == input[b] ==> Lcp(input, a, b, limit) == 1 + Lcp(input, a + 1, b + 1, limit - 1)
  {
  }

  /** `n` bytes at `p` repeat those `distance` before. */
  ghost predicate TrueCopy(input: seq<Byte>, p: nat, distance: nat, n: nat)
  {
    0 < distance <= p && p + n <= |input| && forall k :: p <= k < p + n ==> input[k] == input[k - distance]
  }
}
