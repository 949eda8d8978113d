/** Canonical prefix codes: how code lengths alone fix every codeword, and why reading bits one by
    one finds the one codeword they start with. */
module CanonicalCode {
  import opened Arithmetic
  import opened HuffmanTree

  const MAX_LENGTH: nat := 15

  /** How many symbols have `length` bits; zero is not a length. */
  function CountOf(lengths: seq<nat>, length: nat): (n: nat)
    ensures n <= |lengths|
  {
    if lengths == [] then 0
    else (if lengths[0] == length != 0 then 1 else 0) + CountOf(lengths[1..], length)
  }

  lemma {:induction false} CountAppend(xs: seq<nat>, ys: seq<nat>, length: nat)
    ensures CountOf(xs + ys, length) == CountOf(xs, length) + CountOf(ys, length)
  {
    if xs == [] {
      assert xs + ys == ys;
    } else {
      assert (xs + ys)[1..] == xs[1..] + ys;
      CountAppend(xs[1..], ys, length);
    }
  }

  /** Symbols of the same length are numbered in symbol order. */
  function Rank(lengths: seq<nat>, s: nat): nat
    requires s < |lengths|
  {
    CountOf(lengths[..s], lengths[s])
  }

  lemma CountUpTo(lengths: seq<nat>, s: nat, length: nat)
    requires s < |lengths|
    ensures CountOf(lengths[..s + 1], length) == CountOf(lengths[..s], length) + if lengths[s] == length != 0 then 1
            else 0
    ensures CountOf(lengths[..s + 1], length) <= CountOf(lengths, length)
  {
    assert lengths[..s + 1] == lengths[..s] + [lengths[s]];
    CountAppend(lengths[..s], [lengths[s]], length);
    assert lengths == lengths[..s + 1] + lengths[s + 1..];
    CountAppend(lengths[..s + 1], lengths[s + 1..], length);
  }

  lemma RankBelowCount(lengths: seq<nat>, s: nat)
    requires s < |lengths| && lengths[s] > 0
    ensures Rank(lengths, s) < CountOf(lengths, lengths[s])
  {
    CountUpTo(lengths, s, lengths[s]);
  }

  /** The symbol with a given length and rank. */
  ghost function SymbolAt(lengths: seq<nat>, length: nat, rank: nat): (s: nat)
    requires rank < CountOf(lengths, length)
    ensures s < |lengths| && lengths[s] == length > 0 && Rank(lengths, s) == rank
  {
    var last := |lengths| - 1;
    CountUpTo(lengths, last, length);
    assert lengths[..last + 1] == lengths;
    if rank == CountOf(lengths[..last], length) then
      last
    else
      var s := SymbolAt(lengths[..last], length, rank);
      assert lengths[..last][..s] == lengths[..s];
      s
  }

  /** Ranks tell symbols of one length apart. */
  lemma RankInjective(lengths: seq<nat>, s: nat, t: nat)
    requires s < t < |lengths| && lengths[s] == lengths[t] > 0
    ensures Rank(lengths, s) < Rank(lengths, t)
  {
    CountUpTo(lengths[..t], s, lengths[t]);
    assert lengths[..t][..s] == lengths[..s] && lengths[..t][s] == lengths[s];
  }

  /** The first codeword of each length: what the shorter codewords leave, doubled. */
  function FirstCode(lengths: seq<nat>, bits: nat): nat
    decreases bits, 0
  {
    if bits == 0 then 0 else 2 * End(lengths, bits - 1)
  }

  /** One past the last codeword of each length. */
  function End(lengths: seq<nat>, bits: nat): nat
    decreases bits, 1
  {
    FirstCode(lengths, bits) + CountOf(lengths, bits)
  }

  function Code(lengths: seq<nat>, s: nat): nat
    requires s < |lengths|
  {
    FirstCode(lengths, lengths[s]) + Rank(lengths, s)
  }

  lemma {:induction false} SpaceDoubles(lengths: seq<nat>, bits: nat)
    ensures Space(lengths, bits + 1) == 2 * Space(lengths, bits) + CountOf(lengths, bits + 1)
  {
    if lengths != [] {
      SpaceDoubles(lengths[1..], bits);
    }
  }

  lemma {:induction false} NoCountOfZero(lengths: seq<nat>)
    ensures CountOf(lengths, 0) == 0 && Space(lengths, 0) == 0
  {
    if lengths != [] {
      NoCountOfZero(lengths[1..]);
    }
  }

  /** The codewords up to a length take exactly the space that Kraft's sum says. */
  lemma {:induction false} EndIsSpace(lengths: seq<nat>, bits: nat)
    ensures End(lengths, bits) == Space(lengths, bits)
  {
    if bits == 0 {
      NoCountOfZero(lengths);
    } else {
      EndIsSpace(lengths, bits - 1);
      SpaceDoubles(lengths, bits - 1);
    }
  }

  /** Longer codewords start after all extensions of shorter ones. */
  lemma {:induction false} EndGrows(lengths: seq<nat>, a: nat, b: nat)
    requires a <= b
    ensures End(lengths, a) * Pow2(b - a) <= End(lengths, b)
    ensures a < b ==> End(lengths, a) * Pow2(b - a) <= FirstCode(lengths, b)
    decreases b
  {
    if a < b {
      EndGrows(lengths, a, b - 1);
      assert End(lengths, a) * Pow2(b - a) == 2 * (End(lengths, a) * Pow2(b - 1 - a)) by {
        MulAssociates(End(lengths, a), 2, Pow2(b - 1 - a));
        MulAssociates(2, End(lengths, a), Pow2(b - 1 - a));
      }
    }
  }

  /** Lengths a prefix code can have. */
  predicate Fits(lengths: seq<nat>)
  {
    Space(lengths, MAX_LENGTH) <= Pow2(MAX_LENGTH) && forall s :: 0 <= s < |lengths| ==> lengths[s] <= MAX_LENGTH
  }

  /** Lengths that leave no code space unused. */
  predicate Complete(lengths: seq<nat>)
  {
    Fits(lengths) && Space(lengths, MAX_LENGTH) == Pow2(MAX_LENGTH)
  }

  /** Codewords of `bits` bits need no more than `bits` bits. */
  lemma CodesFit(lengths: seq<nat>, bits: nat)
    requires Fits(lengths) && bits <= MAX_LENGTH
    ensures End(lengths, bits) <= Pow2(bits)
  {
    hide End, Pow2, Space;
    EndIsSpace(lengths, MAX_LENGTH);
    EndGrows(lengths, bits, MAX_LENGTH);
    Pow2Add(bits, MAX_LENGTH - bits);
    CancelFactor(End(lengths, bits), Pow2(bits), Pow2(MAX_LENGTH - bits));
  }

  lemma CancelFactor(a: nat, b: nat, c: nat)
    requires a * c <= b * c && c > 0
    ensures a <= b
  {
    if a > b {
      MulMonotone(c, b + 1, a);
    }
  }

  lemma {:induction false} NoLongerCodes(lengths: seq<nat>, a: nat, b: nat)
    requires a <= b && forall s :: 0 <= s < |lengths| ==> lengths[s] <= a
    ensures End(lengths, b) == End(lengths, a) * Pow2(b - a)
    decreases b
  {
    if a < b {
      NoLongerCodes(lengths, a, b - 1);
      NoneOfLength(lengths, b);
      MulAssociates(End(lengths, a), 2, Pow2(b - 1 - a));
      MulAssociates(2, End(lengths, a), Pow2(b - 1 - a));
    }
  }

  lemma {:induction false} NoneOfLength(lengths: seq<nat>, bits: nat)
    requires forall s :: 0 <= s < |lengths| ==> lengths[s] < bits
    ensures CountOf(lengths, bits) == 0
  {
    if lengths != [] {
      NoneOfLength(lengths[1..], bits);
    }
  }

  /** A complete code is exhausted at its longest length. */
  lemma ExhaustedAtLongest(lengths: seq<nat>, longest: nat)
    requires Complete(lengths) && longest <= MAX_LENGTH && forall s :: 0 <= s < |lengths| ==> lengths[s] <= longest
    ensures End(lengths, longest) == Pow2(longest)
  {
    hide End, Pow2, Space;
    EndIsSpace(lengths, MAX_LENGTH);
    NoLongerCodes(lengths, longest, MAX_LENGTH);
    Pow2Add(longest, MAX_LENGTH - longest);
    CancelFactor(End(lengths, longest), Pow2(longest), Pow2(MAX_LENGTH - longest));
    CancelFactor(Pow2(longest), End(lengths, longest), Pow2(MAX_LENGTH - longest));
  }

  /** `n` bits of `v`, most significant first. */
  function Msb(v: nat, n: nat): (bits: seq<bool>)
    ensures |bits| == n
  {
    if n == 0 then [] else Msb(v / 2, n - 1) + [v % 2 == 1]
  }

  function Value(bits: seq<bool>): nat
  {
    if bits == [] then 0
    else 2 * Value(bits[..|bits| - 1]) + if bits[|bits| - 1] then 1 else 0
  }

  lemma {:induction false} ValueOfMsb(v: nat, n: nat)
    requires v < Pow2(n)
    ensures Value(Msb(v, n)) == v
  {
    if n > 0 {
      ValueOfMsb(v / 2, n - 1);
      assert Msb(v, n)[..n - 1] == Msb(v / 2, n - 1);
    }
  }

  lemma {:induction false} MsbOfValue(bits: seq<bool>)
    ensures Msb(Value(bits), |bits|) == bits && Value(bits) < Pow2(|bits|)
  {
    if bits != [] {
      var front := bits[..|bits| - 1];
      MsbOfValue(front);
      assert bits == front + [bits[|bits| - 1]];
    }
  }

  lemma ValueSnoc(bits: seq<bool>, b: bool)
    ensures Value(bits + [b]) == 2 * Value(bits) + if b then 1 else 0
  {
    assert (bits + [b])[..|bits|] == bits;
  }

  /** More bits refine the value. */
  lemma {:induction false} ValueBounds(bits: seq<bool>, k: nat)
    requires k <= |bits|
    ensures Value(bits[..k]) * Pow2(|bits| - k) <= Value(bits) < (Value(bits[..k]) + 1) * Pow2(|bits| - k)
    decreases |bits|
  {
    if k == |bits| {
      assert bits[..k] == bits;
    } else {
      var front := bits[..|bits| - 1];
      ValueBounds(front, k);
      assert front[..k] == bits[..k];
      var v, p := Value(bits[..k]), Pow2(|front| - k);
      assert Pow2(|bits| - k) == 2 * p;
      MulAssociates(v, 2, p);
      MulAssociates(2, v, p);
      MulAssociates(v + 1, 2, p);
      MulAssociates(2, v + 1, p);
    }
  }

  function Codeword(lengths: seq<nat>, s: nat): (bits: seq<bool>)
    requires s < |lengths|
    ensures |bits| == lengths[s]
  {
    Msb(Code(lengths, s), lengths[s])
  }

  lemma CodewordValue(lengths: seq<nat>, s: nat)
    requires Fits(lengths) && s < |lengths| && lengths[s] > 0
    ensures FirstCode(lengths, lengths[s]) <= Value(Codeword(lengths, s)) == Code(lengths, s) < End(lengths, lengths[s])
  {
    hide FirstCode, Pow2, Msb, Space;
    RankBelowCount(lengths, s);
    CodesFit(lengths, lengths[s]);
    ValueOfMsb(Code(lengths, s), lengths[s]);
  }

  /** The bits read so far lie past all codewords of their length or shorter. */
  predicate Searching(lengths: seq<nat>, code: nat, length: nat)
  {
    End(lengths, length) <= code < Pow2(length)
  }

  predicate Matches(lengths: seq<nat>, code: nat, length: nat)
  {
    FirstCode(lengths, length) <= code < End(lengths, length)
  }

  /** One more bit either completes a codeword or leaves the search beyond the longer ones too. */
  lemma SearchStep(lengths: seq<nat>, code: nat, length: nat, bit: bool)
    requires Searching(lengths, code, length)
    ensures var more := 2 * code + if bit then 1 else 0;
            && FirstCode(lengths, length + 1) <= more < Pow2(length + 1)
            && (Matches(lengths, more, length + 1) || Searching(lengths, more, length + 1))
  {
    assert FirstCode(lengths, length + 1) == 2 * End(lengths, length);
  }

  /** In a complete code the search is over at the longest length. */
  lemma SearchEnds(lengths: seq<nat>, code: nat, length: nat, longest: nat)
    requires Complete(lengths) && longest <= MAX_LENGTH && forall s :: 0 <= s < |lengths| ==> lengths[s] <= longest
    requires Searching(lengths, code, length)
    ensures length < longest
  {
    if length >= longest {
      hide End, Pow2;
      ExhaustedAtLongest(lengths, longest);
      NoLongerCodes(lengths, longest, length);
      Pow2Add(longest, length - longest);
    }
  }

  /** Bits beyond all extensions of the codewords of `k` bits start beyond those codewords. */
  lemma StartsBeyond(end: nat, bits: seq<bool>, k: nat)
    requires k <= |bits| && end * Pow2(|bits| - k) <= Value(bits)
    ensures end <= Value(bits[..k])
  {
    hide Value, Pow2;
    ValueBounds(bits, k);
    if Value(bits[..k]) + 1 <= end {
      MulMonotone(Pow2(|bits| - k), Value(bits[..k]) + 1, end);
      assert false;
    }
  }

  /** While the search goes on, no codeword is a prefix of the bits read. */
  lemma NoCodewordYet(lengths: seq<nat>, bits: seq<bool>, s: nat)
    requires Fits(lengths) && Searching(lengths, Value(bits), |bits|) && s < |lengths| && lengths[s] > 0
    ensures !(Codeword(lengths, s) <= bits)
  {
    hide End, Pow2, Value, Codeword, Msb, Space;
    var k := lengths[s];
    CodewordValue(lengths, s);
    if k <= |bits| {
      EndGrows(lengths, k, |bits|);
      StartsBeyond(End(lengths, k), bits, k);
      assert bits[..k] != Codeword(lengths, s);
    }
  }

  /** Bits whose value falls among the codewords of their length are the codeword of one symbol. */
  lemma MatchedCodeword(lengths: seq<nat>, bits: seq<bool>)
    requires Matches(lengths, Value(bits), |bits|)
    ensures Value(bits) - FirstCode(lengths, |bits|) < CountOf(lengths, |bits|)
    ensures Codeword(lengths, SymbolAt(lengths, |bits|, Value(bits) - FirstCode(lengths, |bits|))) == bits
  {
    hide FirstCode, Msb, Value;
    MsbOfValue(bits);
  }

  lemma WholePrefix(w: seq<bool>, bits: seq<bool>)
    requires |w| == |bits|
    ensures w <= bits <==> w == bits
  {
    assert w <= bits ==> w == bits[..|w|] == bits;
  }

  /** No codeword of a canonical code starts another. */
  lemma PrefixFree(lengths: seq<nat>, s: nat, t: nat)
    requires Fits(lengths) && s < |lengths| && t < |lengths| && s != t && lengths[s] > 0 && lengths[t] > 0
    ensures !(Codeword(lengths, s) <= Codeword(lengths, t))
  {
    hide End, Pow2, Value, Codeword, Msb, Space, FirstCode, Rank;
    var a, b := lengths[s], lengths[t];
    var bits := Codeword(lengths, t);
    CodewordValue(lengths, s);
    CodewordValue(lengths, t);
    if a == b {
      RankInjective(lengths, if s < t then s else t, if s < t then t else s);
      assert Value(Codeword(lengths, s)) != Value(bits);
      WholePrefix(Codeword(lengths, s), bits);
    } else if a < b {
      EndGrows(lengths, a, b);
      StartsBeyond(End(lengths, a), bits, a);
      assert bits[..a] != Codeword(lengths, s);
    } else {
      assert |bits| < |Codeword(lengths, s)|;
    }
  }
}
