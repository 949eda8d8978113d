/** The stream form of a complex prefix code (sections 3.4 and 3.5 of RFC 7932): the lengths of the
    code-length code in their fixed order and code, then the tokens. */
module ComplexPrefixFormat {
  import opened Arithmetic
  import opened HuffmanTree
  import opened CanonicalCode
  import opened CanonicalTables
  import opened CodeLengthTokens
  import opened BitStream

  const CODE_LENGTH_CODES: nat := 18
  const CODE_LENGTH_CODE_BITS: nat := 5

  /** The order in which the lengths of the code-length code are written. */
  const CODE_LENGTH_ORDER: seq<nat> := [1, 2, 3, 4, 0, 5, 17, 6, 16, 7, 8, 9, 10, 11, 12, 13, 14, 15]

  /** Where in the order each symbol comes. */
  function PlaceOf(symbol: nat): nat
    requires symbol < CODE_LENGTH_CODES
  {
    if symbol == 0 then 4 else if symbol <= 4 then symbol - 1 else if symbol == 5 then 5
    else if symbol == 6 then 7 else if symbol <= 15 then symbol + 2 else if symbol == 16 then 8 else 6
  }

  lemma OrderIsPermutation()
    ensures |CODE_LENGTH_ORDER| == CODE_LENGTH_CODES
    ensures forall s: nat :: s < CODE_LENGTH_CODES ==>
            PlaceOf(s) < CODE_LENGTH_CODES && CODE_LENGTH_ORDER[PlaceOf(s)] == s
    ensures forall i: nat :: i < CODE_LENGTH_CODES ==>
            CODE_LENGTH_ORDER[i] < CODE_LENGTH_CODES && PlaceOf(CODE_LENGTH_ORDER[i]) == i
  {
  }

  /** The length that is written in the `i`th place. */
  function Ordered(cl: seq<nat>, i: nat): nat
    requires |cl| == CODE_LENGTH_CODES && i < CODE_LENGTH_CODES
  {
    OrderIsPermutation();
    cl[CODE_LENGTH_ORDER[i]]
  }

  /** The fixed code for lengths of up to five bits. */
  function ValueBits(v: nat): seq<bool>
  {
    if v == 0 then [false, false]
    else if v == 1 then [true, true, true, false]
    else if v == 2 then [true, true, false]
    else if v == 3 then [false, true]
    else if v == 4 then [true, false]
    else [true, true, true, true]
  }

  /** The first two places may be skipped when empty, the third with them. */
  function Skip(cl: seq<nat>): (n: nat)
    requires |cl| == CODE_LENGTH_CODES
    ensures n == 0 || n == 2 || n == 3
  {
    if Ordered(cl, 0) == 0 && Ordered(cl, 1) == 0 then (if Ordered(cl, 2) == 0 then 3 else 2) else 0
  }

  /** One past the last place in use among the first `n`. */
  function LastUsed(cl: seq<nat>, n: nat): (end: nat)
    requires |cl| == CODE_LENGTH_CODES && n <= CODE_LENGTH_CODES
    ensures end <= n && (forall i :: end <= i < n ==> Ordered(cl, i) == 0) && (end > 0 ==> Ordered(cl, end - 1) > 0)
  {
    if n == 0 then 0 else if Ordered(cl, n - 1) != 0 then n else LastUsed(cl, n - 1)
  }

  /** A code of one symbol is written out to the last place. */
  function Stored(cl: seq<nat>): (n: nat)
    requires |cl| == CODE_LENGTH_CODES
    ensures n <= CODE_LENGTH_CODES
  {
    if NonZero(cl) == 1 then CODE_LENGTH_CODES else LastUsed(cl, CODE_LENGTH_CODES)
  }

  function HeaderFrom(cl: seq<nat>, i: nat, end: nat): seq<bool>
    requires |cl| == CODE_LENGTH_CODES && i <= end <= CODE_LENGTH_CODES
    decreases end - i
  {
    if i == end then [] else ValueBits(Ordered(cl, i)) + HeaderFrom(cl, i + 1, end)
  }

  /** The digit of a repeat, none for a length. */
  function DigitBits(t: Token): seq<bool>
  {
    if t.symbol < 16 then [] else Lsb(t.extra, ExtraBits(t.symbol))
  }

  /** A code of one symbol spends no bits on it. */
  function SymbolBits(cl: seq<nat>, symbol: nat): seq<bool>
    requires |cl| == CODE_LENGTH_CODES && symbol < CODE_LENGTH_CODES
  {
    if NonZero(cl) == 1 then [] else Codeword(cl, symbol)
  }

  /** Every token has a codeword in `cl`. */
  predicate Coded(cl: seq<nat>, ts: seq<Token>)
    decreases |ts|
  {
    |cl| == CODE_LENGTH_CODES && (ts == [] || (ts[0].symbol < CODE_LENGTH_CODES && cl[ts[0].symbol] > 0 &&
                                               Coded(cl, ts[1..])))
  }

  function TokensBits(cl: seq<nat>, ts: seq<Token>): seq<bool>
    requires Coded(cl, ts)
    decreases |ts|
  {
    if ts == [] then [] else SymbolBits(cl, ts[0].symbol) + DigitBits(ts[0]) + TokensBits(cl, ts[1..])
  }

  /** Lengths a code-length code can have: one symbol of one bit, or a complete code of up to five. */
  predicate CodeLengthCode(cl: seq<nat>)
  {
    && |cl| == CODE_LENGTH_CODES && (forall s :: 0 <= s < |cl| ==> cl[s] <= CODE_LENGTH_CODE_BITS)
    && (if NonZero(cl) == 1 then forall s :: 0 <= s < |cl| ==> cl[s] <= 1
        else NonZero(cl) > 1 && Space(cl, CODE_LENGTH_CODE_BITS) == Pow2(CODE_LENGTH_CODE_BITS))
  }

  lemma CompleteCodeLengthCode(cl: seq<nat>)
    requires CodeLengthCode(cl) && NonZero(cl) != 1
    ensures Complete(cl)
  {
    hide Space, Pow2, NonZero;
    EndIsSpace(cl, CODE_LENGTH_CODE_BITS);
    EndIsSpace(cl, MAX_LENGTH);
    NoLongerCodes(cl, CODE_LENGTH_CODE_BITS, MAX_LENGTH);
    Pow2Add(CODE_LENGTH_CODE_BITS, MAX_LENGTH - CODE_LENGTH_CODE_BITS);
  }

  /** All the bits after the two that say how many places are skipped. */
  function Body(cl: seq<nat>, ts: seq<Token>): seq<bool>
    requires Coded(cl, ts) && Skip(cl) <= Stored(cl)
  {
    HeaderFrom(cl, Skip(cl), Stored(cl)) + TokensBits(cl, ts)
  }

  /** What is skipped is empty, so the places in use come after it. */
  lemma SkipBeforeStored(cl: seq<nat>)
    requires CodeLengthCode(cl)
    ensures Skip(cl) <= Stored(cl)
  {
    if NonZero(cl) != 1 {
      var end := LastUsed(cl, CODE_LENGTH_CODES);
      if end < Skip(cl) {
        assert end == 0;
        OrderIsPermutation();
        forall s | 0 <= s < CODE_LENGTH_CODES
          ensures cl[s] == 0
        {
          assert Ordered(cl, PlaceOf(s)) == 0;
        }
        AllZeroNonZero(cl);
        assert false;
      }
    }
  }

  lemma {:induction false} AllZeroNonZero(cl: seq<nat>)
    requires forall s :: 0 <= s < |cl| ==> cl[s] == 0
    ensures NonZero(cl) == 0
  {
    if cl != [] {
      AllZeroNonZero(cl[1..]);
    }
  }
}
