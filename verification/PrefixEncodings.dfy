/** The encoder's prefix code for a histogram (`src/encode/prefix_code.rs`): at most four symbols are listed,
    more get minimal lengths; either way the decoder rebuilds a code that reads what the encoder writes. */
module PrefixEncodings {
  import opened Arithmetic
  import opened HuffmanTree
  import opened HuffmanLengths
  import opened LengthLimitedCode
  import opened CanonicalCode
  import opened CanonicalTables
  import opened BitStream
  import opened PrefixReading
  import opened SimplePrefixCode
  import Complex = ComplexPrefixRoundTrip
  import Tokens = ComplexPrefixEncoder
  import opened Outcomes

  const MAX_CODE_BITS: nat := 15
  const SIMPLE_LIMIT: nat := 4
  const MAX_ALPHABET: nat := 704

  /** The symbols if they are listed, the lengths if not; and every symbol's codeword. */
  datatype PrefixEncoding = PrefixEncoding(simple: seq<nat>, codes: seq<Option<SymbolCode>>, lengths: seq<nat>)

  /** The code lengths the decoder will have. */
  function LengthsOf(e: PrefixEncoding): seq<nat>
  {
    if 1 <= |e.simple| <= 4 then SimpleLengths(e.simple, false, |e.codes|) else e.lengths
  }

  function Word(code: SymbolCode): seq<bool>
  {
    Msb(code.code, code.bits)
  }

  /** Lengths the decoder can make a code from. */
  predicate Decodable(lengths: seq<nat>)
  {
    NonZero(lengths) == 1 || Complete(lengths)
  }

  /** A symbol that occurs has the codeword the decoder reads, and one that does not has none. */
  predicate WritesSymbol(code: Option<SymbolCode>, lengths: seq<nat>, s: nat, frequency: nat)
    requires s < |lengths|
  {
    if frequency == 0 then code.None? else code.Some? && Word(code.value) == SymbolWord(lengths, s)
  }

  /** Exactly the symbols that occur have a length and a codeword, and it is the one the decoder reads. */
  ghost predicate Encodes(e: PrefixEncoding, frequencies: seq<nat>)
  {
    var lengths := LengthsOf(e);
    && |lengths| == |e.codes| == |frequencies| && Decodable(lengths)
    && (forall s :: 0 <= s < |frequencies| ==> (lengths[s] > 0 <==> frequencies[s] > 0))
    && (forall s :: 0 <= s < |frequencies| ==> WritesSymbol(e.codes[s], lengths, s, frequencies[s]))
    && (e.simple != [] ==> |e.simple| <= SIMPLE_LIMIT && Listable(e.simple, |e.codes|))
    && (e.simple == [] ==> Complete(lengths))
  }

  /** The symbols below `n` that occur. */
  function Used(frequencies: seq<nat>, n: nat): (u: seq<nat>)
    requires n <= |frequencies|
    ensures forall i :: 0 <= i < |u| ==> u[i] < n && frequencies[u[i]] > 0
    ensures Ascending(u)
  {
    if n == 0 then [] else Used(frequencies, n - 1) + if frequencies[n - 1] > 0 then [n - 1] else []
  }

  lemma {:induction false} UsedComplete(frequencies: seq<nat>, n: nat, s: nat)
    requires s < n <= |frequencies| && frequencies[s] > 0
    ensures s in Used(frequencies, n)
  {
    if s < n - 1 {
      UsedComplete(frequencies, n - 1, s);
    }
  }

  lemma {:induction false} ActiveSnoc(counts: seq<nat>, n: nat)
    requires n < |counts|
    ensures Active(counts[..n + 1]) == Active(counts[..n]) + if counts[n] > 0 then 1 else 0
    decreases n
  {
    if n == 0 {
      assert counts[..1][1..] == [] && counts[..0] == [];
    } else {
      ActiveSnoc(counts[1..], n - 1);
      assert counts[..n + 1][1..] == counts[1..][..n] && counts[..n][1..] == counts[1..][..n - 1];
    }
  }

  lemma {:induction false} UsedCount(frequencies: seq<nat>, n: nat)
    requires n <= |frequencies|
    ensures |Used(frequencies, n)| == Active(frequencies[..n])
  {
    if n > 0 {
      UsedCount(frequencies, n - 1);
      ActiveSnoc(frequencies, n - 1);
    }
  }

  lemma AscendingListable(symbols: seq<nat>, size: nat)
    requires Ascending(symbols) && forall i :: 0 <= i < |symbols| ==> symbols[i] < size
    ensures Listable(symbols, size)
  {
  }

  /** The lowest symbols that occur, up to four of them, and how many there are. */
  method CollectSymbols(frequencies: seq<nat>) returns (simple: seq<nat>, count: nat)
    ensures count == Active(frequencies)
    ensures count <= SIMPLE_LIMIT ==> simple == Used(frequencies, |frequencies|)
  {
    simple, count := [], 0;
    hide Used;
    StartsEmpty(frequencies);
    for s := 0 to |frequencies|
      invariant count == |Used(frequencies, s)|
      invariant count <= SIMPLE_LIMIT ==> simple == Used(frequencies, s)
    {
      UsedStep(frequencies, s);
      if frequencies[s] != 0 {
        if count < SIMPLE_LIMIT {
          simple := simple + [s];
        }
        count := count + 1;
      }
    }
    UsedCount(frequencies, |frequencies|);
    assert frequencies[..|frequencies|] == frequencies;
  }

  lemma StartsEmpty(frequencies: seq<nat>)
    ensures Used(frequencies, 0) == []
  {
  }

  lemma UsedStep(frequencies: seq<nat>, s: nat)
    requires s < |frequencies|
    ensures Used(frequencies, s + 1) == Used(frequencies, s) + if frequencies[s] > 0 then [s] else []
  {
  }

  /** Codewords by place in the list. */
  method SimpleCodes(symbols: seq<nat>, size: nat) returns (codes: seq<Option<SymbolCode>>)
    requires Listable(symbols, size)
    ensures |codes| == size
    ensures forall i :: 0 <= i < |symbols| ==> codes[symbols[i]] == Some(SimpleSymbolCode(i, |symbols|))
    ensures forall s :: 0 <= s < size && s !in symbols ==> codes[s] == None
  {
    codes := seq(size, _ => None);
    for i := 0 to |symbols|
      invariant |codes| == size
      invariant forall j :: 0 <= j < i ==> codes[symbols[j]] == Some(SimpleSymbolCode(j, |symbols|))
      invariant forall s :: 0 <= s < size && s !in symbols ==> codes[s] == None
      invariant forall j :: i <= j < |symbols| ==> codes[symbols[j]] == None
    {
      codes := codes[symbols[i] := Some(SimpleSymbolCode(i, |symbols|))];
    }
  }

  /** Listed symbols are encoded. */
  lemma SimpleEncodes(frequencies: seq<nat>, simple: seq<nat>, codes: seq<Option<SymbolCode>>)
    requires simple == Used(frequencies, |frequencies|) && 1 <= |simple| <= SIMPLE_LIMIT
    requires |codes| == |frequencies|
    requires forall i :: 0 <= i < |simple| ==> codes[simple[i]] == Some(SimpleSymbolCode(i, |simple|))
    requires forall s :: 0 <= s < |codes| && s !in simple ==> codes[s] == None
    ensures Encodes(PrefixEncoding(simple, codes, []), frequencies)
  {
    hide SimpleLengths, Used, Complete, NonZero, Listable, WritesSymbol, SimpleSymbolCode;
    var size := |codes|;
    AscendingListable(simple, size);
    SimpleIsCode(simple, false, size);
    forall s | 0 <= s < size
      ensures (s in simple <==> frequencies[s] > 0) && WritesSymbol(codes[s], SimpleLengths(simple, false, size), s,
                                                                    frequencies[s])
    {
      if frequencies[s] > 0 {
        UsedComplete(frequencies, size, s);
        var i :| 0 <= i < |simple| && simple[i] == s;
        SimpleWord(simple, size, i, frequencies[s]);
      } else {
        assert s !in simple;
        NothingWritten(SimpleLengths(simple, false, size), s);
      }
    }
  }

  lemma NothingWritten(lengths: seq<nat>, s: nat)
    requires s < |lengths|
    ensures WritesSymbol(None, lengths, s, 0)
  {
  }

  lemma SimpleWord(simple: seq<nat>, size: nat, i: nat, frequency: nat)
    requires 1 <= |simple| <= SIMPLE_LIMIT && Listable(simple, size) && Ascending(simple) && i < |simple|
    ensures WritesSymbol(Some(SimpleSymbolCode(i, |simple|)), SimpleLengths(simple, false, size), simple[i],
                         frequency) || frequency == 0
  {
    SimpleIsCode(simple, false, size);
    hide SimpleLengths, Complete, NonZero, Code;
    if |simple| > 1 {
      SimpleCodesAreCanonical(simple, size, i);
    }
  }

  /** More symbols than can be listed are encoded by lengths. */
  lemma LengthsEncode(frequencies: seq<nat>, lengths: seq<nat>, codes: seq<Option<SymbolCode>>)
    requires Active(frequencies) > SIMPLE_LIMIT && CoversUsed(frequencies, lengths, MAX_CODE_BITS)
    requires Space(lengths, MAX_CODE_BITS) == Pow2(MAX_CODE_BITS) && |codes| == |lengths|
    requires forall s :: 0 <= s < |lengths| ==>
               codes[s] == if lengths[s] == 0 then None else Some(SymbolCode(Code(lengths, s), lengths[s]))
    ensures Encodes(PrefixEncoding([], codes, lengths), frequencies)
  {
    hide Space, Pow2, Active, NonZero, Code;
    Tokens.ActiveIsNonZero(frequencies, lengths);
  }

  /** The lengths are minimal for the counts raised to this limit, and nothing was raised without need: unless the
      limit is one, the trees for the counts themselves and for half the limit are too tall. */
  ghost predicate ServesRaised(frequencies: seq<nat>, lengths: seq<nat>, limit: nat)
  {
    && Minimal(Raised(frequencies, limit), lengths)
    && (limit != 1 ==> TooTall(frequencies, 1, MAX_CODE_BITS) && TooTall(frequencies, limit / 2, MAX_CODE_BITS))
  }

  /** A code made from counts: up to four symbols are listed as they come, more get minimal lengths, for the counts
      themselves if a tree for them is not too tall. */
  ghost predicate MadeFor(e: PrefixEncoding, frequencies: seq<nat>)
  {
    && Encodes(e, frequencies)
    && if Active(frequencies) <= SIMPLE_LIMIT then e.simple == Used(frequencies, |frequencies|)
       else e.simple == [] && exists limit :: ServesRaised(frequencies, LengthsOf(e), limit)
  }

  /** If a tree for the counts is not too tall, no lengths of any prefix code spend less on them. */
  lemma ServesCounts(e: PrefixEncoding, frequencies: seq<nat>)
    requires MadeFor(e, frequencies) && Active(frequencies) > SIMPLE_LIMIT
    requires !TooTall(frequencies, 1, MAX_CODE_BITS)
    ensures Minimal(frequencies, LengthsOf(e))
  {
    hide Encodes, LengthsOf, TooTall, Minimal, Raised, Active, Used;
    RaisedToOne(frequencies);
  }

  /** The code for a histogram; none if nothing occurs. */
  method FromFrequencies(frequencies: seq<nat>) returns (e: Option<PrefixEncoding>)
    requires |frequencies| <= MAX_ALPHABET && Total(frequencies) <= MAX_TOTAL
    ensures e.None? <==> Active(frequencies) == 0
    ensures e.Some? ==> Encodes(e.value, frequencies) && MadeFor(e.value, frequencies)
    ensures e.Some? && Active(frequencies) > SIMPLE_LIMIT && !TooTall(frequencies, 1, MAX_CODE_BITS) ==>
              Minimal(frequencies, LengthsOf(e.value))
  {
    hide Active, Total, Used, Encodes, Minimal, Raised, Space, CoversUsed, TooTall, Code;
    var simple, count := CollectSymbols(frequencies);
    if count == 0 {
      return None;
    }
    if count <= SIMPLE_LIMIT {
      UsedWithin(frequencies);
      var codes := SimpleCodes(simple, |frequencies|);
      SimpleEncodes(frequencies, simple, codes);
      return Some(PrefixEncoding(simple, codes, []));
    }
    Tokens.ActiveBound(frequencies);
    var lengths;
    ghost var limit;
    lengths, limit := HuffmanCodeLengthsWithLimit(frequencies, MAX_CODE_BITS);
    CoveredFits(frequencies, lengths);
    var codes := CanonicalCodes(lengths);
    LengthsEncode(frequencies, lengths, codes);
    e := Some(PrefixEncoding([], codes, lengths));
    assert ServesRaised(frequencies, LengthsOf(e.value), limit);
    if !TooTall(frequencies, 1, MAX_CODE_BITS) {
      ServesCounts(e.value, frequencies);
    }
  }

  lemma UsedWithin(frequencies: seq<nat>)
    ensures |Used(frequencies, |frequencies|)| == Active(frequencies)
    ensures Listable(Used(frequencies, |frequencies|), |frequencies|)
  {
    UsedCount(frequencies, |frequencies|);
    assert frequencies[..|frequencies|] == frequencies;
    AscendingListable(Used(frequencies, |frequencies|), |frequencies|);
  }

  lemma CoveredFits(frequencies: seq<nat>, lengths: seq<nat>)
    requires CoversUsed(frequencies, lengths, MAX_CODE_BITS) && Space(lengths, MAX_CODE_BITS) == Pow2(MAX_CODE_BITS)
    ensures Fits(lengths)
  {
    hide Space, Pow2;
  }

  /** What may be written for a code: its symbols, or the lengths in their complex form. */
  ghost predicate IsTree(e: PrefixEncoding, bits: seq<bool>)
  {
    if e.simple != [] then bits == Lsb(1, 2) + SimpleBits(e.simple, |e.codes|) else Complex.IsForm(e.lengths, bits)
  }

  method WriteTree(e: PrefixEncoding, ghost frequencies: seq<nat>) returns (bits: seq<bool>)
    requires Encodes(e, frequencies) && 0 < |frequencies| <= MAX_ALPHABET
    ensures IsTree(e, bits)
  {
    EncodesFacts(e, frequencies);
    hide Encodes, Complete, SimpleLengths, SimpleBits;
    if e.simple != [] {
      bits := Lsb(1, 2) + SimpleBits(e.simple, |e.codes|);
    } else {
      bits := Complex.WriteCode(e.lengths);
    }
  }

  lemma TreeSelector(e: PrefixEncoding, written: seq<bool>, rest: seq<bool>)
    requires IsTree(e, written)
    ensures |written + rest| >= 2 && (FromLsb((written + rest)[..2]) == 1 <==> e.simple != [])
    ensures e.simple != [] ==> (written + rest)[2..] == SimpleBits(e.simple, |e.codes|) + rest
  {
    hide SimpleBits, Complex.IsForm, Lsb, FromLsb;
    if e.simple != [] {
      SimpleSelector(SimpleBits(e.simple, |e.codes|), rest);
    } else {
      Complex.StartsWithSkip(e.lengths, written, rest);
    }
  }

  lemma EncodedSize(e: PrefixEncoding, frequencies: seq<nat>)
    requires Encodes(e, frequencies)
    ensures |e.codes| == |frequencies|
  {
    hide LengthsOf, Decodable, WritesSymbol, Complete, Listable;
  }

  lemma EncodesFacts(e: PrefixEncoding, frequencies: seq<nat>)
    requires Encodes(e, frequencies)
    ensures e.simple != [] ==>
            1 <= |e.simple| <= SIMPLE_LIMIT && Listable(e.simple, |e.codes|) &&
            LengthsOf(e) == SimpleLengths(e.simple, false, |e.codes|)
    ensures e.simple == [] ==> LengthsOf(e) == e.lengths && Complete(e.lengths) && |e.lengths| == |frequencies|
    ensures |e.codes| == |frequencies|
  {
    hide Complete, NonZero, SymbolWord, SimpleLengths;
  }

  lemma SimpleSelector(body: seq<bool>, rest: seq<bool>)
    ensures var bits := Lsb(1, 2) + body + rest; FromLsb(bits[..2]) == 1 && bits[2..] == body + rest
  {
    ValueOfOne();
    hide Lsb, FromLsb;
    assert Lsb(1, 2) + body + rest == Lsb(1, 2) + (body + rest);
    TakesFirst(Lsb(1, 2), body + rest);
  }

  lemma ValueOfOne()
    ensures FromLsb(Lsb(1, 2)) == 1
  {
    assert Pow2(2) == 4;
    ValueOfLsb(1, 2);
  }

  lemma TakesFirst(first: seq<bool>, rest: seq<bool>)
    ensures (first + rest)[..|first|] == first && (first + rest)[|first|..] == rest
  {
  }
}
