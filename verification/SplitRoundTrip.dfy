/** A stream of symbols all the way (`src/encode/greedy/block_split.rs`): split, counted, given codes that the decoder
    rebuilds from what is written of them, written, and read back symbol by symbol under the same types. */
module SplitRoundTrip {
  import opened Arithmetic
  import opened HuffmanLengths
  import opened ComplexPrefixDecoder
  import opened PrefixEncodings
  import opened PrefixCodeReading
  import opened CommandEmission
  import opened BlockSplitting
  import opened BlockStates
  import opened BlockCursors
  import opened SplitStreams
  import opened Outcomes
  import Tokens = ComplexPrefixEncoder

  const MAX_SYMBOLS: nat := 0x100_0000
  const MAX_MIN_BLOCK_SIZE: nat := 16624

  function Tallies(n: nat, symbols: seq<nat>, kinds: seq<nat>, k: nat, t: nat, base: nat): (h: seq<nat>)
    requires k <= |symbols| && k <= |kinds|
    ensures |h| == n && forall s :: 0 <= s < n ==> h[s] == Tally(symbols, kinds, k, t, base + s)
  {
    if n == 0 then [] else Tallies(n - 1, symbols, kinds, k, t, base) + [Tally(symbols, kinds, k, t, base + n - 1)]
  }

  /** A histogram of some of the symbols counts no more than there are. */
  lemma {:induction false} TallySum(h: seq<nat>, symbols: seq<nat>, kinds: seq<nat>, k: nat, t: nat, base: nat)
    requires k <= |symbols| && k <= |kinds|
    requires forall s :: 0 <= s < |h| ==> h[s] == Tally(symbols, kinds, k, t, base + s)
    ensures Total(h) <= k
    decreases k
  {
    if k == 0 {
      assert h == Zeros(|h|);
      ZerosTotal(|h|);
    } else {
      var before := Tallies(|h|, symbols, kinds, k - 1, t, base);
      TallySum(before, symbols, kinds, k - 1, t, base);
      var s := symbols[k - 1];
      if kinds[k - 1] == t && base <= s < base + |h| {
        assert h == before[s - base := before[s - base] + 1];
        TotalOne(before, s - base);
      } else {
        assert h == before;
      }
    }
  }

  /** The code for a histogram, as the decoder reads it from what is written: it has a word for everything
      that is counted. */
  method CodeForHistogram(histogram: seq<nat>) returns (lengths: seq<nat>, code: PrefixCode)
    requires 0 < |histogram| <= MAX_ALPHABET && Total(histogram) < MAX_TOTAL
    ensures WritesCounted(histogram, lengths) && CodeFor(code, lengths)
  {
    hide Total, Active, LengthsOf, CodeFor;
    var frequencies := new nat[|histogram|](i requires 0 <= i < |histogram| => histogram[i]);
    assert frequencies[..] == histogram;
    SeedEmptyHistogram(frequencies);
    assert forall c :: 0 <= c < |histogram| ==> histogram[c] > 0 ==> frequencies[c] > 0;
    var e := FromFrequencies(frequencies[..]);
    code, lengths := ReadBack(e.value, frequencies[..]);
  }

  /** Writes a code and reads it back. */
  method ReadBack(e: PrefixEncoding, ghost frequencies: seq<nat>) returns (code: PrefixCode, lengths: seq<nat>)
    requires Encodes(e, frequencies) && 0 < |frequencies| <= MAX_ALPHABET
    ensures WritesCounted(frequencies, lengths) && CodeFor(code, lengths)
  {
    hide CodeFor, LengthsOf, Decodable, WritesSymbol;
    var written, left;
    written, code, left := WriteThenRead(e, frequencies, []);
    lengths := LengthsOf(e);
  }

  /** Codes for block types and lengths, if there is more than one type. */
  method CodesForSwitches(numTypes: nat, types: seq<nat>, lengths: seq<nat>)
    returns (p: Partition, typeLengths: seq<nat>, lengthLengths: seq<nat>)
    requires Blocks(numTypes, types, lengths) && numTypes <= MAX_BLOCK_TYPES && |types| < MAX_TOTAL &&
             (numTypes >= 2 ==> |types| >= 2)
    ensures p.numTypes == numTypes && Encodable(p, types, lengths, typeLengths, lengthLengths)
  {
    hide CodeFor, Total, Active, Encodes, LengthSymbol;
    if numTypes == 1 {
      p := Partition(1, Single(0), Single(0));
      typeLengths, lengthLengths := [], [];
      return;
    }
    assert types[0] < numTypes && 0 < lengths[0] < LENGTH_LIMIT;
    var typeCounts, lengthCounts := CountSwitches(types, lengths, numTypes);
    assert TypeSymbolAt(types, 1) < |typeCounts| && typeCounts[TypeSymbolAt(types, 1)] > 0;
    Tokens.SomeActive(typeCounts, TypeSymbolAt(types, 1));
    assert lengthCounts[LengthSymbol(lengths[0])] > 0;
    Tokens.SomeActive(lengthCounts, LengthSymbol(lengths[0]));
    var typeCode := FromFrequencies(typeCounts);
    var lengthCode := FromFrequencies(lengthCounts);
    var a, b;
    a, typeLengths := ReadBack(typeCode.value, typeCounts);
    b, lengthLengths := ReadBack(lengthCode.value, lengthCounts);
    p := Partition(numTypes, a, b);
    SwitchesHaveCodes(p, types, lengths, typeCounts, lengthCounts, typeLengths, lengthLengths);
  }

  lemma SwitchesHaveCodes(p: Partition, types: seq<nat>, lengths: seq<nat>, typeCounts: seq<nat>,
                          lengthCounts: seq<nat>, typeLengths: seq<nat>,
                          lengthLengths: seq<nat>)
    requires Blocks(p.numTypes, types, lengths) && CodeFor(p.typeCode, typeLengths) &&
             CodeFor(p.lengthCode, lengthLengths)
    requires |lengthCounts| == BLOCK_LENGTH_ALPHABET_SIZE && WritesCounted(typeCounts, typeLengths) &&
             WritesCounted(lengthCounts, lengthLengths)
    requires forall i :: 0 < i < |types| ==>
             TypeSymbolAt(types, i) < |typeCounts| && typeCounts[TypeSymbolAt(types, i)] > 0
    requires forall i :: 0 <= i < |types| ==> lengthCounts[LengthSymbol(lengths[i])] > 0
    ensures Encodable(p, types, lengths, typeLengths, lengthLengths)
  {
    hide CodeFor, LengthSymbol, TypeSymbolAt;
  }

  /** A code for every histogram. */
  method CodesForTrees(pieces: seq<seq<nat>>, ghost alphabet: nat, ghost most: nat)
    returns (treeLengths: seq<seq<nat>>, codes: seq<PrefixCode>)
    requires 0 < alphabet <= MAX_ALPHABET && most < MAX_TOTAL
    requires forall t :: 0 <= t < |pieces| ==> |pieces[t]| == alphabet && Total(pieces[t]) <= most
    ensures |treeLengths| == |pieces| && forall t :: 0 <= t < |pieces| ==> WritesCounted(pieces[t], treeLengths[t])
    ensures CodesFor(codes, treeLengths)
  {
    hide CodeFor, Total, WritesCounted;
    treeLengths, codes := [], [];
    for t := 0 to |pieces|
      invariant |treeLengths| == t && forall u :: 0 <= u < t ==> WritesCounted(pieces[u], treeLengths[u])
      invariant CodesFor(codes, treeLengths)
    {
      var lengths, code := CodeForHistogram(pieces[t]);
      treeLengths, codes := treeLengths + [lengths], codes + [code];
    }
  }

  lemma BlocksOfSplit(numTypes: nat, types: seq<nat>, lengths: seq<nat>, minSize: nat, most: nat)
    requires |types| == |lengths| > 0 && types[0] == 0 && forall i :: 0 <= i < |types| ==> types[i] < numTypes
    requires 0 < minSize && Sizes(lengths, minSize) && |Expanded(types, lengths)| <= most < LENGTH_LIMIT
    ensures Blocks(numTypes, types, lengths) && |types| <= most
  {
    hide Expanded;
    forall i | 0 <= i < |lengths|
      ensures 0 < lengths[i] < LENGTH_LIMIT
    {
      LengthBelow(types, lengths, i);
    }
    BlocksBelow(types, lengths, minSize);
    MulMonotone(|types|, 1, minSize);
  }

  lemma PieceTotals(pieces: seq<seq<nat>>, alphabet: nat, contextCount: nat, composites: seq<nat>, types: seq<nat>,
                    lengths: seq<nat>,
                    numTypes: nat, tree: nat)
    requires CutTallied(pieces, alphabet, contextCount, composites, types, lengths, numTypes) && contextCount > 0 &&
             tree < |pieces|
    ensures |pieces[tree]| == alphabet && Total(pieces[tree]) <= |composites|
  {
    hide Tally, Expanded, Total;
    var t, x := Quotient(tree, contextCount), Remainder(tree, contextCount);
    Recombine(tree, contextCount);
    QuotientBelow(tree, numTypes, contextCount);
    assert PieceTallied(pieces, alphabet, contextCount, composites, Expanded(types, lengths), t, x);
    TallySum(pieces[tree], composites, Expanded(types, lengths), |composites|, t, Times(x, alphabet));
  }

  lemma LimitIsLarge()
    ensures LENGTH_LIMIT == 16625 + MAX_SYMBOLS
  {
    Pow2Of24();
  }

  /** Whatever the entropies say: the stream is split, and every symbol is read back under its type and with
      the code of its type and context, by a decoder that starts in the first block. */
  method EncodeSplit(symbols: seq<nat>, contexts: seq<nat>, alphabet: nat, contextCount: nat, minBlockSize: nat,
                     splitThreshold: real,
                     entropyOf: (seq<nat>, nat) -> real, combinedEntropyOf: (seq<nat>, seq<nat>, nat) -> real)
    returns (words: seq<seq<bool>>, p: Partition, codes: seq<PrefixCode>, types: seq<nat>, lengths: seq<nat>,
             ghost places: seq<Place>)
    requires |symbols| == |contexts| <= MAX_SYMBOLS && 0 < alphabet <= MAX_ALPHABET
    requires 0 < contextCount <= MAX_BLOCK_TYPES && 0 < minBlockSize <= MAX_MIN_BLOCK_SIZE
    requires forall i :: 0 <= i < |symbols| ==> symbols[i] < alphabet && contexts[i] < contextCount
    ensures |words| == |symbols| && Blocks(p.numTypes, types, lengths) && |symbols| <= |Expanded(types, lengths)|
    ensures |places| == |symbols| + 1 && places[0] == Place(0, 1, lengths[0])
    ensures IsAt(p, BlockState(0, (1, 0), lengths[0], NoSearch(), NoSearch(), None, false), places[0])
    ensures StreamReads(p, codes, contextCount, Expanded(types, lengths), symbols, contexts, words, places, |symbols|)
  {
    hide Expanded, CutTallied, Sizes, Blocks, Encodable, Total, CodesFor, Writable, StreamReads, Quotient,
         WritesCounted;
    LimitIsLarge();
    var numTypes, pieces;
    ghost var composites;
    types, lengths, numTypes, pieces, composites :=
      SplitSymbols(symbols, contexts, alphabet, contextCount, minBlockSize, splitThreshold, entropyOf,
                   combinedEntropyOf);
    BlocksOfSplit(numTypes, types, lengths, minBlockSize, |symbols| + minBlockSize);
    var typeLengths, lengthLengths;
    p, typeLengths, lengthLengths := CodesForSwitches(numTypes, types, lengths);
    forall t | 0 <= t < |pieces|
      ensures |pieces[t]| == alphabet && Total(pieces[t]) <= |symbols|
    {
      PieceTotals(pieces, alphabet, contextCount, composites, types, lengths, numTypes, t);
    }
    var treeLengths;
    treeLengths, codes := CodesForTrees(pieces, alphabet, |symbols|);
    SplitIsWritable(pieces, alphabet, contextCount, composites, types, lengths, numTypes, symbols, contexts,
                    treeLengths);
    words, places := WriteStream(p, codes, numTypes, types, lengths, typeLengths, lengthLengths, treeLengths,
                                 contextCount, symbols, contexts);
  }

  /** Gives all the symbols to a splitter. */
  method SplitSymbols(symbols: seq<nat>, contexts: seq<nat>, alphabet: nat, contextCount: nat, minBlockSize: nat,
                      splitThreshold: real,
                      entropyOf: (seq<nat>, nat) -> real, combinedEntropyOf: (seq<nat>, seq<nat>, nat) -> real)
    returns (types: seq<nat>, lengths: seq<nat>, numTypes: nat, pieces: seq<seq<nat>>, ghost composites: seq<nat>)
    requires |symbols| == |contexts| && 0 < contextCount <= MAX_BLOCK_TYPES && minBlockSize > 0
    requires forall i :: 0 <= i < |symbols| ==> symbols[i] < alphabet && contexts[i] < contextCount
    ensures Composed(composites, symbols, contexts, alphabet, contextCount)
    ensures |types| == |lengths| > 0 && types[0] == 0 && (forall i :: 0 <= i < |types| ==> types[i] < numTypes)
    ensures numTypes <= MAX_BLOCK_TYPES && (numTypes >= 2 ==> |types| >= 2)
    ensures Sizes(lengths, minBlockSize) && |symbols| <= |Expanded(types, lengths)| <= |symbols| + minBlockSize
    ensures CutTallied(pieces, alphabet, contextCount, composites, types, lengths, numTypes)
  {
    hide Expanded, CutTallied, Sizes, Composite, Holding, Room, LastTypes, Quotient;
    var splitter := new GreedyBlockSplitter(alphabet, contextCount, minBlockSize, splitThreshold, |symbols|, entropyOf,
                                            combinedEntropyOf);
    for i := 0 to |symbols|
      invariant splitter.Valid() && fresh(splitter) && splitter.numSymbols == |symbols| &&
                splitter.minBlockSize == minBlockSize
      invariant splitter.symbolAlphabetSize == alphabet && splitter.contextCount == contextCount
      invariant Composed(splitter.symbols, symbols[..i], contexts[..i], alphabet, contextCount)
    {
      splitter.AddContextSymbol(symbols[i], contexts[i]);
    }
    assert symbols[..|symbols|] == symbols && contexts[..|symbols|] == contexts;
    TypesWithin(splitter.maxBlockTypes, contextCount);
    pieces := splitter.FinishPerContext();
    types, lengths, numTypes, composites := splitter.types, splitter.lengths, splitter.numTypes, splitter.symbols;
  }

  lemma TypesWithin(maxBlockTypes: nat, contextCount: nat)
    requires contextCount > 0
    ensures maxBlockTypes == Quotient(MAX_BLOCK_TYPES, contextCount) ==> maxBlockTypes <= MAX_BLOCK_TYPES
  {
    BlockSplitting.QuotientSmall(MAX_BLOCK_TYPES, contextCount);
  }
}
