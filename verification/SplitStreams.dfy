/** A stream of symbols under a split (`src/encode/greedy/block_split.rs`): every symbol has a codeword in its
    type's code, and the decoder reads each symbol back under that type, whatever stands between them. */
module SplitStreams {
  import opened Arithmetic
  import opened ComplexPrefixDecoder
  import opened BlockSplitting
  import opened BlockStates
  import opened CompressedBlock
  import opened PrefixReading
  import opened BlockCursors
  import opened Outcomes

  /** Where a decoder is in the split. */
  datatype Place = Place(last: nat, secondLast: nat, remaining: nat)

  predicate IsAt(p: Partition, b: BlockState, place: Place)
  {
    Follows(p, b, place.last, place.secondLast, place.remaining)
  }

  /** Any decoder at the first place reads the symbol under the type, with the code given, takes the word's
      bits and no more, and is then at the second place. */
  ghost predicate ReadsSymbolBack(p: Partition, code: PrefixCode, from: Place, word: seq<bool>, t: nat, symbol: nat,
                                  to: Place)
  {
    forall b: BlockState, rest: seq<bool> :: IsAt(p, b, from) ==>
      var (c, ready, left) := SwitchRun(p, b, word + rest);
      ready && CurrentType(p, c) == t && SymbolRun(code, NoSearch(), left) == (NoSearch(), Some(symbol), rest) &&
        IsAt(p, Consumed(p, c), to)
  }

  /** A switch that is read back, then a codeword. */
  lemma SwitchThenSymbol(p: Partition, code: PrefixCode, from: Place, switch: seq<bool>, t: nat, lengths: seq<nat>,
                         symbol: nat, to: Place)
    requires ReadsBack(p, from.last, from.secondLast, from.remaining, switch, to.last, to.secondLast, to.remaining + 1)
    requires t == to.last && (p.numTypes == 1 ==> t == 0) && CodeFor(code, lengths) && symbol < |lengths| &&
             lengths[symbol] > 0
    ensures ReadsSymbolBack(p, code, from, switch + SymbolWord(lengths, symbol), t, symbol, to)
  {
    hide SwitchRun, SymbolRun, CodeFor, SymbolWord, Follows;
    forall b: BlockState, rest: seq<bool> | IsAt(p, b, from)
      ensures var (c, ready, left) := SwitchRun(p, b, switch + SymbolWord(lengths, symbol) + rest);
              ready && CurrentType(p, c) == t && SymbolRun(code, NoSearch(), left) ==
                (NoSearch(), Some(symbol), rest) && IsAt(p, Consumed(p, c), to)
    {
      assert switch + SymbolWord(lengths, symbol) + rest == switch + (SymbolWord(lengths, symbol) + rest);
      var r := SwitchRun(p, b, switch + (SymbolWord(lengths, symbol) + rest));
      SymbolFollows(p, r.0, to.last, to.secondLast, to.remaining + 1);
      SymbolRoundTrip(code, lengths, symbol, rest);
    }
  }

  /** How often a symbol occurs under its own type: at least once. */
  lemma {:induction false} OccursAtLeastOnce(symbols: seq<nat>, kinds: seq<nat>, k: nat, i: nat)
    requires i < k <= |symbols| && k <= |kinds|
    ensures Tally(symbols, kinds, k, kinds[i], symbols[i]) > 0
    decreases k
  {
    if i < k - 1 {
      OccursAtLeastOnce(symbols, kinds, k - 1, i);
    }
  }

  /** Which tree a symbol is written with. */
  function TreeOf(t: nat, context: nat, contextCount: nat): nat
  {
    Times(t, contextCount) + context
  }

  /** What the splitter was given: symbols with their contexts. */
  predicate Composed(composites: seq<nat>, symbols: seq<nat>, contexts: seq<nat>, alphabet: nat, contextCount: nat)
  {
    && |composites| == |symbols| == |contexts|
    && forall i :: 0 <= i < |symbols| ==>
         symbols[i] < alphabet && contexts[i] < contextCount &&
           composites[i] == Composite(symbols[i], contexts[i], alphabet)
  }

  /** So the final histogram of its type and context counts every symbol of the stream. */
  lemma EverySymbolCounted(pieces: seq<seq<nat>>, alphabet: nat, contextCount: nat, composites: seq<nat>,
                           types: seq<nat>, lengths: seq<nat>,
                           numTypes: nat, symbols: seq<nat>, contexts: seq<nat>, i: nat)
    requires CutTallied(pieces, alphabet, contextCount, composites, types, lengths, numTypes) && i < |symbols|
    requires Composed(composites, symbols, contexts, alphabet, contextCount)
    requires forall i :: 0 <= i < |types| ==> types[i] < numTypes
    ensures var t := Expanded(types, lengths)[i];
            var tree := TreeOf(t, contexts[i], contextCount);
            t < numTypes && tree < |pieces| && |pieces[tree]| == alphabet && pieces[tree][symbols[i]] > 0
  {
    var kinds := Expanded(types, lengths);
    ExpandedTypes(types, lengths, numTypes);
    OccursAtLeastOnce(composites, kinds, |symbols|, i);
    hide Tally, Expanded, Times, Composite;
    assert PieceTallied(pieces, alphabet, contextCount, composites, kinds, kinds[i], contexts[i]);
  }

  /** Every symbol has a codeword in the code of its type and context. */
  ghost predicate Writable(symbols: seq<nat>, contexts: seq<nat>, contextCount: nat, kinds: seq<nat>,
                           treeLengths: seq<seq<nat>>)
  {
    |contexts| == |symbols| <= |kinds| &&
    forall i :: 0 <= i < |symbols| ==> SymbolWritable(symbols[i], TreeOf(kinds[i], contexts[i], contextCount),
                                                      treeLengths)
  }

  predicate SymbolWritable(symbol: nat, tree: nat, treeLengths: seq<seq<nat>>)
  {
    tree < |treeLengths| && symbol < |treeLengths[tree]| && treeLengths[tree][symbol] > 0
  }

  /** A code has a word for everything its histogram counts. */
  predicate WritesCounted(histogram: seq<nat>, lengths: seq<nat>)
  {
    |lengths| == |histogram| && forall c :: 0 <= c < |histogram| && histogram[c] > 0 ==> lengths[c] > 0
  }

  /** Codes made from the histograms of a finished split can write the stream. */
  lemma SplitIsWritable(pieces: seq<seq<nat>>, alphabet: nat, contextCount: nat, composites: seq<nat>, types: seq<nat>,
                        lengths: seq<nat>,
                        numTypes: nat, symbols: seq<nat>, contexts: seq<nat>, treeLengths: seq<seq<nat>>)
    requires CutTallied(pieces, alphabet, contextCount, composites, types, lengths, numTypes)
    requires Composed(composites, symbols, contexts, alphabet, contextCount)
    requires forall i :: 0 <= i < |types| ==> types[i] < numTypes
    requires |treeLengths| == |pieces| && forall t :: 0 <= t < |pieces| ==> WritesCounted(pieces[t], treeLengths[t])
    ensures |types| == |lengths| && Writable(symbols, contexts, contextCount, Expanded(types, lengths), treeLengths)
  {
    hide CutTallied, Expanded, Times;
    assert |types| == |lengths| && |symbols| <= |Expanded(types, lengths)| by {
      CutLengths(pieces, alphabet, contextCount, composites, types, lengths, numTypes);
    }
    forall i | 0 <= i < |symbols|
      ensures SymbolWritable(symbols[i], TreeOf(Expanded(types, lengths)[i], contexts[i], contextCount), treeLengths)
    {
      EverySymbolCounted(pieces, alphabet, contextCount, composites, types, lengths, numTypes, symbols, contexts, i);
      assert WritesCounted(pieces[TreeOf(Expanded(types, lengths)[i], contexts[i], contextCount)],
                           treeLengths[TreeOf(Expanded(types, lengths)[i], contexts[i], contextCount)]);
    }
  }

  lemma CutLengths(pieces: seq<seq<nat>>, alphabet: nat, contextCount: nat, composites: seq<nat>, types: seq<nat>,
                   lengths: seq<nat>, numTypes: nat)
    requires CutTallied(pieces, alphabet, contextCount, composites, types, lengths, numTypes)
    ensures |types| == |lengths| && |composites| <= |Expanded(types, lengths)|
  {
  }

  /** Every code is one for its lengths. */
  ghost predicate CodesFor(codes: seq<PrefixCode>, treeLengths: seq<seq<nat>>)
  {
    |codes| == |treeLengths| && forall t :: 0 <= t < |codes| ==> CodeFor(codes[t], treeLengths[t])
  }

  /** The words, one after another, take any decoder from place to place, and it reads each symbol under
      its type with the code of type and context. */
  ghost predicate StreamReads(p: Partition, codes: seq<PrefixCode>, contextCount: nat, kinds: seq<nat>,
                              symbols: seq<nat>, contexts: seq<nat>,
                              words: seq<seq<bool>>, places: seq<Place>, n: nat)
  {
    && n <= |words| && n < |places| && n <= |symbols| == |contexts| && n <= |kinds|
    && forall i :: 0 <= i < n ==> WordReads(p, codes, contextCount, kinds[i], symbols[i], contexts[i], words[i],
                                            places[i], places[i + 1])
  }

  ghost predicate WordReads(p: Partition, codes: seq<PrefixCode>, contextCount: nat, t: nat, symbol: nat, context: nat,
                            word: seq<bool>,
                            from: Place, to: Place)
  {
    var tree := TreeOf(t, context, contextCount);
    tree < |codes| && ReadsSymbolBack(p, codes[tree], from, word, t, symbol, to)
  }

  /** Writes the stream: each word is the switch that is due, if any, and the symbol's codeword. */
  method WriteStream(ghost p: Partition, ghost codes: seq<PrefixCode>, numTypes: nat, types: seq<nat>,
                     lengths: seq<nat>, typeLengths: seq<nat>,
                     lengthLengths: seq<nat>, treeLengths: seq<seq<nat>>, contextCount: nat, symbols: seq<nat>,
                       contexts: seq<nat>)
    returns (words: seq<seq<bool>>, ghost places: seq<Place>)
    requires Encodable(p, types, lengths, typeLengths, lengthLengths) && numTypes == p.numTypes
    requires |types| == |lengths| > 0 && Writable(symbols, contexts, contextCount, Expanded(types, lengths),
                                                  treeLengths)
    requires CodesFor(codes, treeLengths)
    ensures |words| == |symbols| && |places| == |symbols| + 1 && places[0] == Place(0, 1, lengths[0])
    ensures StreamReads(p, codes, contextCount, Expanded(types, lengths), symbols, contexts, words, places, |symbols|)
  {
    hide Encodable, ReadsBack, WordReads, Expanded, CodeFor, SymbolWord, TreeOf, SymbolWritable;
    var cursor := new BlockCursor(p, numTypes, types, lengths, typeLengths, lengthLengths);
    words, places := [], [Place(0, 1, lengths[0])];
    for i := 0 to |symbols|
      invariant cursor.Valid() && cursor.types == types && cursor.lengths == lengths && cursor.partition == p &&
                fresh(cursor)
      invariant cursor.position == i && |words| == i && |places| == i + 1 && places[0] == Place(0, 1, lengths[0])
      invariant places[i] == Place(cursor.lastType, cursor.secondLastType, cursor.remaining)
      invariant StreamReads(p, codes, contextCount, Expanded(types, lengths), symbols, contexts, words, places, i)
    {
      ghost var from := places[i];
      var t, word;
      ghost var switch;
      t, word, switch := cursor.BeforeSymbol([]);
      assert [] + switch == switch;
      var tree := TreeOf(t, contexts[i], contextCount);
      ghost var to := Place(cursor.lastType, cursor.secondLastType, cursor.remaining);
      assert SymbolWritable(symbols[i], TreeOf(Expanded(types, lengths)[i], contexts[i], contextCount), treeLengths);
      WordIsRead(p, codes, contextCount, t, symbols[i], contexts[i], treeLengths, switch, from, to);
      words := words + [word + WordOf(treeLengths, tree, symbols[i])];
      places := places + [to];
    }
  }

  function WordOf(treeLengths: seq<seq<nat>>, tree: nat, symbol: nat): seq<bool>
    requires SymbolWritable(symbol, tree, treeLengths)
  {
    SymbolWord(treeLengths[tree], symbol)
  }

  lemma WordIsRead(p: Partition, codes: seq<PrefixCode>, contextCount: nat, t: nat, symbol: nat, context: nat,
                   treeLengths: seq<seq<nat>>,
                   switch: seq<bool>, from: Place, to: Place)
    requires ReadsBack(p, from.last, from.secondLast, from.remaining, switch, to.last, to.secondLast, to.remaining + 1)
    requires t == to.last && (p.numTypes == 1 ==> t == 0) && CodesFor(codes, treeLengths)
    requires SymbolWritable(symbol, TreeOf(t, context, contextCount), treeLengths)
    ensures WordReads(p, codes, contextCount, t, symbol, context,
                      switch + WordOf(treeLengths, TreeOf(t, context, contextCount), symbol), from, to)
  {
    hide ReadsBack, ReadsSymbolBack, SymbolWord, CodeFor;
    var tree := TreeOf(t, context, contextCount);
    SwitchThenSymbol(p, codes[tree], from, switch, t, treeLengths[tree], symbol, to);
  }
}
