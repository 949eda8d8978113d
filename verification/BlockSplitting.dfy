/** The greedy block splitter (`src/encode/greedy/block_split.rs`): whatever the entropies say, its
    histograms count exactly the symbols of each block type. */
module BlockSplitting {
  import opened Arithmetic

  const MAX_BLOCK_TYPES: nat := 256

  /** `n` more positions of type `u`. */
  function Followed(kinds: seq<nat>, u: nat, n: nat): (r: seq<nat>)
    ensures |r| == |kinds| + n
  {
    kinds + Same(u, n)
  }

  /** The type of every position: each block's type, as often as the block is long. */
  function Expanded(types: seq<nat>, lengths: seq<nat>): seq<nat>
    requires |types| == |lengths|
    decreases |types|
  {
    if types == [] then []
    else
      var last := |types| - 1;
      Followed(Expanded(types[..last], lengths[..last]), types[last], lengths[last])
  }

  lemma ExpandedPush(types: seq<nat>, lengths: seq<nat>, t: nat, n: nat)
    requires |types| == |lengths|
    ensures Expanded(types + [t], lengths + [n]) == Followed(Expanded(types, lengths), t, n)
  {
    assert (types + [t])[..|types|] == types && (lengths + [n])[..|lengths|] == lengths;
  }

  lemma ExpandedGrow(types: seq<nat>, lengths: seq<nat>, n: nat)
    requires |types| == |lengths| > 0
    ensures var last := |types| - 1;
            Expanded(types, lengths[last := lengths[last] + n]) == Followed(Expanded(types, lengths), types[last], n)
  {
    var last := |types| - 1;
    var more := lengths[last := lengths[last] + n];
    assert more[..last] == lengths[..last];
    assert Same(types[last], lengths[last] + n) == Same(types[last], lengths[last]) + Same(types[last], n);
  }

  lemma {:induction false} ExpandedTypes(types: seq<nat>, lengths: seq<nat>, n: nat)
    requires |types| == |lengths| && forall i :: 0 <= i < |types| ==> types[i] < n
    ensures forall i :: 0 <= i < |Expanded(types, lengths)| ==> Expanded(types, lengths)[i] < n
    decreases |types|
  {
    if types != [] {
      ExpandedTypes(types[..|types| - 1], lengths[..|types| - 1], n);
    }
  }

  /** How often symbol `c` stands at a position of type `t` among the first `k`. */
  function Tally(symbols: seq<nat>, kinds: seq<nat>, k: nat, t: nat, c: nat): nat
    requires k <= |symbols| && k <= |kinds|
  {
    if k == 0 then 0
    else Tally(symbols, kinds, k - 1, t, c) + if symbols[k - 1] == c && kinds[k - 1] == t then 1 else 0
  }

  /** How often `c` stands among the positions from `from` up to `k`. */
  function Count(symbols: seq<nat>, from: nat, k: nat, c: nat): nat
    requires from <= k <= |symbols|
    decreases k
  {
    if k == from then 0 else Count(symbols, from, k - 1, c) + if symbols[k - 1] == c then 1 else 0
  }

  /** Appending symbols or types behind the first `k` changes nothing. */
  lemma {:induction false} TallyPrefix(symbols: seq<nat>, more: seq<nat>, kinds: seq<nat>, later: seq<nat>, k: nat,
                                       t: nat, c: nat)
    requires k <= |symbols| && k <= |kinds|
    ensures Tally(symbols + more, kinds + later, k, t, c) == Tally(symbols, kinds, k, t, c)
    decreases k
  {
    if k > 0 {
      TallyPrefix(symbols, more, kinds, later, k - 1, t, c);
    }
  }

  lemma {:induction false} CountPrefix(symbols: seq<nat>, more: seq<nat>, from: nat, k: nat, c: nat)
    requires from <= k <= |symbols|
    ensures Count(symbols + more, from, k, c) == Count(symbols, from, k, c)
    decreases k
  {
    if k > from {
      CountPrefix(symbols, more, from, k - 1, c);
    }
  }

  /** A block of one type adds its symbols to that type's tally and to no other. */
  lemma {:induction false} TallyBlock(symbols: seq<nat>, kinds: seq<nat>, u: nat, n: nat, k: nat, t: nat, c: nat)
    requires |kinds| <= k <= |symbols| && k <= |kinds| + n
    ensures Tally(symbols, kinds + Same(u, n), k, t, c) ==
            Tally(symbols, kinds, |kinds|, t, c) + if t == u then Count(symbols, |kinds|, k, c) else 0
    decreases k
  {
    if k == |kinds| {
      TallyPrefix(symbols, [], kinds, Same(u, n), k, t, c);
      assert symbols + [] == symbols;
    } else {
      TallyBlock(symbols, kinds, u, n, k - 1, t, c);
    }
  }

  lemma {:induction false} TallyNone(symbols: seq<nat>, kinds: seq<nat>, k: nat, t: nat, c: nat)
    requires k <= |symbols| && k <= |kinds| && forall i :: 0 <= i < |kinds| ==> kinds[i] < t
    ensures Tally(symbols, kinds, k, t, c) == 0
    decreases k
  {
    if k > 0 {
      TallyNone(symbols, kinds, k - 1, t, c);
    }
  }

  /** The histogram counts the symbols of one type. */
  ghost predicate Tallied(h: seq<nat>, symbols: seq<nat>, kinds: seq<nat>, t: nat)
    requires |kinds| <= |symbols|
  {
    forall c :: 0 <= c < |h| ==> h[c] == Tally(symbols, kinds, |kinds|, t, c)
  }

  /** The histogram counts the symbols of the block that is still open. */
  ghost predicate Counted(h: seq<nat>, symbols: seq<nat>, from: nat)
    requires from <= |symbols|
  {
    forall c :: 0 <= c < |h| ==> h[c] == Count(symbols, from, |symbols|, c)
  }

  function Added(a: seq<nat>, b: seq<nat>): (r: seq<nat>)
    requires |a| == |b|
    ensures |r| == |a|
  {
    seq(|a|, i requires 0 <= i < |a| => a[i] + b[i])
  }

  /** All closed types are tallied, and the open block is counted. */
  ghost predicate Holding(histograms: seq<seq<nat>>, size: nat, symbols: seq<nat>, kinds: seq<nat>, numTypes: nat)
  {
    && |kinds| <= |symbols| && numTypes <= |histograms| && (forall t :: 0 <= t < |histograms| ==>
                                                            |histograms[t]| == size)
    && (forall t :: 0 <= t < numTypes ==> Tallied(histograms[t], symbols, kinds, t))
    && (numTypes < |histograms| ==> Counted(histograms[numTypes], symbols, |kinds|))
  }

  lemma CountOne(symbols: seq<nat>, from: nat, s: nat, c: nat)
    requires from <= |symbols|
    ensures Count(symbols + [s], from, |symbols| + 1, c) == Count(symbols, from, |symbols|, c) + if s == c then 1 else 0
  {
    CountPrefix(symbols, [s], from, |symbols|, c);
  }

  lemma TalliedMore(h: seq<nat>, symbols: seq<nat>, s: nat, kinds: seq<nat>, t: nat)
    requires |kinds| <= |symbols| && Tallied(h, symbols, kinds, t)
    ensures Tallied(h, symbols + [s], kinds, t)
  {
    forall c | 0 <= c < |h|
      ensures Tally(symbols + [s], kinds, |kinds|, t, c) == Tally(symbols, kinds, |kinds|, t, c)
    {
      TallyPrefix(symbols, [s], kinds, [], |kinds|, t, c);
      assert kinds + [] == kinds;
    }
  }

  /** One more symbol in the open block. */
  lemma SymbolAdded(histograms: seq<seq<nat>>, size: nat, symbols: seq<nat>, kinds: seq<nat>, numTypes: nat, s: nat)
    requires Holding(histograms, size, symbols, kinds, numTypes) && numTypes < |histograms| && s < size
    ensures var h := histograms[numTypes];
            Holding(histograms[numTypes := h[s := h[s] + 1]], size, symbols + [s], kinds, numTypes)
  {
    var h := histograms[numTypes];
    var more := histograms[numTypes := h[s := h[s] + 1]];
    forall t | 0 <= t < numTypes
      ensures Tallied(more[t], symbols + [s], kinds, t)
    {
      TalliedMore(histograms[t], symbols, s, kinds, t);
    }
    forall c | 0 <= c < size
      ensures more[numTypes][c] == Count(symbols + [s], |kinds|, |symbols| + 1, c)
    {
      CountOne(symbols, |kinds|, s, c);
    }
  }

  lemma NothingOpen(symbols: seq<nat>, h: seq<nat>)
    requires forall c :: 0 <= c < |h| ==> h[c] == 0
    ensures Counted(h, symbols, |symbols|)
  {
  }

  /** A block closed under type `u`: the others' tallies stay, `u`'s gains the open block. */
  lemma TallyClosed(h: seq<nat>, open: seq<nat>, symbols: seq<nat>, kinds: seq<nat>, u: nat, t: nat)
    requires |kinds| <= |symbols| && |h| == |open| && Tallied(h, symbols, kinds, t) && Counted(open, symbols, |kinds|)
    ensures var more := Followed(kinds, u, |symbols| - |kinds|);
            Tallied(if t == u then Added(h, open) else h, symbols, more, t)
  {
    var n := |symbols| - |kinds|;
    forall c | 0 <= c < |h|
      ensures Tally(symbols, kinds + Same(u, n), |symbols|, t, c) ==
              Tally(symbols, kinds, |kinds|, t, c) + if t == u then Count(symbols, |kinds|, |symbols|, c) else 0
    {
      TallyBlock(symbols, kinds, u, n, |symbols|, t, c);
    }
  }

  lemma NoTally(open: seq<nat>, symbols: seq<nat>, kinds: seq<nat>, t: nat)
    requires |kinds| <= |symbols| && Counted(open, symbols, |kinds|) && forall i :: 0 <= i < |kinds| ==> kinds[i] < t
    ensures Tallied(open, symbols, Followed(kinds, t, |symbols| - |kinds|), t)
  {
    var zeros := Same(0, |open|);
    forall c | 0 <= c < |open|
      ensures zeros[c] == Tally(symbols, kinds, |kinds|, t, c)
    {
      TallyNone(symbols, kinds, |kinds|, t, c);
    }
    TallyClosed(zeros, open, symbols, kinds, t, t);
    assert Added(zeros, open) == open;
  }

  /** The histograms with slot `i` cleared, if there is one. */
  function Cleared(histograms: seq<seq<nat>>, i: nat): (r: seq<seq<nat>>)
    ensures |r| == |histograms| && forall t :: 0 <= t < |r| ==> |r[t]| == |histograms[t]|
  {
    if i < |histograms| then histograms[i := Same(0, |histograms[i]|)] else histograms
  }

  /** The open block becomes a type of its own. */
  lemma ClosedAsNew(histograms: seq<seq<nat>>, size: nat, symbols: seq<nat>, kinds: seq<nat>, n: nat)
    requires Holding(histograms, size, symbols, kinds, n) && n < |histograms| && forall i :: 0 <= i < |kinds| ==>
             kinds[i] < n
    ensures Holding(Cleared(histograms, n + 1), size, symbols, Followed(kinds, n, |symbols| - |kinds|), n + 1)
  {
    hide Tallied, Counted, Tally, Count;
    var r, more := Cleared(histograms, n + 1), Followed(kinds, n, |symbols| - |kinds|);
    forall t | 0 <= t < n + 1
      ensures Tallied(r[t], symbols, more, t)
    {
      if t < n {
        TallyClosed(histograms[t], histograms[n], symbols, kinds, n, t);
      } else {
        NoTally(histograms[n], symbols, kinds, n);
      }
    }
    if n + 1 < |r| {
      NothingOpen(symbols, r[n + 1]);
    }
  }

  /** The open block joins an earlier type. */
  lemma ClosedAs(histograms: seq<seq<nat>>, size: nat, symbols: seq<nat>, kinds: seq<nat>, n: nat, u: nat)
    requires Holding(histograms, size, symbols, kinds, n) && u < n < |histograms|
    ensures |histograms[u]| == |histograms[n]|
    ensures Holding(MergedInto(histograms, u, n), size, symbols, Followed(kinds, u, |symbols| - |kinds|), n)
  {
    hide Tallied, Counted, Tally, Count;
    var r, more := Cleared(histograms[u := Added(histograms[u], histograms[n])], n),
        Followed(kinds, u, |symbols| - |kinds|);
    forall t | 0 <= t < n
      ensures Tallied(r[t], symbols, more, t)
    {
      TallyClosed(histograms[t], histograms[n], symbols, kinds, u, t);
    }
    NothingOpen(symbols, r[n]);
  }

  /** The final word on a split: every histogram counts exactly the symbols of its type. */
  ghost predicate Closed(histograms: seq<seq<nat>>, size: nat, symbols: seq<nat>, types: seq<nat>, lengths: seq<nat>,
                         numTypes: nat)
  {
    && |types| == |lengths| && numTypes <= |histograms| && |symbols| <= |Expanded(types, lengths)|
    && (forall i :: 0 <= i < |types| ==> types[i] < numTypes)
    && (forall t :: 0 <= t < numTypes ==> |histograms[t]| == size)
    && forall t, c :: 0 <= t < numTypes && 0 <= c < size ==>
       histograms[t][c] == Tally(symbols, Expanded(types, lengths), |symbols|, t, c)
  }

  /** Padding behind the last symbol changes no tally. */
  lemma PaddedClosed(histograms: seq<seq<nat>>, size: nat, symbols: seq<nat>, kinds: seq<nat>, types: seq<nat>,
                     lengths: seq<nat>,
                     u: nat, padded: nat, numTypes: nat)
    requires |types| == |lengths| && |kinds| <= |symbols| && |symbols| - |kinds| <= padded
    requires Holding(histograms, size, symbols, Followed(kinds, u, |symbols| - |kinds|), numTypes)
    requires Expanded(types, lengths) == Followed(kinds, u, padded) && forall i :: 0 <= i < |types| ==>
             types[i] < numTypes
    ensures Closed(histograms, size, symbols, types, lengths, numTypes)
  {
    var n := |symbols| - |kinds|;
    var exact, more := kinds + Same(u, n), Same(u, padded - n);
    assert Expanded(types, lengths) == exact + more;
    assert |exact| == |symbols|;
    forall t, c | 0 <= t < numTypes && 0 <= c < size
      ensures |histograms[t]| == size && histograms[t][c] == Tally(symbols, exact + more, |symbols|, t, c)
    {
      assert Tallied(histograms[t], symbols, exact, t);
      TallyPrefix(symbols, [], exact, more, |symbols|, t, c);
      assert symbols + [] == symbols;
    }
  }

  /** Closing the open block as a new type. */
  lemma CloseNew(histograms: seq<seq<nat>>, size: nat, symbols: seq<nat>, types: seq<nat>, lengths: seq<nat>,
                 numTypes: nat, padded: nat)
    requires |types| == |lengths| && Holding(histograms, size, symbols, Expanded(types, lengths), numTypes) &&
             numTypes < |histograms|
    requires (forall i :: 0 <= i < |types| ==> types[i] < numTypes) && |symbols| - |Expanded(types, lengths)| <= padded
    ensures Closed(Cleared(histograms, numTypes + 1), size, symbols, types + [numTypes], lengths + [padded],
                   numTypes + 1)
    ensures ExactlyClosed(Cleared(histograms, numTypes + 1), size, symbols, Expanded(types, lengths),
                          Expanded(types + [numTypes], lengths + [padded]), numTypes + 1, padded)
  {
    var kinds := Expanded(types, lengths);
    HoldingShape(histograms, size, symbols, kinds, numTypes);
    ExpandedTypes(types, lengths, numTypes);
    ClosedAsNew(histograms, size, symbols, kinds, numTypes);
    ExpandedPush(types, lengths, numTypes, padded);
    hide *;
    Exactly(Cleared(histograms, numTypes + 1), size, symbols, kinds, Expanded(types + [numTypes], lengths + [padded]),
            numTypes, numTypes + 1, padded);
    PaddedClosed(Cleared(histograms, numTypes + 1), size, symbols, kinds, types + [numTypes], lengths + [padded],
                 numTypes, padded, numTypes + 1);
  }

  /** The histograms with the open block's moved to type `u`. */
  function MergedInto(histograms: seq<seq<nat>>, u: nat, open: nat): (r: seq<seq<nat>>)
    requires u < |histograms| && open < |histograms| && |histograms[u]| == |histograms[open]|
    ensures |r| == |histograms|
  {
    Cleared(histograms[u := Added(histograms[u], histograms[open])], open)
  }

  /** Without padding the next block can be opened at once. */
  ghost predicate ExactlyClosed(histograms: seq<seq<nat>>, size: nat, symbols: seq<nat>, kinds: seq<nat>,
                                later: seq<nat>, numTypes: nat, padded: nat)
  {
    |kinds| + padded == |symbols| ==> |later| == |symbols| && Holding(histograms, size, symbols, later, numTypes)
  }

  lemma Exactly(histograms: seq<seq<nat>>, size: nat, symbols: seq<nat>, kinds: seq<nat>, later: seq<nat>, u: nat,
                numTypes: nat, padded: nat)
    requires |kinds| <= |symbols| && Holding(histograms, size, symbols, Followed(kinds, u, |symbols| - |kinds|),
                                             numTypes)
    requires later == Followed(kinds, u, padded)
    ensures ExactlyClosed(histograms, size, symbols, kinds, later, numTypes, padded)
  {
    hide Holding, Followed;
  }

  /** Closing the open block as type `u`, in a block of its own or at the end of the last. */
  lemma CloseAs(histograms: seq<seq<nat>>, size: nat, symbols: seq<nat>, types: seq<nat>, lengths: seq<nat>,
                numTypes: nat, u: nat,
                padded: nat, types': seq<nat>, lengths': seq<nat>)
    requires |types| == |lengths| && Holding(histograms, size, symbols, Expanded(types, lengths), numTypes) &&
             u < numTypes < |histograms|
    requires |symbols| - |Expanded(types, lengths)| <= padded && |types'| == |lengths'|
    requires Expanded(types', lengths') == Followed(Expanded(types, lengths), u, padded)
    requires forall i :: 0 <= i < |types'| ==> types'[i] < numTypes
    ensures |histograms[u]| == |histograms[numTypes]|
    ensures Closed(MergedInto(histograms, u, numTypes), size, symbols, types', lengths', numTypes)
    ensures ExactlyClosed(MergedInto(histograms, u, numTypes), size, symbols, Expanded(types, lengths),
                          Expanded(types', lengths'), numTypes, padded)
  {
    var kinds := Expanded(types, lengths);
    HoldingShape(histograms, size, symbols, kinds, numTypes);
    ClosedAs(histograms, size, symbols, kinds, numTypes, u);
    hide *;
    Exactly(MergedInto(histograms, u, numTypes), size, symbols, kinds, Expanded(types', lengths'), u, numTypes, padded);
    PaddedClosed(MergedInto(histograms, u, numTypes), size, symbols, kinds, types', lengths', u, padded, numTypes);
  }

  lemma HoldingShape(histograms: seq<seq<nat>>, size: nat, symbols: seq<nat>, kinds: seq<nat>, numTypes: nat)
    requires Holding(histograms, size, symbols, kinds, numTypes)
    ensures |kinds| <= |symbols| && numTypes <= |histograms| && forall t :: 0 <= t < |histograms| ==>
            |histograms[t]| == size
  {
  }

  /** There are as many histograms as blocks of the least size, up to the limit; types take that size each. */
  predicate Room(count: nat, numTypes: nat, maxTypes: nat, minSize: nat, numSymbols: nat, closed: nat)
    requires minSize > 0
  {
    && count == (if Quotient(numSymbols, minSize) < maxTypes then Quotient(numSymbols, minSize) + 1 else maxTypes + 1)
    && Times(numTypes, minSize) <= closed <= numSymbols && numTypes <= maxTypes
  }

  /** So there is one for the open block. */
  lemma RoomForSymbol(count: nat, numTypes: nat, maxTypes: nat, minSize: nat, numSymbols: nat, closed: nat)
    requires minSize > 0 && Room(count, numTypes, maxTypes, minSize, numSymbols, closed)
    ensures numTypes < count
  {
    EnoughFor(numTypes, minSize, numSymbols);
  }

  lemma EnoughFor(n: nat, d: nat, total: nat)
    requires d > 0 && Times(n, d) <= total
    ensures n <= Quotient(total, d)
  {
    var q, r := total / d, total % d;
    if n > q {
      MulMonotone(d, q + 1, n);
      assert false;
    }
  }

  /** And room is left after a block of the least size or more. */
  lemma RoomAfter(count: nat, numTypes: nat, maxTypes: nat, minSize: nat, numSymbols: nat, closed: nat, size: nat,
                  types: nat)
    requires minSize > 0 && Room(count, numTypes, maxTypes, minSize, numSymbols, closed) && size >= minSize &&
             closed + size <= numSymbols
    requires types <= numTypes + 1 && types <= maxTypes
    ensures Room(count, types, maxTypes, minSize, numSymbols, closed + size)
  {
    TimesSum(numTypes, 1, minSize);
    assert Times(1, minSize) == minSize;
    MulMonotone(minSize, types, numTypes + 1);
  }

  lemma Shares(contextCount: nat, minSize: nat, numSymbols: nat)
    requires 0 < contextCount <= MAX_BLOCK_TYPES && minSize > 0
    ensures 0 < Quotient(MAX_BLOCK_TYPES, contextCount) <= MAX_BLOCK_TYPES
    ensures var maxTypes, blocks := Quotient(MAX_BLOCK_TYPES, contextCount), Quotient(numSymbols, minSize) + 1;
            Room(if blocks < maxTypes + 1 then blocks else maxTypes + 1, 0, maxTypes, minSize, numSymbols, 0)
  {
    EnoughFor(1, contextCount, MAX_BLOCK_TYPES);
    QuotientSmall(MAX_BLOCK_TYPES, contextCount);
  }

  lemma QuotientSmall(a: nat, d: nat)
    requires d > 0
    ensures Quotient(a, d) <= a && Times(1, d) == d && Times(0, d) == 0
  {
    MulMonotone(a / d, 1, d);
  }

  /** The last two blocks' histograms are those of the last two types; with one type all is the same. */
  predicate LastTypes(types: seq<nat>, numTypes: nat, last: (nat, nat), totals: (nat, nat), entropy: (real, real))
  {
    && (numTypes == 0 <==> types == []) && (types != [] ==> types[0] == 0)
    && (forall i :: 0 <= i < |types| ==> types[i] < numTypes)
    && (types != [] ==> last.0 == types[|types| - 1])
    && (types != [] ==> last.0 < numTypes && last.1 < numTypes) && (types == [] ==> last == (0, 0))
    && (|types| >= 2 ==> last.1 == types[|types| - 2])
    && (numTypes == 1 ==> last == (0, 0) && totals.0 == totals.1 && entropy.0 == entropy.1)
    && (numTypes >= 2 ==> |types| >= 2)
  }

  /** Every block has at least the least size. */
  predicate Sizes(lengths: seq<nat>, minSize: nat)
  {
    forall i :: 0 <= i < |lengths| ==> minSize <= lengths[i]
  }

  lemma SizesChange(lengths: seq<nat>, minSize: nat, size: nat)
    requires Sizes(lengths, minSize) && minSize <= size
    ensures Sizes(lengths + [size], minSize)
    ensures lengths != [] ==> Sizes(lengths[|lengths| - 1 := lengths[|lengths| - 1] + size], minSize)
  {
  }

  /** What a closed block takes up. */
  function Padded(size: nat, minSize: nat): nat
  {
    if size < minSize then minSize else size
  }

  /** A block is no longer than all blocks together. */
  lemma {:induction false} LengthBelow(types: seq<nat>, lengths: seq<nat>, i: nat)
    requires |types| == |lengths| && i < |lengths|
    ensures lengths[i] <= |Expanded(types, lengths)|
    decreases |types|
  {
    var last := |types| - 1;
    if i < last {
      LengthBelow(types[..last], lengths[..last], i);
    }
  }

  /** There are at most as many blocks of the least size as fit. */
  lemma {:induction false} BlocksBelow(types: seq<nat>, lengths: seq<nat>, minSize: nat)
    requires |types| == |lengths| && Sizes(lengths, minSize)
    ensures Times(|types|, minSize) <= |Expanded(types, lengths)|
    decreases |types|
  {
    if types != [] {
      var last := |types| - 1;
      BlocksBelow(types[..last], lengths[..last], minSize);
      TimesSum(last, 1, minSize);
    }
  }

  /** A symbol and its context as one symbol of a histogram over both. */
  function Composite(symbol: nat, context: nat, alphabet: nat): nat
  {
    Times(context, alphabet) + symbol
  }

  lemma CompositeBelow(symbol: nat, context: nat, alphabet: nat, contextCount: nat)
    requires symbol < alphabet && context < contextCount
    ensures Composite(symbol, context, alphabet) < Times(alphabet, contextCount)
    ensures Times(context, alphabet) + alphabet <= Times(alphabet, contextCount)
  {
    MulMonotone(alphabet, context + 1, contextCount);
    assert alphabet * (context + 1) == alphabet * context + alphabet;
  }

  /** One histogram for each type and context counts exactly the symbols of both. */
  ghost predicate CutTallied(pieces: seq<seq<nat>>, alphabet: nat, contextCount: nat, symbols: seq<nat>,
                             types: seq<nat>, lengths: seq<nat>,
                             numTypes: nat)
  {
    && |types| == |lengths| && |symbols| <= |Expanded(types, lengths)| && |pieces| == Times(numTypes, contextCount)
    && forall t, x :: 0 <= t < numTypes && 0 <= x < contextCount ==>
         PieceTallied(pieces, alphabet, contextCount, symbols, Expanded(types, lengths), t, x)
  }

  /** The histogram of one type and one context. */
  ghost predicate PieceTallied(pieces: seq<seq<nat>>, alphabet: nat, contextCount: nat, symbols: seq<nat>,
                               kinds: seq<nat>, t: nat, x: nat)
    requires |symbols| <= |kinds|
  {
    var i := Times(t, contextCount) + x;
    && i < |pieces| && |pieces[i]| == alphabet
    && forall s :: 0 <= s < alphabet ==> pieces[i][s] == Tally(symbols, kinds, |symbols|, t, Composite(s, x, alphabet))
  }

  /** Each histogram in equal pieces, one after another. */
  predicate IsCut(whole: seq<seq<nat>>, pieces: seq<seq<nat>>, n: nat, alphabet: nat, contextCount: nat)
  {
    forall t, x :: 0 <= t < n && 0 <= x < contextCount ==> PieceOf(whole, pieces, alphabet, contextCount, t, x)
  }

  predicate PieceOf(whole: seq<seq<nat>>, pieces: seq<seq<nat>>, alphabet: nat, contextCount: nat, t: nat, x: nat)
  {
    var i, from := Times(t, contextCount) + x, Times(x, alphabet);
    i < |pieces| && t < |whole| && from + alphabet <= |whole[t]| && pieces[i] == whole[t][from..from + alphabet]
  }

  method CutHistograms(whole: seq<seq<nat>>, alphabet: nat, contextCount: nat) returns (pieces: seq<seq<nat>>)
    requires forall t :: 0 <= t < |whole| ==> |whole[t]| == Times(alphabet, contextCount)
    ensures |pieces| == Times(|whole|, contextCount) && IsCut(whole, pieces, |whole|, alphabet, contextCount)
  {
    hide PieceOf;
    pieces := [];
    for t := 0 to |whole|
      invariant |pieces| == Times(t, contextCount) && IsCut(whole, pieces, t, alphabet, contextCount)
    {
      pieces := CutOne(whole, pieces, t, alphabet, contextCount);
      TimesSum(t, 1, contextCount);
    }
  }

  /** The pieces of one histogram behind those of the others. */
  method CutOne(whole: seq<seq<nat>>, before: seq<seq<nat>>, t: nat, alphabet: nat, contextCount: nat)
    returns (pieces: seq<seq<nat>>)
    requires t < |whole| && |whole[t]| == Times(alphabet, contextCount)
    requires |before| == Times(t, contextCount) && IsCut(whole, before, t, alphabet, contextCount)
    ensures |pieces| == Times(t, contextCount) + contextCount && IsCut(whole, pieces, t + 1, alphabet, contextCount)
  {
    pieces := before;
    for x := 0 to contextCount
      invariant |pieces| == Times(t, contextCount) + x && pieces[..|before|] == before
      invariant forall y :: 0 <= y < x ==> PieceOf(whole, pieces, alphabet, contextCount, t, y)
    {
      hide PieceOf;
      PieceInside(x, alphabet, contextCount);
      var from := Times(x, alphabet);
      ghost var was := pieces;
      pieces := pieces + [whole[t][from..from + alphabet]];
      forall y | 0 <= y < x + 1
        ensures PieceOf(whole, pieces, alphabet, contextCount, t, y)
      {
        if y < x {
          PieceKept(whole, was, [whole[t][from..from + alphabet]], alphabet, contextCount, t, y);
        } else {
          PieceAdded(whole, was, alphabet, contextCount, t, x);
        }
      }
    }
    hide PieceOf;
    forall u, x | 0 <= u < t + 1 && 0 <= x < contextCount
      ensures PieceOf(whole, pieces, alphabet, contextCount, u, x)
    {
      if u < t {
        assert pieces == before + pieces[|before|..];
        PieceKept(whole, before, pieces[|before|..], alphabet, contextCount, u, x);
      }
    }
  }

  lemma PieceInside(x: nat, alphabet: nat, contextCount: nat)
    requires x < contextCount
    ensures Times(x, alphabet) + alphabet <= Times(alphabet, contextCount)
  {
    if alphabet > 0 {
      CompositeBelow(0, x, alphabet, contextCount);
    }
  }

  lemma PieceKept(whole: seq<seq<nat>>, pieces: seq<seq<nat>>, more: seq<seq<nat>>, alphabet: nat, contextCount: nat,
                  t: nat, x: nat)
    requires PieceOf(whole, pieces, alphabet, contextCount, t, x)
    ensures PieceOf(whole, pieces + more, alphabet, contextCount, t, x)
  {
    hide Times;
  }

  lemma PieceAdded(whole: seq<seq<nat>>, pieces: seq<seq<nat>>, alphabet: nat, contextCount: nat, t: nat, x: nat)
    requires t < |whole| && Times(x, alphabet) + alphabet <= |whole[t]| && |pieces| == Times(t, contextCount) + x
    ensures var from := Times(x, alphabet);
            PieceOf(whole, pieces + [whole[t][from..from + alphabet]], alphabet, contextCount, t, x)
  {
    hide Times;
  }

  lemma CutIsTallied(whole: seq<seq<nat>>, pieces: seq<seq<nat>>, alphabet: nat, contextCount: nat, symbols: seq<nat>,
                     types: seq<nat>,
                     lengths: seq<nat>, numTypes: nat)
    requires Closed(whole, Times(alphabet, contextCount), symbols, types, lengths, numTypes) && |whole| == numTypes
    requires |pieces| == Times(numTypes, contextCount) && IsCut(whole, pieces, numTypes, alphabet, contextCount)
    ensures CutTallied(pieces, alphabet, contextCount, symbols, types, lengths, numTypes)
  {
    hide Tally, Expanded, Times;
    assert forall t :: 0 <= t < numTypes ==> |whole[t]| == Times(alphabet, contextCount);
    forall t, x | 0 <= t < numTypes && 0 <= x < contextCount
      ensures PieceTallied(pieces, alphabet, contextCount, symbols, Expanded(types, lengths), t, x)
    {
      assert PieceOf(whole, pieces, alphabet, contextCount, t, x);
      forall s | 0 <= s < alphabet
        ensures pieces[Times(t, contextCount) + x][s] == Tally(symbols, Expanded(types, lengths), |symbols|, t,
                                                               Composite(s, x, alphabet))
      {
        CompositeBelow(s, x, alphabet, contextCount);
        assert whole[t][Times(x, alphabet) + s] == Tally(symbols, Expanded(types, lengths), |symbols|, t,
                                                         Composite(s, x, alphabet));
      }
    }
  }

  /** Splits a stream of symbols into blocks of types. The entropies are any functions at all. */
  class GreedyBlockSplitter {
    const symbolAlphabetSize: nat
    const contextCount: nat
    const histogramSize: nat
    const minBlockSize: nat
    const splitThreshold: real
    const maxBlockTypes: nat
    const numSymbols: nat
    const entropyOf: (seq<nat>, nat) -> real
    const combinedEntropyOf: (seq<nat>, seq<nat>, nat) -> real
    var types: seq<nat>
    var lengths: seq<nat>
    var numTypes: nat
    var histograms: seq<seq<nat>>
    var targetBlockSize: nat
    var blockSize: nat
    var lastHistograms: (nat, nat)
    var lastTotals: (nat, nat)
    var lastEntropy: (real, real)
    var mergeLastCount: nat
    /** Every symbol added. */
    ghost var symbols: seq<nat>

    /** The histogram that is being filled is the one after the last type's. */
    ghost predicate Valid()
      reads this
    {
      && minBlockSize > 0 && 0 < maxBlockTypes <= MAX_BLOCK_TYPES && contextCount > 0
      && maxBlockTypes == Quotient(MAX_BLOCK_TYPES, contextCount)
      && histogramSize == Times(symbolAlphabetSize, contextCount)
      && |types| == |lengths| && numTypes <= maxBlockTypes && |symbols| <= numSymbols
      && blockSize < targetBlockSize && minBlockSize <= targetBlockSize
      && Room(|histograms|, numTypes, maxBlockTypes, minBlockSize, numSymbols, |Expanded(types, lengths)|)
      && |Expanded(types, lengths)| + blockSize == |symbols|
      && LastTypes(types, numTypes, lastHistograms, lastTotals, lastEntropy)
      && Holding(histograms, histogramSize, symbols, Expanded(types, lengths), numTypes)
      && Sizes(lengths, minBlockSize)
    }

    constructor (symbolAlphabetSize: nat, contextCount: nat, minBlockSize: nat, splitThreshold: real, numSymbols: nat,
                 entropyOf: (seq<nat>, nat) -> real, combinedEntropyOf: (seq<nat>, seq<nat>, nat) -> real)
      requires 0 < contextCount <= MAX_BLOCK_TYPES && minBlockSize > 0
      ensures Valid() && symbols == [] && this.numSymbols == numSymbols && this.minBlockSize == minBlockSize
      ensures this.symbolAlphabetSize == symbolAlphabetSize && this.contextCount == contextCount
    {
      Shares(contextCount, minBlockSize, numSymbols);
      var maxBlockTypes := Quotient(MAX_BLOCK_TYPES, contextCount);
      var maxNumBlocks := Quotient(numSymbols, minBlockSize) + 1;
      var maxNumTypes := if maxNumBlocks < maxBlockTypes + 1 then maxNumBlocks else maxBlockTypes + 1;
      this.symbolAlphabetSize, this.contextCount := symbolAlphabetSize, contextCount;
      histogramSize := Times(symbolAlphabetSize, contextCount);
      this.minBlockSize, this.splitThreshold, this.maxBlockTypes, this.numSymbols := minBlockSize, splitThreshold,
        maxBlockTypes, numSymbols;
      this.entropyOf, this.combinedEntropyOf := entropyOf, combinedEntropyOf;
      types, lengths, numTypes := [], [], 0;
      histograms := seq(maxNumTypes, _ => Same(0, Times(symbolAlphabetSize, contextCount)));
      targetBlockSize, blockSize := minBlockSize, 0;
      lastHistograms, lastTotals, lastEntropy, mergeLastCount := (0, 0), (0, 0), (0.0, 0.0), 0;
      symbols := [];
      new;
      NothingOpen([], histograms[0]);
    }

    /** Counts a symbol, and closes the block when it has reached its target. */
    method AddSymbol(s: nat)
      requires Valid() && |symbols| < numSymbols && s < histogramSize
      modifies this
      ensures Valid() && symbols == old(symbols) + [s]
    {
      hide Holding, Room, LastTypes, Expanded;
      RoomForSymbol(|histograms|, numTypes, maxBlockTypes, minBlockSize, numSymbols, |Expanded(types, lengths)|);
      HoldingShape(histograms, histogramSize, symbols, Expanded(types, lengths), numTypes);
      SymbolAdded(histograms, histogramSize, symbols, Expanded(types, lengths), numTypes, s);
      var h := histograms[numTypes];
      histograms := histograms[numTypes := h[s := h[s] + 1]];
      symbols := symbols + [s];
      blockSize := blockSize + 1;
      if blockSize == targetBlockSize {
        FinishBlock();
      }
    }

    /** Counts a symbol under its context. */
    method AddContextSymbol(symbol: nat, context: nat)
      requires Valid() && |symbols| < numSymbols && symbol < symbolAlphabetSize && context < contextCount
      modifies this
      ensures Valid() && symbols == old(symbols) + [Composite(symbol, context, symbolAlphabetSize)]
    {
      CompositeBelow(symbol, context, symbolAlphabetSize, contextCount);
      AddSymbol(Times(context, symbolAlphabetSize) + symbol);
    }

    /** Closes the open block, padded to the least block size: as a type of its own, as the last type
        but one, or as part of the last block. */
    method FinishBlock()
      requires minBlockSize > 0 && 0 < maxBlockTypes <= MAX_BLOCK_TYPES && contextCount > 0
      requires maxBlockTypes == Quotient(MAX_BLOCK_TYPES, contextCount) &&
               histogramSize == Times(symbolAlphabetSize, contextCount)
      requires |types| == |lengths| && numTypes <= maxBlockTypes
      requires |symbols| <= numSymbols && blockSize <= targetBlockSize && minBlockSize <= targetBlockSize
      requires Room(|histograms|, numTypes, maxBlockTypes, minBlockSize, numSymbols, |Expanded(types, lengths)|)
      requires |Expanded(types, lengths)| + blockSize == |symbols|
      requires LastTypes(types, numTypes, lastHistograms, lastTotals, lastEntropy)
      requires Holding(histograms, histogramSize, symbols, Expanded(types, lengths), numTypes) &&
               Sizes(lengths, minBlockSize)
      modifies this
      ensures symbols == old(symbols) && |types| == |lengths| && 0 < numTypes <= maxBlockTypes && blockSize == 0
      ensures types != [] && types[0] == 0 && Sizes(lengths, minBlockSize) && (numTypes >= 2 ==> |types| >= 2)
      ensures |Expanded(types, lengths)| == old(|Expanded(types, lengths)| + Padded(blockSize, minBlockSize))
      ensures old(blockSize) >= minBlockSize ==> Valid()
      ensures Closed(histograms, histogramSize, symbols, types, lengths, numTypes)
    {
      hide Holding, Room, LastTypes, Expanded, Closed, Cleared, Sizes, Quotient, Times;
      ghost var kinds := Expanded(types, lengths);
      var currentTotal := blockSize;
      var size := if blockSize < minBlockSize then minBlockSize else blockSize;
      HoldingShape(histograms, histogramSize, symbols, kinds, numTypes);
      RoomForSymbol(|histograms|, numTypes, maxBlockTypes, minBlockSize, numSymbols, |kinds|);
      LastFacts(types, numTypes, lastHistograms, lastTotals, lastEntropy);
      if types == [] {
        CloseNew(histograms, histogramSize, symbols, types, lengths, 0, size);
        ghost var room := RoomIf(|histograms|, 0, maxBlockTypes, minBlockSize, numSymbols, |kinds|, blockSize, 1);
        var entropy := entropyOf(histograms[0], currentTotal);
        assert types + [0] == [0] && lengths + [size] == [size];
        ExpandedPush([], [], 0, size);
        SizesChange([], minBlockSize, size);
        assert [] + [0] == [0] && [] + [size] == [size];
        types, lengths := [0], [size];
        lastTotals := (currentTotal, currentTotal);
        lastEntropy := (entropy, entropy);
        numTypes := 1;
        histograms := Cleared(histograms, 1);
        blockSize := 0;
        FirstType(lastTotals, lastEntropy, lastHistograms);
        return;
      }
      FinishLaterBlock(currentTotal, size);
    }

    /** Closes a block that is not the first. */
    method FinishLaterBlock(currentTotal: nat, size: nat)
      requires minBlockSize > 0 && 0 < maxBlockTypes <= MAX_BLOCK_TYPES && contextCount > 0
      requires maxBlockTypes == Quotient(MAX_BLOCK_TYPES, contextCount) &&
               histogramSize == Times(symbolAlphabetSize, contextCount)
      requires |types| == |lengths| > 0 && numTypes <= maxBlockTypes
      requires |symbols| <= numSymbols && blockSize <= targetBlockSize && minBlockSize <= targetBlockSize
      requires Room(|histograms|, numTypes, maxBlockTypes, minBlockSize, numSymbols, |Expanded(types, lengths)|)
      requires |Expanded(types, lengths)| + blockSize == |symbols| && numTypes < |histograms|
      requires LastTypes(types, numTypes, lastHistograms, lastTotals, lastEntropy)
      requires Holding(histograms, histogramSize, symbols, Expanded(types, lengths), numTypes) &&
               Sizes(lengths, minBlockSize)
      requires currentTotal == blockSize && size == if blockSize < minBlockSize then minBlockSize else blockSize
      modifies this
      ensures symbols == old(symbols) && |types| == |lengths| && 0 < numTypes <= maxBlockTypes && blockSize == 0
      ensures types != [] && types[0] == 0 && Sizes(lengths, minBlockSize) && (numTypes >= 2 ==> |types| >= 2)
      ensures |Expanded(types, lengths)| == old(|Expanded(types, lengths)| + Padded(blockSize, minBlockSize))
      ensures old(blockSize) >= minBlockSize ==> Valid()
      ensures Closed(histograms, histogramSize, symbols, types, lengths, numTypes)
    {
      hide Holding, Room, LastTypes, Expanded, Closed, Cleared, Sizes, Quotient, Times;
      ghost var kinds := Expanded(types, lengths);
      LastFacts(types, numTypes, lastHistograms, lastTotals, lastEntropy);
      var current := numTypes;
      var entropy := entropyOf(histograms[current], currentTotal);
      var totals := (currentTotal + lastTotals.0, currentTotal + lastTotals.1);
      var combined := (combinedEntropyOf(histograms[current], histograms[lastHistograms.0], totals.0),
                       combinedEntropyOf(histograms[current], histograms[lastHistograms.1], totals.1));
      var difference := (combined.0 - entropy - lastEntropy.0, combined.1 - entropy - lastEntropy.1);
      if numTypes < maxBlockTypes && difference.0 > splitThreshold && difference.1 > splitThreshold {
        StartNewType(currentTotal, size, entropy);
      } else if difference.1 < difference.0 - 20.0 {
        RepeatOlderType(size, totals, combined);
      } else {
        GrowLastBlock(size, totals, combined);
      }
    }

    /** The block differs from the last two: it gets a type of its own. */
    method StartNewType(currentTotal: nat, size: nat, entropy: real)
      requires minBlockSize > 0 && 0 < maxBlockTypes <= MAX_BLOCK_TYPES && contextCount > 0
      requires maxBlockTypes == Quotient(MAX_BLOCK_TYPES, contextCount) &&
               histogramSize == Times(symbolAlphabetSize, contextCount)
      requires |types| == |lengths| > 0 && numTypes < maxBlockTypes
      requires |symbols| <= numSymbols && minBlockSize <= targetBlockSize
      requires Room(|histograms|, numTypes, maxBlockTypes, minBlockSize, numSymbols, |Expanded(types, lengths)|)
      requires |Expanded(types, lengths)| + blockSize == |symbols| && numTypes < |histograms|
      requires LastTypes(types, numTypes, lastHistograms, lastTotals, lastEntropy)
      requires Holding(histograms, histogramSize, symbols, Expanded(types, lengths), numTypes) &&
               Sizes(lengths, minBlockSize)
      requires size == if blockSize < minBlockSize then minBlockSize else blockSize
      modifies this
      ensures symbols == old(symbols) && |types| == |lengths| && 0 < numTypes <= maxBlockTypes && blockSize == 0
      ensures types != [] && types[0] == 0 && Sizes(lengths, minBlockSize) && (numTypes >= 2 ==> |types| >= 2)
      ensures |Expanded(types, lengths)| == old(|Expanded(types, lengths)| + Padded(blockSize, minBlockSize))
      ensures old(blockSize) >= minBlockSize ==> Valid()
      ensures Closed(histograms, histogramSize, symbols, types, lengths, numTypes)
    {
      hide Holding, Room, LastTypes, Expanded, Closed, Cleared, Sizes, Quotient, Times;
      LastFacts(types, numTypes, lastHistograms, lastTotals, lastEntropy);
      CloseNew(histograms, histogramSize, symbols, types, lengths, numTypes, size);
      ghost var room := RoomIf(|histograms|, numTypes, maxBlockTypes, minBlockSize, numSymbols,
                               |Expanded(types, lengths)|, blockSize, numTypes + 1);
      ExpandedPush(types, lengths, numTypes, size);
      SizesChange(lengths, minBlockSize, size);
      NewType(types, numTypes, lastHistograms, lastTotals, lastEntropy, (currentTotal, lastTotals.0),
              (entropy, lastEntropy.0));
      types, lengths := types + [numTypes], lengths + [size];
      lastHistograms := (numTypes, lastHistograms.0);
      lastTotals := (currentTotal, lastTotals.0);
      lastEntropy := (entropy, lastEntropy.0);
      numTypes := numTypes + 1;
      histograms := Cleared(histograms, numTypes);
      ResetAfterSplit();
    }

    /** The block is closer to the last but one: it repeats that type. */
    method RepeatOlderType(size: nat, totals: (nat, nat), combined: (real, real))
      requires minBlockSize > 0 && 0 < maxBlockTypes <= MAX_BLOCK_TYPES && contextCount > 0
      requires maxBlockTypes == Quotient(MAX_BLOCK_TYPES, contextCount) &&
               histogramSize == Times(symbolAlphabetSize, contextCount)
      requires |types| == |lengths| > 0 && numTypes <= maxBlockTypes
      requires |symbols| <= numSymbols && minBlockSize <= targetBlockSize
      requires Room(|histograms|, numTypes, maxBlockTypes, minBlockSize, numSymbols, |Expanded(types, lengths)|)
      requires |Expanded(types, lengths)| + blockSize == |symbols| && numTypes < |histograms|
      requires LastTypes(types, numTypes, lastHistograms, lastTotals, lastEntropy)
      requires Holding(histograms, histogramSize, symbols, Expanded(types, lengths), numTypes) &&
               Sizes(lengths, minBlockSize)
      requires size == if blockSize < minBlockSize then minBlockSize else blockSize
      requires numTypes >= 2
      modifies this
      ensures symbols == old(symbols) && |types| == |lengths| && 0 < numTypes <= maxBlockTypes && blockSize == 0
      ensures types != [] && types[0] == 0 && Sizes(lengths, minBlockSize) && (numTypes >= 2 ==> |types| >= 2)
      ensures |Expanded(types, lengths)| == old(|Expanded(types, lengths)| + Padded(blockSize, minBlockSize))
      ensures old(blockSize) >= minBlockSize ==> Valid()
      ensures Closed(histograms, histogramSize, symbols, types, lengths, numTypes)
    {
      hide Holding, Room, LastTypes, Expanded, Closed, MergedInto, Sizes, Quotient, Times;
      LastFacts(types, numTypes, lastHistograms, lastTotals, lastEntropy);
      var secondLastType := types[|types| - 2];
      var target := lastHistograms.1;
      ExpandedPush(types, lengths, secondLastType, size);
      SizesChange(lengths, minBlockSize, size);
      CloseAs(histograms, histogramSize, symbols, types, lengths, numTypes, target, size, types + [secondLastType],
              lengths + [size]);
      ghost var room := RoomIf(|histograms|, numTypes, maxBlockTypes, minBlockSize, numSymbols,
                               |Expanded(types, lengths)|, blockSize, numTypes);
      OldType(types, numTypes, lastHistograms, lastTotals, lastEntropy, (totals.1, lastTotals.0),
              (combined.1, lastEntropy.0));
      types, lengths := types + [secondLastType], lengths + [size];
      histograms := MergedInto(histograms, target, numTypes);
      lastHistograms := (lastHistograms.1, lastHistograms.0);
      lastTotals := (totals.1, lastTotals.0);
      lastEntropy := (combined.1, lastEntropy.0);
      ResetAfterSplit();
    }

    /** The block is like the last one: it becomes part of it. */
    method GrowLastBlock(size: nat, totals: (nat, nat), combined: (real, real))
      requires minBlockSize > 0 && 0 < maxBlockTypes <= MAX_BLOCK_TYPES && contextCount > 0
      requires maxBlockTypes == Quotient(MAX_BLOCK_TYPES, contextCount) &&
               histogramSize == Times(symbolAlphabetSize, contextCount)
      requires |types| == |lengths| > 0 && numTypes <= maxBlockTypes
      requires |symbols| <= numSymbols && minBlockSize <= targetBlockSize
      requires Room(|histograms|, numTypes, maxBlockTypes, minBlockSize, numSymbols, |Expanded(types, lengths)|)
      requires |Expanded(types, lengths)| + blockSize == |symbols| && numTypes < |histograms|
      requires LastTypes(types, numTypes, lastHistograms, lastTotals, lastEntropy)
      requires Holding(histograms, histogramSize, symbols, Expanded(types, lengths), numTypes) &&
               Sizes(lengths, minBlockSize)
      requires size == if blockSize < minBlockSize then minBlockSize else blockSize
      modifies this
      ensures symbols == old(symbols) && |types| == |lengths| && 0 < numTypes <= maxBlockTypes && blockSize == 0
      ensures types != [] && types[0] == 0 && Sizes(lengths, minBlockSize) && (numTypes >= 2 ==> |types| >= 2)
      ensures |Expanded(types, lengths)| == old(|Expanded(types, lengths)| + Padded(blockSize, minBlockSize))
      ensures old(blockSize) >= minBlockSize ==> Valid()
      ensures Closed(histograms, histogramSize, symbols, types, lengths, numTypes)
    {
      hide Holding, Room, LastTypes, Expanded, Closed, MergedInto, Sizes, Quotient, Times;
      LastFacts(types, numTypes, lastHistograms, lastTotals, lastEntropy);
      var last := |lengths| - 1;
      var target := lastHistograms.0;
      ExpandedGrow(types, lengths, size);
      SizesChange(lengths, minBlockSize, size);
      CloseAs(histograms, histogramSize, symbols, types, lengths, numTypes, target, size, types,
              lengths[last := lengths[last] + size]);
      ghost var room := RoomIf(|histograms|, numTypes, maxBlockTypes, minBlockSize, numSymbols,
                               |Expanded(types, lengths)|, blockSize, numTypes);
      lengths := lengths[last := lengths[last] + size];
      histograms := MergedInto(histograms, target, numTypes);
      var newTotals := (totals.0, if numTypes == 1 then totals.0 else lastTotals.1);
      var newEntropy := (combined.0, if numTypes == 1 then combined.0 else lastEntropy.1);
      SameTypes(types, numTypes, lastHistograms, lastTotals, lastEntropy, newTotals, newEntropy);
      lastTotals, lastEntropy := newTotals, newEntropy;
      blockSize := 0;
      mergeLastCount := mergeLastCount + 1;
      if mergeLastCount > 1 {
        targetBlockSize := targetBlockSize + minBlockSize;
      }
    }

    /** Closes what is left and keeps the histograms of the types in use. The first block has the first
        type, no block is too short, and only padding is added. */
    method Finish() returns (result: seq<seq<nat>>)
      requires Valid()
      modifies this
      ensures symbols == old(symbols) && |result| == numTypes > 0 && types != [] && types[0] == 0
      ensures Closed(result, histogramSize, symbols, types, lengths, numTypes)
      ensures Sizes(lengths, minBlockSize) && |Expanded(types, lengths)| <= |symbols| + minBlockSize
      ensures numTypes <= maxBlockTypes && (numTypes >= 2 ==> |types| >= 2)
    {
      hide Holding, Room, LastTypes, Expanded, Closed, Sizes;
      FinishBlock();
      result := TakeTypes(histograms, histogramSize, symbols, types, lengths, numTypes);
    }

    /** Closes what is left, and cuts every type's histogram into those of its contexts. */
    method FinishPerContext() returns (result: seq<seq<nat>>)
      requires Valid()
      modifies this
      ensures symbols == old(symbols) && 0 < numTypes <= maxBlockTypes && types != [] && types[0] == 0
      ensures numTypes >= 2 ==> |types| >= 2
      ensures |types| == |lengths| && (forall i :: 0 <= i < |types| ==> types[i] < numTypes) &&
              |symbols| <= |Expanded(types, lengths)|
      ensures Sizes(lengths, minBlockSize) && |Expanded(types, lengths)| <= |symbols| + minBlockSize
      ensures CutTallied(result, symbolAlphabetSize, contextCount, symbols, types, lengths, numTypes)
    {
      hide Sizes, Expanded, Tally;
      var whole := Finish();
      var pieces := CutHistograms(whole, symbolAlphabetSize, contextCount);
      CutIsTallied(whole, pieces, symbolAlphabetSize, contextCount, symbols, types, lengths, numTypes);
      result := pieces;
    }

    method ResetAfterSplit()
      modifies `blockSize, `mergeLastCount, `targetBlockSize
      ensures blockSize == 0 && mergeLastCount == 0 && targetBlockSize == minBlockSize
    {
      blockSize, mergeLastCount, targetBlockSize := 0, 0, minBlockSize;
    }
  }

  method TakeTypes(histograms: seq<seq<nat>>, ghost size: nat, ghost symbols: seq<nat>, ghost types: seq<nat>,
                   ghost lengths: seq<nat>,
                   numTypes: nat) returns (result: seq<seq<nat>>)
    requires Closed(histograms, size, symbols, types, lengths, numTypes)
    ensures |result| == numTypes && Closed(result, size, symbols, types, lengths, numTypes)
  {
    result := histograms[..numTypes];
  }

  /** What a block of the least size leaves room for. */
  lemma RoomIf(count: nat, numTypes: nat, maxTypes: nat, minSize: nat, numSymbols: nat, closed: nat, size: nat,
               types: nat) returns (room: bool)
    requires minSize > 0 && Room(count, numTypes, maxTypes, minSize, numSymbols, closed) && closed + size <= numSymbols
    requires types <= numTypes + 1 && types <= maxTypes
    ensures size >= minSize ==> Room(count, types, maxTypes, minSize, numSymbols, closed + size)
  {
    room := size >= minSize;
    if room {
      RoomAfter(count, numTypes, maxTypes, minSize, numSymbols, closed, size, types);
    }
  }

  lemma LastFacts(types: seq<nat>, numTypes: nat, last: (nat, nat), totals: (nat, nat), entropy: (real, real))
    requires LastTypes(types, numTypes, last, totals, entropy)
    ensures (forall i :: 0 <= i < |types| ==> types[i] < numTypes) && (types == [] <==> numTypes == 0)
    ensures types == [] ==> last == (0, 0)
    ensures types != [] ==> types[0] == 0 && last.0 == types[|types| - 1] && last.0 < numTypes && last.1 < numTypes
    ensures numTypes == 1 ==> last == (0, 0) && totals.0 == totals.1 && entropy.0 == entropy.1
    ensures numTypes >= 2 ==> |types| >= 2 && last.1 == types[|types| - 2]
  {
  }

  lemma FirstType(totals: (nat, nat), entropy: (real, real), last: (nat, nat))
    requires totals.0 == totals.1 && entropy.0 == entropy.1 && last == (0, 0)
    ensures LastTypes([0], 1, last, totals, entropy)
  {
  }

  lemma NewType(types: seq<nat>, numTypes: nat, last: (nat, nat), totals: (nat, nat), entropy: (real, real),
                totals': (nat, nat), entropy': (real, real))
    requires LastTypes(types, numTypes, last, totals, entropy) && types != []
    ensures LastTypes(types + [numTypes], numTypes + 1, (numTypes, last.0), totals', entropy')
  {
  }

  lemma OldType(types: seq<nat>, numTypes: nat, last: (nat, nat), totals: (nat, nat), entropy: (real, real),
                totals': (nat, nat), entropy': (real, real))
    requires LastTypes(types, numTypes, last, totals, entropy) && numTypes >= 2
    ensures |types| >= 2 && LastTypes(types + [types[|types| - 2]], numTypes, (last.1, last.0), totals', entropy')
  {
  }

  lemma SameTypes(types: seq<nat>, numTypes: nat, last: (nat, nat), totals: (nat, nat), entropy: (real, real),
                  totals': (nat, nat), entropy': (real, real))
    requires LastTypes(types, numTypes, last, totals, entropy)
    requires numTypes == 1 ==> totals'.0 == totals'.1 && entropy'.0 == entropy'.1
    ensures LastTypes(types, numTypes, last, totals', entropy')
  {
  }
}
