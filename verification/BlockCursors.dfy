/** Block switches in the stream (`src/encode/greedy/block_split.rs` against `src/decode/block_state.rs`):
    the decoder's block state follows the encoder's cursor symbol by symbol. */
module BlockCursors {
  import opened Arithmetic
  import opened HuffmanLengths
  import opened ComplexPrefixDecoder
  import opened BitStream
  import opened BlockSplitting
  import opened BlockStates
  import opened CompressedBlock
  import opened PrefixReading
  import opened Outcomes

  /** The symbol for a type: one for the next type, zero for the last but one, else the type itself. */
  function TypeSymbol(t: nat, last: nat, secondLast: nat): nat
  {
    if t == last + 1 then 1 else if t == secondLast then 0 else t + 2
  }

  /** The decoder resolves it to the same type. */
  lemma TypeRoundTrip(t: nat, last: nat, secondLast: nat, numTypes: nat)
    requires t < numTypes
    ensures ResolveType(TypeSymbol(t, last, secondLast), numTypes, (secondLast, last)) == t
    ensures TypeSymbol(t, last, secondLast) < numTypes + 2
  {
  }

  const BLOCK_LENGTH_ALPHABET_SIZE: nat := 26

  predicate LengthCovers(symbol: nat, length: nat)
  {
    LengthOffset(symbol) <= length < LengthOffset(symbol) + Pow2(LengthExtraBits(symbol))
  }

  lemma SmallPowers()
    ensures Pow2(2) == 4 && Pow2(3) == 8 && Pow2(4) == 16 && Pow2(5) == 32 && Pow2(6) == 64 && Pow2(7) == 128 &&
            Pow2(8) == 256
    ensures Pow2(9) == 512 && Pow2(10) == 1024 && Pow2(11) == 2048 && Pow2(12) == 4096 && Pow2(13) == 8192
  {
    assert Pow2(4) == 16;
    assert Pow2(7) == 128;
    assert Pow2(10) == 1024;
  }

  /** The ranges of successive length symbols meet. */
  lemma RangesMeet(symbol: nat)
    requires symbol < BLOCK_LENGTH_ALPHABET_SIZE - 1
    ensures LengthOffset(symbol) + Pow2(LengthExtraBits(symbol)) == LengthOffset(symbol + 1)
  {
    SmallPowers();
    hide Pow2;
  }

  /** So no two ranges share a length. */
  lemma {:induction false} RangesAscend(a: nat, b: nat)
    requires a < b < BLOCK_LENGTH_ALPHABET_SIZE
    ensures LengthOffset(a) + Pow2(LengthExtraBits(a)) <= LengthOffset(b)
    decreases b
  {
    hide Pow2, LengthOffset, LengthExtraBits;
    RangesMeet(b - 1);
    if a < b - 1 {
      RangesAscend(a, b - 1);
    }
  }

  /** Every block length has exactly one symbol. */
  lemma OneLengthSymbol(length: nat, symbol: nat)
    requires 0 < length < LENGTH_LIMIT && symbol < BLOCK_LENGTH_ALPHABET_SIZE
    ensures LengthCovers(symbol, length) <==> symbol == LengthSymbol(length)
  {
    hide Pow2, LengthOffset, LengthExtraBits, LengthSymbol;
    var s := LengthSymbol(length);
    if symbol < s {
      RangesAscend(symbol, s);
    } else if s < symbol {
      RangesAscend(s, symbol);
    }
  }

  const LENGTH_LIMIT: nat := 16625 + Pow2(24)

  /** The first symbol from `symbol` on whose range has the length. */
  function LengthSymbolFrom(length: nat, symbol: nat): (s: nat)
    requires symbol < BLOCK_LENGTH_ALPHABET_SIZE && LengthOffset(symbol) <= length < LENGTH_LIMIT
    ensures symbol <= s < BLOCK_LENGTH_ALPHABET_SIZE && LengthCovers(s, length)
    decreases BLOCK_LENGTH_ALPHABET_SIZE - symbol
  {
    if LengthCovers(symbol, length) then symbol
    else
      LaterSymbol(length, symbol);
      LengthSymbolFrom(length, symbol + 1)
  }

  lemma LaterSymbol(length: nat, symbol: nat)
    requires symbol < BLOCK_LENGTH_ALPHABET_SIZE && LengthOffset(symbol) <= length < LENGTH_LIMIT &&
             !LengthCovers(symbol, length)
    ensures symbol < BLOCK_LENGTH_ALPHABET_SIZE - 1 && LengthOffset(symbol + 1) <= length
  {
    hide Pow2;
    if symbol < BLOCK_LENGTH_ALPHABET_SIZE - 1 {
      RangesMeet(symbol);
    }
  }

  function LengthSymbol(length: nat): (s: nat)
    requires 0 < length < LENGTH_LIMIT
    ensures s < BLOCK_LENGTH_ALPHABET_SIZE && LengthCovers(s, length)
  {
    LengthSymbolFrom(length, 0)
  }

  /** The symbol of the type at `index`, given the two before it. */
  function TypeSymbolAt(types: seq<nat>, index: nat): nat
    requires 0 < index < |types|
  {
    TypeSymbol(types[index], types[index - 1], if index >= 2 then types[index - 2] else 1)
  }

  /** What the encoder writes at a block's end: the next type, and the length with its extra bits. */
  function SwitchWord(typeLengths: seq<nat>, lengthLengths: seq<nat>, typeSymbol: nat, length: nat): seq<bool>
    requires typeSymbol < |typeLengths| && |lengthLengths| == BLOCK_LENGTH_ALPHABET_SIZE && 0 < length < LENGTH_LIMIT
  {
    var s := LengthSymbol(length);
    SymbolWord(typeLengths, typeSymbol) + (SymbolWord(lengthLengths, s) +
                                           Lsb(length - LengthOffset(s), LengthExtraBits(s)))
  }

  /** A decoder between blocks or within one, with nothing half read. */
  predicate Settled(b: BlockState)
  {
    b.typeSearch == NoSearch() && b.lengthSearch == NoSearch() && b.pendingLength == None && !b.switchPending
  }

  lemma ExtraReads(p: Partition, b: BlockState, s: nat, length: nat, rest: seq<bool>)
    requires !Ready(p, b) && b.switchPending && b.pendingLength == Some(s) && LengthCovers(s, length)
    ensures SwitchRun(p, b, Lsb(length - LengthOffset(s), LengthExtraBits(s)) + rest) ==
            (b.(remaining := length, pendingLength := None, switchPending := false), true, rest)
  {
    var n := LengthExtraBits(s);
    var extra := length - LengthOffset(s);
    var input := Lsb(extra, n) + rest;
    assert input[..n] == Lsb(extra, n) && input[n..] == rest;
    ValueOfLsb(extra, n);
    hide LengthOffset, LengthExtraBits, FromLsb, SwitchRun;
    SwitchSteps(p, b, input);
    SwitchSteps(p, b.(remaining := length, pendingLength := None, switchPending := false), rest);
  }

  /** The decoder reads a switch back: the same type and length, and no more than its bits. */
  lemma SwitchReads(p: Partition, b: BlockState, typeLengths: seq<nat>, lengthLengths: seq<nat>, t: nat, length: nat,
                    rest: seq<bool>)
    requires CodeFor(p.typeCode, typeLengths) && CodeFor(p.lengthCode, lengthLengths) &&
             |lengthLengths| == BLOCK_LENGTH_ALPHABET_SIZE
    requires !Ready(p, b) && Settled(b) && t < p.numTypes && 0 < length < LENGTH_LIMIT
    requires var s := TypeSymbol(t, b.previousTypes.1, b.previousTypes.0); s < |typeLengths| && typeLengths[s] > 0
    requires lengthLengths[LengthSymbol(length)] > 0
    ensures var s := TypeSymbol(t, b.previousTypes.1, b.previousTypes.0);
            SwitchRun(p, b, SwitchWord(typeLengths, lengthLengths, s, length) + rest) ==
            (b.(currentType := t, previousTypes := (b.previousTypes.1, t), remaining := length), true, rest)
  {
    hide *;
    var s, l := TypeSymbol(t, b.previousTypes.1, b.previousTypes.0), LengthSymbol(length);
    CoversAtLeast(l, length);
    var extra := Lsb(length - LengthOffset(l), LengthExtraBits(l));
    var v, w := SymbolWord(typeLengths, s), SymbolWord(lengthLengths, l);
    TypeRoundTrip(t, b.previousTypes.1, b.previousTypes.0, p.numTypes);
    Regroup(v, w, extra, rest);
    TypeReads(p, b, typeLengths, s, t, w + (extra + rest));
    var c := b.(currentType := t, previousTypes := (b.previousTypes.1, t), switchPending := true);
    SettledAgain(p, b, c, t, length);
    LengthReads(p, c, lengthLengths, l, length, rest);
    WordIs(typeLengths, lengthLengths, s, length, v, w, extra);
  }

  lemma CoversAtLeast(symbol: nat, length: nat)
    requires LengthCovers(symbol, length)
    ensures LengthOffset(symbol) <= length
  {
  }

  lemma SettledAgain(p: Partition, b: BlockState, c: BlockState, t: nat, length: nat)
    requires Settled(b) && !Ready(p, b) && c == b.(currentType := t, previousTypes := (b.previousTypes.1, t),
                                                   switchPending := true)
    ensures !Ready(p, c) && c.switchPending && c.pendingLength == None && c.lengthSearch == NoSearch()
    ensures c.(remaining := length, switchPending := false) ==
            b.(currentType := t, previousTypes := (b.previousTypes.1, t), remaining := length)
  {
  }

  lemma WordIs(typeLengths: seq<nat>, lengthLengths: seq<nat>, s: nat, length: nat, v: seq<bool>, w: seq<bool>,
               extra: seq<bool>)
    requires s < |typeLengths| && |lengthLengths| == BLOCK_LENGTH_ALPHABET_SIZE && 0 < length < LENGTH_LIMIT
    requires v == SymbolWord(typeLengths, s) && w == SymbolWord(lengthLengths, LengthSymbol(length))
    requires extra == Lsb(length - LengthOffset(LengthSymbol(length)), LengthExtraBits(LengthSymbol(length)))
    ensures SwitchWord(typeLengths, lengthLengths, s, length) == v + (w + extra)
  {
  }

  lemma Regroup(v: seq<bool>, w: seq<bool>, x: seq<bool>, rest: seq<bool>)
    ensures v + (w + x) + rest == v + (w + (x + rest))
  {
  }

  lemma TypeReads(p: Partition, b: BlockState, typeLengths: seq<nat>, s: nat, t: nat, rest: seq<bool>)
    requires CodeFor(p.typeCode, typeLengths) && !Ready(p, b) && Settled(b) && s < |typeLengths| && typeLengths[s] > 0
    requires ResolveType(s, p.numTypes, b.previousTypes) == t
    ensures SwitchRun(p, b, SymbolWord(typeLengths, s) + rest) ==
            SwitchRun(p, b.(currentType := t, previousTypes := (b.previousTypes.1, t), switchPending := true), rest)
  {
    hide SwitchRun, SymbolRun, CodeFor, SymbolWord, ResolveType;
    SymbolRoundTrip(p.typeCode, typeLengths, s, rest);
    SwitchType(p, b, SymbolWord(typeLengths, s) + rest);
  }

  lemma LengthReads(p: Partition, c: BlockState, lengthLengths: seq<nat>, l: nat, length: nat, rest: seq<bool>)
    requires CodeFor(p.lengthCode, lengthLengths) && !Ready(p, c) && c.switchPending && c.pendingLength == None &&
             c.lengthSearch == NoSearch()
    requires l < |lengthLengths| && lengthLengths[l] > 0 && LengthCovers(l, length)
    ensures SwitchRun(p, c, SymbolWord(lengthLengths, l) + (Lsb(length - LengthOffset(l), LengthExtraBits(l)) +
                                                            rest)) ==
            (c.(remaining := length, switchPending := false), true, rest)
  {
    hide SwitchRun, SymbolRun, CodeFor, SymbolWord, LengthOffset, LengthExtraBits, Lsb;
    var extra := Lsb(length - LengthOffset(l), LengthExtraBits(l));
    SymbolRoundTrip(p.lengthCode, lengthLengths, l, extra + rest);
    SwitchLength(p, c, SymbolWord(lengthLengths, l) + (extra + rest));
    ExtraReads(p, c.(pendingLength := Some(l)), l, length, rest);
  }

  /** Blocks of known types and lengths; the first has the first type. */
  predicate Blocks(numTypes: nat, types: seq<nat>, lengths: seq<nat>)
  {
    && |types| == |lengths| > 0 && types[0] == 0
    && forall i :: 0 <= i < |types| ==> types[i] < numTypes && 0 < lengths[i] < LENGTH_LIMIT
  }

  /** Every switch has its codewords. */
  ghost predicate Switchable(p: Partition, types: seq<nat>, lengths: seq<nat>, typeLengths: seq<nat>,
                             lengthLengths: seq<nat>)
    requires Blocks(p.numTypes, types, lengths)
  {
    && CodeFor(p.typeCode, typeLengths) && CodeFor(p.lengthCode, lengthLengths)
    && |lengthLengths| == BLOCK_LENGTH_ALPHABET_SIZE
    && (forall i :: 0 <= i < |types| ==> lengthLengths[LengthSymbol(lengths[i])] > 0)
    && (forall i :: 0 < i < |types| ==>
        TypeSymbolAt(types, i) < |typeLengths| && typeLengths[TypeSymbolAt(types, i)] > 0)
  }

  /** A split the codes can write. One with a single type needs none. */
  ghost predicate Encodable(p: Partition, types: seq<nat>, lengths: seq<nat>, typeLengths: seq<nat>,
                            lengthLengths: seq<nat>)
  {
    Blocks(p.numTypes, types, lengths) && (p.numTypes > 1 ==> Switchable(p, types, lengths, typeLengths, lengthLengths))
  }

  lemma {:induction false} ExpandedAt(types: seq<nat>, lengths: seq<nat>, index: nat, k: nat)
    requires |types| == |lengths| && index < |types| && k < lengths[index]
    ensures var at := |Expanded(types[..index], lengths[..index])| + k;
            at < |Expanded(types, lengths)| && Expanded(types, lengths)[at] == types[index]
    decreases |types|
  {
    var last := |types| - 1;
    if index < last {
      ExpandedAt(types[..last], lengths[..last], index, k);
      assert types[..last][..index] == types[..index] && lengths[..last][..index] == lengths[..index];
    }
  }

  /** The blocks before `index` end at `start`. */
  predicate StartOf(types: seq<nat>, lengths: seq<nat>, index: nat, start: nat)
  {
    |types| == |lengths| && index < |types| && start == |Expanded(types[..index], lengths[..index])|
  }

  lemma StartsNext(types: seq<nat>, lengths: seq<nat>, index: nat, start: nat)
    requires StartOf(types, lengths, index, start)
    ensures index + 1 < |types| ==> StartOf(types, lengths, index + 1, start + lengths[index])
    ensures index + 1 == |types| ==> start + lengths[index] == |Expanded(types, lengths)|
  {
    assert types[..index + 1][..index] == types[..index] && lengths[..index + 1][..index] == lengths[..index];
    assert types[..|types|] == types && lengths[..|types|] == lengths;
  }

  /** A decoder at a given place of a block of a given type; with a single type every place is the same. */
  predicate Follows(p: Partition, b: BlockState, last: nat, secondLast: nat, remaining: nat)
  {
    p.numTypes == 1 || (b.currentType == last && b.previousTypes == (secondLast, last) && b.remaining == remaining &&
                        Settled(b))
  }

  /** Any decoder at the first place reads the word, and nothing behind it, and is at the second place. */
  ghost predicate ReadsBack(p: Partition, last: nat, secondLast: nat, remaining: nat, word: seq<bool>, last': nat,
                            secondLast': nat, remaining': nat)
  {
    forall b, rest :: Follows(p, b, last, secondLast, remaining) ==>
      var r := SwitchRun(p, b, word + rest); r.1 && r.2 == rest && Follows(p, r.0, last', secondLast', remaining')
  }

  lemma NothingToRead(p: Partition, last: nat, secondLast: nat, remaining: nat, later: nat)
    requires p.numTypes == 1 || remaining == later > 0
    ensures ReadsBack(p, last, secondLast, remaining, [], last, secondLast, later)
  {
    hide SwitchRun, Settled;
    forall b: BlockState, rest: seq<bool> | Follows(p, b, last, secondLast, remaining)
      ensures var r := SwitchRun(p, b, [] + rest); r.1 && r.2 == rest && Follows(p, r.0, last, secondLast, later)
    {
      ReadyAtOnce(p, b, last, secondLast, remaining, later, rest);
    }
  }

  lemma ReadyAtOnce(p: Partition, b: BlockState, last: nat, secondLast: nat, remaining: nat, later: nat,
                    rest: seq<bool>)
    requires (p.numTypes == 1 || remaining == later > 0) && Follows(p, b, last, secondLast, remaining)
    ensures SwitchRun(p, b, [] + rest) == (b, true, rest) && Follows(p, b, last, secondLast, later)
  {
    hide SwitchRun, Settled;
    assert [] + rest == rest;
    SwitchSteps(p, b, rest);
  }

  lemma SwitchReadsBack(p: Partition, last: nat, secondLast: nat, typeLengths: seq<nat>, lengthLengths: seq<nat>,
                        t: nat, length: nat)
    requires CodeFor(p.typeCode, typeLengths) && CodeFor(p.lengthCode, lengthLengths) &&
             |lengthLengths| == BLOCK_LENGTH_ALPHABET_SIZE
    requires p.numTypes > 1 && t < p.numTypes && 0 < length < LENGTH_LIMIT && lengthLengths[LengthSymbol(length)] > 0
    requires TypeSymbol(t, last, secondLast) < |typeLengths| && typeLengths[TypeSymbol(t, last, secondLast)] > 0
    ensures ReadsBack(p, last, secondLast, 0, SwitchWord(typeLengths, lengthLengths, TypeSymbol(t, last, secondLast),
                                                         length), t, last, length)
  {
    hide SwitchRun, CodeFor, SwitchWord, TypeSymbol, LengthSymbol;
    forall b: BlockState, rest: seq<bool> | Follows(p, b, last, secondLast, 0)
      ensures SwitchRun(p, b, SwitchWord(typeLengths, lengthLengths, TypeSymbol(t, last, secondLast), length) + rest) ==
              (b.(currentType := t, previousTypes := (b.previousTypes.1, t), remaining := length), true, rest)
    {
      SwitchReads(p, b, typeLengths, lengthLengths, t, length, rest);
    }
  }

  /** After the symbol both are one place further. */
  lemma SymbolFollows(p: Partition, b: BlockState, last: nat, secondLast: nat, remaining: nat)
    requires remaining > 0 && Follows(p, b, last, secondLast, remaining) && (p.numTypes == 1 ==> last == 0)
    ensures CurrentType(p, b) == last && Follows(p, Consumed(p, b), last, secondLast, remaining - 1)
  {
  }

  /** The encoder's place in the split, while it writes the symbols. */
  class BlockCursor {
    const numTypes: nat
    const types: seq<nat>
    const lengths: seq<nat>
    const typeLengths: seq<nat>
    const lengthLengths: seq<nat>
    ghost const partition: Partition
    var blockIndex: nat
    var remaining: nat
    var lastType: nat
    var secondLastType: nat
    /** Where the block starts, and how many symbols have been written. */
    ghost var start: nat
    ghost var position: nat

    ghost predicate Valid()
      reads this
    {
      && Encodable(partition, types, lengths, typeLengths, lengthLengths) && numTypes == partition.numTypes > 0
      && if numTypes == 1 then lastType == 0
         else
           && blockIndex < |types| && remaining <= lengths[blockIndex]
           && lastType == types[blockIndex] && secondLastType == (if blockIndex == 0 then 1 else types[blockIndex - 1])
           && StartOf(types, lengths, blockIndex, start) && position + remaining == start + lengths[blockIndex]
    }

    constructor (ghost partition: Partition, numTypes: nat, types: seq<nat>, lengths: seq<nat>, typeLengths: seq<nat>,
                 lengthLengths: seq<nat>)
      requires Encodable(partition, types, lengths, typeLengths, lengthLengths) && numTypes == partition.numTypes
      ensures Valid() && position == 0 && this.types == types && this.lengths == lengths && this.partition == partition
      ensures Follows(partition, BlockState(0, (1, 0), lengths[0], NoSearch(), NoSearch(), None, false), lastType,
                      secondLastType, remaining)
      ensures lastType == 0 && secondLastType == 1 && remaining == lengths[0]
    {
      this.numTypes, this.types, this.lengths, this.typeLengths, this.lengthLengths := numTypes, types, lengths,
        typeLengths, lengthLengths;
      this.partition := partition;
      assert types[0] < numTypes;
      blockIndex, remaining, lastType, secondLastType, position, start := 0, lengths[0], 0, 1, 0, 0;
    }

    /** The type of the next symbol, after writing a switch if the block has ended. Any decoder at the
        cursor's place reads the switch back and nothing more; `SymbolFollows` takes it past the symbol. */
    method BeforeSymbol(writer: seq<bool>) returns (t: nat, more: seq<bool>, ghost word: seq<bool>)
      requires Valid() && position < |Expanded(types, lengths)|
      modifies this
      ensures Valid() && position == old(position) + 1 && t == Expanded(types, lengths)[old(position)] &&
              more == writer + word
      ensures t == lastType && (partition.numTypes == 1 ==> t == 0)
      ensures ReadsBack(partition, old(lastType), old(secondLastType), old(remaining), word, lastType, secondLastType,
                        remaining + 1)
    {
      hide Encodable, Expanded, ReadsBack, StartOf;
      if numTypes == 1 {
        OnlyType(partition, types, lengths, typeLengths, lengthLengths, position);
        NothingToRead(partition, lastType, secondLastType, remaining, remaining + 1);
        assert writer + [] == writer;
        position := position + 1;
        return 0, writer, [];
      }
      more, word := CurrentBlock(writer);
      t := TakeSymbol();
    }

    /** Makes sure that the block has another symbol. */
    method CurrentBlock(writer: seq<bool>) returns (more: seq<bool>, ghost word: seq<bool>)
      requires Valid() && numTypes > 1 && position < |Expanded(types, lengths)|
      modifies this
      ensures Valid() && position == old(position) && remaining > 0 && more == writer + word
      ensures ReadsBack(partition, old(lastType), old(secondLastType), old(remaining), word, lastType, secondLastType,
                        remaining)
    {
      hide Encodable, Expanded, ReadsBack, StartOf;
      if remaining == 0 {
        more, word := SwitchBlock(writer);
      } else {
        NothingToRead(partition, lastType, secondLastType, remaining, remaining);
        more, word := writer, [];
        assert writer + [] == writer;
      }
    }

    /** The type of the block, for one more symbol. */
    method TakeSymbol() returns (t: nat)
      requires Valid() && numTypes > 1 && remaining > 0
      modifies `remaining, `position
      ensures Valid() && position == old(position) + 1 && remaining == old(remaining) - 1 && t == lastType
      ensures old(position) < |Expanded(types, lengths)| && t == Expanded(types, lengths)[old(position)]
    {
      hide Encodable, Expanded, StartOf;
      TypeHere(types, lengths, blockIndex, start, position);
      remaining := remaining - 1;
      position := position + 1;
      t := types[blockIndex];
    }

    /** Goes on to the next block and writes its type and length. */
    method SwitchBlock(writer: seq<bool>) returns (more: seq<bool>, ghost word: seq<bool>)
      requires Valid() && numTypes > 1 && remaining == 0 && position < |Expanded(types, lengths)|
      modifies this
      ensures Valid() && position == old(position) && remaining > 0 && more == writer + word
      ensures ReadsBack(partition, old(lastType), old(secondLastType), 0, word, lastType, secondLastType, remaining)
    {
      hide Encodable, Expanded, CodeFor, LengthSymbol, LengthCovers, SwitchWord, ReadsBack, StartOf;
      EncodableFacts(partition, types, lengths, typeLengths, lengthLengths, blockIndex);
      StartsNext(types, lengths, blockIndex, start);
      start := start + lengths[blockIndex];
      blockIndex := blockIndex + 1;
      EncodableFacts(partition, types, lengths, typeLengths, lengthLengths, blockIndex);
      var blockType, length := types[blockIndex], lengths[blockIndex];
      var symbol := TypeSymbol(blockType, lastType, secondLastType);
      SwitchReadsBack(partition, lastType, secondLastType, typeLengths, lengthLengths, blockType, length);
      word := SwitchWord(typeLengths, lengthLengths, symbol, length);
      more := writer + SwitchWord(typeLengths, lengthLengths, symbol, length);
      secondLastType, lastType, remaining := lastType, blockType, length;
    }
  }

  lemma TypeHere(types: seq<nat>, lengths: seq<nat>, index: nat, start: nat, position: nat)
    requires StartOf(types, lengths, index, start) && start <= position < start + lengths[index]
    ensures position < |Expanded(types, lengths)| && Expanded(types, lengths)[position] == types[index]
  {
    hide Expanded;
    ExpandedAt(types, lengths, index, position - start);
  }

  lemma OnlyType(p: Partition, types: seq<nat>, lengths: seq<nat>, typeLengths: seq<nat>, lengthLengths: seq<nat>,
                 position: nat)
    requires Encodable(p, types, lengths, typeLengths, lengthLengths) && p.numTypes == 1
    ensures |types| == |lengths| && (position < |Expanded(types, lengths)| ==> Expanded(types, lengths)[position] == 0)
  {
    ExpandedTypes(types, lengths, 1);
    hide Expanded;
  }

  lemma EncodableFacts(p: Partition, types: seq<nat>, lengths: seq<nat>, typeLengths: seq<nat>, lengthLengths: seq<nat>,
                       i: nat)
    requires Encodable(p, types, lengths, typeLengths, lengthLengths) && i < |types| && p.numTypes > 1
    ensures |types| == |lengths| && |lengthLengths| == BLOCK_LENGTH_ALPHABET_SIZE
    ensures CodeFor(p.typeCode, typeLengths) && CodeFor(p.lengthCode, lengthLengths)
    ensures types[i] < p.numTypes && 0 < lengths[i] < LENGTH_LIMIT && lengthLengths[LengthSymbol(lengths[i])] > 0
    ensures i > 0 ==> TypeSymbolAt(types, i) < |typeLengths| && typeLengths[TypeSymbolAt(types, i)] > 0
  {
  }

  /** Counts the switches' symbols: every one that will be written occurs, and there are no more than
      blocks. */
  method CountSwitches(types: seq<nat>, lengths: seq<nat>, numTypes: nat)
    returns (typeCounts: seq<nat>, lengthCounts: seq<nat>)
    requires Blocks(numTypes, types, lengths)
    ensures |typeCounts| == numTypes + 2 && |lengthCounts| == BLOCK_LENGTH_ALPHABET_SIZE
    ensures Total(typeCounts) <= |types| && Total(lengthCounts) == |types|
    ensures forall i :: 0 < i < |types| ==>
            TypeSymbolAt(types, i) < |typeCounts| && typeCounts[TypeSymbolAt(types, i)] > 0
    ensures forall i :: 0 <= i < |types| ==> lengthCounts[LengthSymbol(lengths[i])] > 0
  {
    hide LengthSymbol, TypeSymbol, LengthCovers, Total;
    typeCounts, lengthCounts := Zeros(numTypes + 2), Zeros(BLOCK_LENGTH_ALPHABET_SIZE);
    ZerosTotal(numTypes + 2);
    ZerosTotal(BLOCK_LENGTH_ALPHABET_SIZE);
    var last: nat, secondLast: nat := 1, 0;
    for i := 0 to |types|
      invariant |typeCounts| == numTypes + 2 && |lengthCounts| == BLOCK_LENGTH_ALPHABET_SIZE
      invariant Total(typeCounts) <= i && Total(lengthCounts) == i
      invariant i == 0 ==> last == 1
      invariant i > 0 ==> last == types[i - 1] && secondLast == if i == 1 then 1 else types[i - 2]
      invariant forall j :: 0 < j < i ==>
                TypeSymbolAt(types, j) < |typeCounts| && typeCounts[TypeSymbolAt(types, j)] > 0
      invariant forall j :: 0 <= j < i ==> lengthCounts[LengthSymbol(lengths[j])] > 0
    {
      var symbol := TypeSymbol(types[i], last, secondLast);
      TypeRoundTrip(types[i], last, secondLast, numTypes);
      secondLast, last := last, types[i];
      if i != 0 {
        TotalOne(typeCounts, symbol);
        typeCounts := typeCounts[symbol := typeCounts[symbol] + 1];
      }
      var l := LengthSymbol(lengths[i]);
      TotalOne(lengthCounts, l);
      lengthCounts := lengthCounts[l := lengthCounts[l] + 1];
    }
  }
}
