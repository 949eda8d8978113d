/** The body of a greedy metablock in its split form (`src/encode/greedy.rs`): literals, command symbols and distance
    symbols each go through a splitter, get codes for their types and contexts, and are written interleaved; the decoder
    executes what is written to the block. */
module SplitMetablock {
  import opened Arithmetic
  import opened Bytes
  import BitStream
  import opened ComplexPrefixDecoder
  import opened HistoryRing
  import opened Dictionary
  import opened Distances
  import opened MetablockHeaders
  import opened PrefixEncodings
  import opened BlockStates
  import opened BlockSplitting
  import opened BlockMachine
  import opened CommandStream
  import opened CommandEmission
  import opened MetablockStart
  import opened SplitStreams
  import opened SplitRoundTrip
  import opened SplitBody
  import opened Outcomes

  /** The contexts of successive literals. */
  function InsertContexts(contextOf: (Byte, Byte) -> nat, before: seq<Byte>, input: seq<Byte>, at: nat,
                          count: nat): (contexts: seq<nat>)
    requires at + count <= |input|
    ensures |contexts| == count
    decreases count
  {
    if count == 0 then []
    else [ContextAt(contextOf, before, input, at)] + InsertContexts(contextOf, before, input, at + 1, count - 1)
  }

  /** The contexts of all the literals the commands insert. */
  ghost function ContextsOf(contextOf: (Byte, Byte) -> nat, before: seq<Byte>, input: seq<Byte>, at: nat,
                            commands: seq<StreamCommand>): seq<nat>
    requires Placed(input, at, commands)
    decreases |commands|
  {
    if commands == [] then []
    else
      var c := commands[0];
      InsertContexts(contextOf, before, input, at, c.insertLen) +
      ContextsOf(contextOf, before, input, at + c.insertLen + c.copyLen, commands[1..])
  }

  /** From these places on, the streams are those of the commands. */
  ghost predicate StreamsFrom(sp: Splits, n: Cursors, before: seq<Byte>, input: seq<Byte>, at: nat,
                              commands: seq<StreamCommand>)
  {
    && Placed(input, at, commands) && AllEmittable(commands, sp.direct, sp.postfix)
    && Tail(sp.literals, n.literals, LiteralsOf(input, at, commands),
            ContextsOf(sp.contextOf, before, input, at, commands))
    && Tail(sp.commands, n.commands, SymbolsOf(commands, sp.direct, sp.postfix),
            Zeros(|SymbolsOf(commands, sp.direct, sp.postfix)|))
    && Tail(sp.distances, n.distances, DistancesOf(commands, sp.direct, sp.postfix),
            Zeros(|DistancesOf(commands, sp.direct, sp.postfix)|))
  }

  /** The rest of a stream, with a word for each symbol. */
  predicate Tail(st: SplitStream, n: nat, symbols: seq<nat>, contexts: seq<nat>)
  {
    && n <= |st.symbols| == |st.contexts| == |st.words|
    && st.symbols[n..] == symbols && st.contexts[n..] == contexts
  }

  lemma TailNext(st: SplitStream, n: nat, symbols: seq<nat>, contexts: seq<nat>)
    requires Tail(st, n, symbols, contexts) && symbols != []
    ensures |contexts| == |symbols| && Next(st, n, symbols[0], contexts[0])
    ensures Tail(st, n + 1, symbols[1..], contexts[1..])
  {
  }

  /** A stretch of literals is what the stream has there. */
  lemma {:induction false} TailInserts(sp: Splits, n: nat, before: seq<Byte>, input: seq<Byte>, at: nat, count: nat,
                                       symbols: seq<nat>, contexts: seq<nat>)
    requires at + count <= |input|
    requires Tail(sp.literals, n, AsSymbols(input[at..at + count]) + symbols,
                  InsertContexts(sp.contextOf, before, input, at, count) + contexts)
    ensures Inserts(sp, n, before, input, at, count) && n + count <= |sp.literals.words|
    ensures Tail(sp.literals, n + count, symbols, contexts)
    decreases count
  {
    var all := AsSymbols(input[at..at + count]) + symbols;
    if count == 0 {
      assert all == symbols && [] + contexts == contexts;
    } else {
      TailNext(sp.literals, n, all, InsertContexts(sp.contextOf, before, input, at, count) + contexts);
      assert all[1..] == AsSymbols(input[at + 1..at + 1 + (count - 1)]) + symbols;
      assert (InsertContexts(sp.contextOf, before, input, at, count) + contexts)[1..] ==
             InsertContexts(sp.contextOf, before, input, at + 1, count - 1) + contexts;
      hide Tail, ContextAt;
      TailInserts(sp, n + 1, before, input, at + 1, count - 1, symbols, contexts);
    }
  }

  /** Streams that are the commands' have each command's symbols at its places. */
  lemma {:induction false} StreamsAhead(sp: Splits, n: Cursors, before: seq<Byte>, input: seq<Byte>, at: nat,
                                        commands: seq<StreamCommand>)
    requires StreamsFrom(sp, n, before, input, at, commands)
    ensures AllAhead(sp, n, before, input, at, commands)
    decreases |commands|
  {
    hide Tail, Inserts, Next, AsSymbols, InsertContexts, Encoded, Encodable, AllEmittable, Emittable, HasWords;
    if commands != [] {
      OneAhead(sp, n, before, input, at, commands);
      var c := commands[0];
      hide StreamsFrom, CommandAhead;
      StreamsAhead(sp, After(n, c, Encoded(c, sp.direct, sp.postfix)), before, input, at + c.insertLen + c.copyLen,
                   commands[1..]);
    }
  }

  lemma OneAhead(sp: Splits, n: Cursors, before: seq<Byte>, input: seq<Byte>, at: nat, commands: seq<StreamCommand>)
    requires StreamsFrom(sp, n, before, input, at, commands) && commands != []
    ensures CommandAhead(sp, n, before, input, at, commands[0])
    ensures Encodable(commands[0], sp.direct, sp.postfix)
    ensures var c := commands[0];
            StreamsFrom(sp, After(n, c, Encoded(c, sp.direct, sp.postfix)), before, input,
                        at + c.insertLen + c.copyLen, commands[1..])
  {
    hide Tail, Inserts, Next, AsSymbols, InsertContexts, Encoded, Encodable, AllEmittable, Emittable, Zeros;
    FirstEmittable(commands, sp.direct, sp.postfix);
    var c := commands[0];
    var w, next := Encoded(c, sp.direct, sp.postfix), at + c.insertLen + c.copyLen;
    TailInserts(sp, n.literals, before, input, at, c.insertLen, LiteralsOf(input, next, commands[1..]),
                ContextsOf(sp.contextOf, before, input, next, commands[1..]));
    var symbols := SymbolsOf(commands, sp.direct, sp.postfix);
    TailNext(sp.commands, n.commands, symbols, Zeros(|symbols|));
    MoreZeros(|symbols|);
    if w.distance.Some? {
      var distances := DistancesOf(commands, sp.direct, sp.postfix);
      TailNext(sp.distances, n.distances, distances, Zeros(|distances|));
      MoreZeros(|distances|);
      assert distances[1..] == DistancesOf(commands[1..], sp.direct, sp.postfix);
    } else {
      assert DistancesOf(commands, sp.direct, sp.postfix) == DistancesOf(commands[1..], sp.direct, sp.postfix);
    }
    NextHasWords(sp, n, c, w);
  }

  lemma MoreZeros(n: nat)
    requires n > 0
    ensures |Zeros(n)| == n && Zeros(n)[0] == 0 && Zeros(n)[1..] == Zeros(n - 1)
  {
  }

  lemma NextHasWords(sp: Splits, n: Cursors, c: StreamCommand, w: Wire)
    requires Next(sp.commands, n.commands, w.symbol, 0) && n.literals + c.insertLen <= |sp.literals.words|
    requires w.distance.Some? ==> Next(sp.distances, n.distances, w.distance.value.symbol, 0)
    ensures HasWords(sp, n, c, w)
  {
  }

  /** The streams of a block, in order. */
  datatype Collected = Collected(literals: seq<nat>, contexts: seq<nat>, symbols: seq<nat>, distances: seq<nat>)

  ghost function StreamsOfCommands(contextOf: (Byte, Byte) -> nat, before: seq<Byte>, input: seq<Byte>, at: nat,
                                   commands: seq<StreamCommand>, direct: nat, postfix: nat): Collected
    requires Placed(input, at, commands) && AllEmittable(commands, direct, postfix)
  {
    Collected(LiteralsOf(input, at, commands), ContextsOf(contextOf, before, input, at, commands),
              SymbolsOf(commands, direct, postfix), DistancesOf(commands, direct, postfix))
  }

  function Concatenated(a: Collected, b: Collected): Collected
  {
    Collected(a.literals + b.literals, a.contexts + b.contexts, a.symbols + b.symbols, a.distances + b.distances)
  }

  /** Those of one command. */
  function OneCollected(contextOf: (Byte, Byte) -> nat, before: seq<Byte>, input: seq<Byte>, at: nat,
                        c: StreamCommand, w: Wire): Collected
    requires at + c.insertLen <= |input|
  {
    Collected(AsSymbols(input[at..at + c.insertLen]), InsertContexts(contextOf, before, input, at, c.insertLen),
              [w.symbol], DistanceOf(w))
  }

  lemma PlacedStep(input: seq<Byte>, at: nat, commands: seq<StreamCommand>)
    requires Placed(input, at, commands) && commands != []
    ensures at + commands[0].insertLen <= |input|
    ensures Placed(input, at + commands[0].insertLen + commands[0].copyLen, commands[1..])
  {
  }

  lemma CollectedStep(contextOf: (Byte, Byte) -> nat, before: seq<Byte>, input: seq<Byte>, at: nat,
                      commands: seq<StreamCommand>, c: StreamCommand, later: seq<StreamCommand>, next: nat, direct: nat,
                      postfix: nat, w: Wire, soFar: Collected)
    requires Placed(input, at, commands) && AllEmittable(commands, direct, postfix)
    requires commands != [] && c == commands[0] && later == commands[1..] && next == at + c.insertLen + c.copyLen
    requires CommandStream.Encodable(c, direct, postfix) && w == Encoded(c, direct, postfix)
    requires at + c.insertLen <= |input| && Placed(input, next, later) && AllEmittable(later, direct, postfix)
    ensures Concatenated(soFar, StreamsOfCommands(contextOf, before, input, at, commands, direct, postfix)) ==
            Concatenated(Concatenated(soFar, OneCollected(contextOf, before, input, at, c, w)),
                         StreamsOfCommands(contextOf, before, input, next, later, direct, postfix))
  {
    hide AsSymbols, InsertContexts, Encoded, CommandStream.Encodable, Emittable, DistanceOf, AllEmittable;
    var one := OneCollected(contextOf, before, input, at, c, w);
    var rest := StreamsOfCommands(contextOf, before, input, next, later, direct, postfix);
    assert StreamsOfCommands(contextOf, before, input, at, commands, direct, postfix) == Concatenated(one, rest);
    hide StreamsOfCommands, OneCollected;
    ConcatenatedTwice(soFar, one, rest);
  }

  lemma ConcatenatedTwice(a: Collected, b: Collected, c: Collected)
    ensures Concatenated(a, Concatenated(b, c)) == Concatenated(Concatenated(a, b), c)
  {
  }

  /** Collects the symbols of all commands, and the contexts of the literals. */
  method CollectStreams(contextOf: (Byte, Byte) -> nat, before: seq<Byte>, input: seq<Byte>, start: nat,
                        commands: seq<StreamCommand>, direct: nat, postfix: nat)
    returns (all: Collected, encoded: seq<Wire>)
    requires Placed(input, start, commands) && AllEmittable(commands, direct, postfix)
    ensures all == StreamsOfCommands(contextOf, before, input, start, commands, direct, postfix)
    ensures |encoded| == |commands| && forall i :: 0 <= i < |commands| ==>
            IsWire(encoded[i], commands[i], direct, postfix)
  {
    hide *;
    all, encoded := Collected([], [], [], []), [];
    var cursor: nat := start;
    NothingFirst(StreamsOfCommands(contextOf, before, input, start, commands, direct, postfix));
    assert commands[0..] == commands;
    for i := 0 to |commands|
      invariant Placed(input, cursor, commands[i..]) && AllEmittable(commands[i..], direct, postfix)
      invariant StreamsOfCommands(contextOf, before, input, start, commands, direct, postfix) ==
                Concatenated(all, StreamsOfCommands(contextOf, before, input, cursor, commands[i..], direct, postfix))
      invariant |encoded| == i && forall j :: 0 <= j < i ==> IsWire(encoded[j], commands[j], direct, postfix)
    {
      assert commands[i..][0] == commands[i] && commands[i..][1..] == commands[i + 1..];
      FirstEmittable(commands[i..], direct, postfix);
      var c := commands[i];
      var w := Encoded(c, direct, postfix);
      ThisIsWire(w, c, direct, postfix);
      PlacedStep(input, cursor, commands[i..]);
      CollectedStep(contextOf, before, input, cursor, commands[i..], c, commands[i + 1..],
                    cursor + c.insertLen + c.copyLen, direct, postfix, w, all);
      all := Concatenated(all, OneCollected(contextOf, before, input, cursor, c, w));
      encoded := encoded + [w];
      cursor := cursor + c.insertLen + c.copyLen;
    }
    assert commands[|commands|..] == [];
    NothingLast(contextOf, before, input, cursor, direct, postfix, all);
  }

  lemma NothingFirst(all: Collected)
    ensures Concatenated(Collected([], [], [], []), all) == all
  {
  }

  lemma NothingLast(contextOf: (Byte, Byte) -> nat, before: seq<Byte>, input: seq<Byte>, at: nat, direct: nat,
                    postfix: nat, all: Collected)
    ensures Placed(input, at, []) && AllEmittable([], direct, postfix)
    ensures Concatenated(all, StreamsOfCommands(contextOf, before, input, at, [], direct, postfix)) == all
  {
    assert all.literals + [] == all.literals && all.contexts + [] == all.contexts;
    assert all.symbols + [] == all.symbols && all.distances + [] == all.distances;
  }

  lemma ThisIsWire(w: Wire, c: StreamCommand, direct: nat, postfix: nat)
    requires Emittable(c, direct, postfix) && w == Encoded(c, direct, postfix)
    ensures IsWire(w, c, direct, postfix)
  {
    hide Emittable, Encoded;
  }

  /** The words of the three streams. */
  datatype StreamWords = StreamWords(literals: seq<seq<bool>>, commands: seq<seq<bool>>, distances: seq<seq<bool>>)

  /** Writes the commands: each symbol's word as its stream has it, with the extra bits between them. */
  method WriteSplitBody(words: StreamWords, encoded: seq<Wire>, commands: seq<StreamCommand>, ghost sp: Splits,
                        ghost before: seq<Byte>, ghost input: seq<Byte>, ghost start: nat)
    returns (bits: seq<bool>)
    requires words == StreamWords(sp.literals.words, sp.commands.words, sp.distances.words)
    requires |encoded| == |commands| && forall i :: 0 <= i < |commands| ==>
             IsWire(encoded[i], commands[i], sp.direct, sp.postfix)
    requires AllAhead(sp, Cursors(0, 0, 0), before, input, start, commands)
    ensures bits == SplitBits(sp, Cursors(0, 0, 0), before, input, start, commands)
  {
    hide AllAhead, HasWords, SplitWord, Encoded, CommandStream.Encodable, IsWire, WordOfCommand;
    bits := [];
    var n := Cursors(0, 0, 0);
    ghost var cursor: nat := start;
    ghost var all := SplitBits(sp, n, before, input, start, commands);
    assert commands[0..] == commands && [] + all == all;
    for i := 0 to |commands|
      invariant AllAhead(sp, n, before, input, cursor, commands[i..])
      invariant all == bits + SplitBits(sp, n, before, input, cursor, commands[i..])
    {
      var c, w := commands[i], encoded[i];
      assert commands[i..][0] == c && commands[i..][1..] == commands[i + 1..];
      AllAheadNext(sp, n, before, input, cursor, commands[i..]);
      WireIs(w, c, sp.direct, sp.postfix);
      HasWordsMeans(sp, n, c, w);
      ghost var word, more := SplitWord(sp, n, c, w),
          SplitBits(sp, After(n, c, w), before, input, cursor + c.insertLen + c.copyLen, commands[i + 1..]);
      assert bits + (word + more) == bits + word + more;
      SameWord(sp, words, n, c, w);
      bits := bits + WordOfCommand(words, n, c, w);
      n := After(n, c, w);
      cursor := cursor + c.insertLen + c.copyLen;
    }
    assert commands[|commands|..] == [];
    NoBits(sp, n, before, input, cursor);
    assert bits + [] == bits;
  }

  lemma WireIs(w: Wire, c: StreamCommand, direct: nat, postfix: nat)
    requires IsWire(w, c, direct, postfix) && CommandStream.Encodable(c, direct, postfix)
    ensures w == Encoded(c, direct, postfix)
  {
    hide Emittable, Encoded, CommandStream.Encodable;
  }

  lemma HasWordsMeans(sp: Splits, n: Cursors, c: StreamCommand, w: Wire)
    requires HasWords(sp, n, c, w)
    ensures n.commands < |sp.commands.words| && (c.insertLen > 0 ==> n.literals + c.insertLen <= |sp.literals.words|)
    ensures w.distance.Some? ==> n.distances < |sp.distances.words|
  {
  }

  lemma NoBits(sp: Splits, n: Cursors, before: seq<Byte>, input: seq<Byte>, at: nat)
    ensures AllAhead(sp, n, before, input, at, []) && SplitBits(sp, n, before, input, at, []) == []
  {
  }

  function WordOfCommand(words: StreamWords, n: Cursors, c: StreamCommand, w: Wire): seq<bool>
    requires n.commands < |words.commands| && (c.insertLen > 0 ==> n.literals + c.insertLen <= |words.literals|)
    requires w.distance.Some? ==> n.distances < |words.distances|
  {
    words.commands[n.commands] + ExtraBits(w.insert) + ExtraBits(w.copy) +
      WordsFrom(words.literals, n.literals, c.insertLen) +
      match w.distance
      case None => []
      case Some(d) => words.distances[n.distances] + BitStream.Lsb(d.extra, d.extraBits)
  }

  lemma SameWord(sp: Splits, words: StreamWords, n: Cursors, c: StreamCommand, w: Wire)
    requires words == StreamWords(sp.literals.words, sp.commands.words, sp.distances.words) && HasWords(sp, n, c, w)
    ensures n.commands < |words.commands| && (c.insertLen > 0 ==> n.literals + c.insertLen <= |words.literals|)
    ensures w.distance.Some? ==> n.distances < |words.distances|
    ensures WordOfCommand(words, n, c, w) == SplitWord(sp, n, c, w)
  {
    hide ExtraBits, WordsFrom;
  }

  lemma {:induction false} ContextsBelow(contextOf: (Byte, Byte) -> nat, most: nat, before: seq<Byte>,
                                         input: seq<Byte>, at: nat, commands: seq<StreamCommand>)
    requires Placed(input, at, commands) && forall a: Byte, b: Byte :: contextOf(a, b) < most
    ensures |ContextsOf(contextOf, before, input, at, commands)| == |LiteralsOf(input, at, commands)|
    ensures AllBelow(ContextsOf(contextOf, before, input, at, commands), most)
    decreases |commands|
  {
    hide ContextAt, AsSymbols, AllBelow;
    if commands == [] {
      NoneBelow(most);
    } else {
      var c := commands[0];
      var next := at + c.insertLen + c.copyLen;
      ContextsBelow(contextOf, most, before, input, next, commands[1..]);
      InsertsBelow(contextOf, most, before, input, at, c.insertLen);
      AllBelowJoin(InsertContexts(contextOf, before, input, at, c.insertLen),
                   ContextsOf(contextOf, before, input, next, commands[1..]), most);
    }
  }

  lemma {:induction false} InsertsBelow(contextOf: (Byte, Byte) -> nat, most: nat, before: seq<Byte>,
                                        input: seq<Byte>, at: nat, count: nat)
    requires at + count <= |input| && forall a: Byte, b: Byte :: contextOf(a, b) < most
    ensures AllBelow(InsertContexts(contextOf, before, input, at, count), most)
    decreases count
  {
    if count > 0 {
      InsertsBelow(contextOf, most, before, input, at + 1, count - 1);
    }
  }

  const LITERAL_MIN_BLOCK: nat := 512
  const COMMAND_MIN_BLOCK: nat := 1024
  const DISTANCE_MIN_BLOCK: nat := 512

  /** One stream: split, coded, written. */
  method WriteOneStream(symbols: seq<nat>, contexts: seq<nat>, alphabet: nat, contextCount: nat, minBlockSize: nat,
                        splitThreshold: real, entropyOf: (seq<nat>, nat) -> real,
                        combinedEntropyOf: (seq<nat>, seq<nat>, nat) -> real)
    returns (words: seq<seq<bool>>, p: Partition, codes: seq<PrefixCode>, first: BlockState, ghost st: SplitStream)
    requires |symbols| == |contexts| <= MAX_SYMBOLS && 0 < alphabet <= MAX_ALPHABET
    requires 0 < contextCount <= MAX_BLOCK_TYPES && 0 < minBlockSize <= MAX_MIN_BLOCK_SIZE
    requires AllBelow(symbols, alphabet) && AllBelow(contexts, contextCount)
    ensures Readable(st) && Tail(st, 0, symbols, contexts) && AtPlace(st, 0, first)
    ensures st.p == p && st.codes == codes && st.words == words && st.contextCount == contextCount
  {
    hide IsAt, StreamReads, BlockSplitting.Expanded, BlockCursors.Blocks;
    var types, lengths;
    ghost var places;
    words, p, codes, types, lengths, places :=
      EncodeSplit(symbols, contexts, alphabet, contextCount, minBlockSize, splitThreshold, entropyOf,
                  combinedEntropyOf);
    HasBlocks(p.numTypes, types, lengths);
    first := BlockState(0, (1, 0), lengths[0], NoSearch(), NoSearch(), None, false);
    st := SplitStream(p, codes, contextCount, Expanded(types, lengths), symbols, contexts, words, places);
    assert symbols[0..] == symbols && contexts[0..] == contexts;
  }

  lemma HasBlocks(numTypes: nat, types: seq<nat>, lengths: seq<nat>)
    requires BlockCursors.Blocks(numTypes, types, lengths)
    ensures |types| == |lengths| > 0
  {
  }

  /** The tree a type and a context choose. */
  function ChosenTree(codes: seq<PrefixCode>, contextCount: nat, t: nat, context: nat): PrefixCode
  {
    var tree := TreeOf(t, context, contextCount);
    if tree < |codes| then codes[tree] else Single(0)
  }

  /** The decoder's view of such a metablock. */
  function SplitHeader(literals: Partition, commands: Partition, distances: Partition,
                       literalCodes: seq<PrefixCode>, commandCodes: seq<PrefixCode>, distanceCodes: seq<PrefixCode>,
                       contextOf: (Byte, Byte) -> nat, contextCount: nat, direct: nat, postfix: nat, words: Words,
                       windowSize: nat): Header
  {
    Header(literals, commands, distances, postfix, direct, windowSize,
           (t: nat, a: Byte, b: Byte) => ChosenTree(literalCodes, contextCount, t, contextOf(a, b)),
           (t: nat) => ChosenTree(commandCodes, 1, t, 0), (t: nat, k: nat) => ChosenTree(distanceCodes, 1, t, 0), words)
  }

  lemma HeaderReadsSplits(sp: Splits, words: Words, windowSize: nat)
    requires Readable(sp.literals) && Readable(sp.commands) && Readable(sp.distances)
    requires sp.commands.contextCount == sp.distances.contextCount == 1
    ensures ReadsSplits(SplitHeader(sp.literals.p, sp.commands.p, sp.distances.p, sp.literals.codes,
                                    sp.commands.codes, sp.distances.codes, sp.contextOf, sp.literals.contextCount,
                                    sp.direct, sp.postfix, words, windowSize), sp)
  {
    hide Readable, TreeOf;
  }

  /** A block in its split form, whatever the entropies: written, and executed by a decoder that starts with the first
      block of each stream. What comes out is the block, with the encoder's distances, and nothing behind the body is
      touched. */
  method EncodeThenExecute(words: Words, windowSize: nat, before: seq<Byte>, input: seq<Byte>, start: nat, end: nat,
                           commands: seq<StreamCommand>, ring: Ring, direct: nat, postfix: nat,
                           contextOf: (Byte, Byte) -> nat, contextCount: nat, entropyOf: (seq<nat>, nat) -> real,
                           combinedEntropyOf: (seq<nat>, seq<nat>, nat) -> real, rest: seq<bool>, room: nat)
    returns (bits: seq<bool>, stop: Stop, ghost sp: Splits)
    requires start <= end <= |input| && end - start <= MAX_META_BLOCK_SIZE && end - start <= room
    requires Executes(words, windowSize, before, input, start, commands, end, ring)
    requires DistancesCoded(commands, direct, postfix) && AlphabetSize(direct, postfix) <= MAX_ALPHABET
    requires windowSize >= 1008 && direct <= 120 && SoundFor(ring, Min(|before| + start, windowSize))
    requires 0 < contextCount <= MAX_BLOCK_TYPES && forall a: Byte, b: Byte :: contextOf(a, b) < contextCount
    ensures Readable(sp.literals) && Readable(sp.commands) && Readable(sp.distances)
    ensures StreamsFrom(sp, Cursors(0, 0, 0), before, input, start, commands)
    ensures AllAhead(sp, Cursors(0, 0, 0), before, input, start, commands)
    ensures bits == SplitBits(sp, Cursors(0, 0, 0), before, input, start, commands)
    ensures stop.status == BlockMachine.Done && stop.rest == rest && stop.state.flat == Upto(before, input, end)
    ensures stop.state.ring == RingAtEnd(ring, |before| + start, commands, windowSize)
  {
    hide *;
    ExecutesPlaced(words, windowSize, before, input, start, commands, end, ring, direct, postfix);
    ContextsBelow(contextOf, contextCount, before, input, start, commands);
    var all, encoded := CollectStreams(contextOf, before, input, start, commands, direct, postfix);
    CollectedParts(contextOf, before, input, start, commands, direct, postfix);
    Limits(direct, postfix);
    NoContexts(|all.symbols|);
    NoContexts(|all.distances|);
    var literalWords, literals, literalCodes, firstLiterals;
    var commandWords, symbols, commandCodes, firstCommands;
    var distanceWords, distances, distanceCodes, firstDistances;
    ghost var l, c, d;
    literalWords, literals, literalCodes, firstLiterals, l :=
      WriteOneStream(all.literals, all.contexts, LITERAL_ALPHABET_SIZE, contextCount, LITERAL_MIN_BLOCK, 400.0,
                     entropyOf, combinedEntropyOf);
    commandWords, symbols, commandCodes, firstCommands, c :=
      WriteOneStream(all.symbols, Zeros(|all.symbols|), COMMAND_ALPHABET_SIZE, 1, COMMAND_MIN_BLOCK, 500.0, entropyOf,
                     combinedEntropyOf);
    distanceWords, distances, distanceCodes, firstDistances, d :=
      WriteOneStream(all.distances, Zeros(|all.distances|), AlphabetSize(direct, postfix), 1, DISTANCE_MIN_BLOCK,
                     100.0, entropyOf, combinedEntropyOf);
    sp := Splits(l, c, d, contextOf, direct, postfix);
    StreamsAtStart(sp, before, input, start, commands);
    StreamsAhead(sp, Cursors(0, 0, 0), before, input, start, commands);
    bits := WriteSplitBody(StreamWords(literalWords, commandWords, distanceWords), encoded, commands, sp, before,
                           input, start);
    var h := SplitHeader(literals, symbols, distances, literalCodes, commandCodes, distanceCodes, contextOf,
                         contextCount, direct, postfix, words, windowSize);
    HeaderReadsSplits(sp, words, windowSize);
    var s := State(firstLiterals, firstCommands, firstDistances, NoSearch(), NoSearch(), NoSearch(), end - start,
                   Command, ring, Upto(before, input, start));
    StartsSane(sp, h, s, words, windowSize, before, input, start, end, ring);
    stop := Run(h, s, bits + rest, room);
    ghost var t := ReadsSplitBody(h, sp, s, Cursors(0, 0, 0), before, input, start, end, commands, rest, room);
    EndIs(s, t, before, input, end, RingAtEnd(s.ring, |before| + start, commands, h.windowSize));
  }

  lemma CollectedParts(contextOf: (Byte, Byte) -> nat, before: seq<Byte>, input: seq<Byte>, at: nat,
                       commands: seq<StreamCommand>, direct: nat, postfix: nat)
    requires Placed(input, at, commands) && AllEmittable(commands, direct, postfix)
    ensures var all := StreamsOfCommands(contextOf, before, input, at, commands, direct, postfix);
            && all.literals == LiteralsOf(input, at, commands)
            && all.contexts == ContextsOf(contextOf, before, input, at, commands)
            && all.symbols == SymbolsOf(commands, direct, postfix)
            && all.distances == DistancesOf(commands, direct, postfix)
  {
  }

  lemma Limits(direct: nat, postfix: nat)
    ensures MAX_META_BLOCK_SIZE == MAX_SYMBOLS && MAX_BLOCK_TYPES == 256 && MAX_MIN_BLOCK_SIZE == 16624
    ensures LITERAL_ALPHABET_SIZE == 256 && COMMAND_ALPHABET_SIZE == 704 == MAX_ALPHABET
    ensures LITERAL_MIN_BLOCK == DISTANCE_MIN_BLOCK == 512 && COMMAND_MIN_BLOCK == 1024
    ensures AlphabetSize(direct, postfix) > 0
  {
    SomeDistances(direct, postfix);
  }

  lemma NoContexts(n: nat)
    ensures |Zeros(n)| == n && AllBelow(Zeros(n), 1)
  {
  }

  lemma StreamsAtStart(sp: Splits, before: seq<Byte>, input: seq<Byte>, at: nat, commands: seq<StreamCommand>)
    requires Placed(input, at, commands) && AllEmittable(commands, sp.direct, sp.postfix)
    requires Tail(sp.literals, 0, LiteralsOf(input, at, commands),
                  ContextsOf(sp.contextOf, before, input, at, commands))
    requires Tail(sp.commands, 0, SymbolsOf(commands, sp.direct, sp.postfix),
                  Zeros(|SymbolsOf(commands, sp.direct, sp.postfix)|))
    requires Tail(sp.distances, 0, DistancesOf(commands, sp.direct, sp.postfix),
                  Zeros(|DistancesOf(commands, sp.direct, sp.postfix)|))
    ensures StreamsFrom(sp, Cursors(0, 0, 0), before, input, at, commands)
  {
    hide Tail, Placed, AllEmittable, LiteralsOf, SymbolsOf, DistancesOf, ContextsOf;
  }

  lemma StartsSane(sp: Splits, h: Header, s: State, words: Words, windowSize: nat, before: seq<Byte>,
                   input: seq<Byte>, start: nat, end: nat, ring: Ring)
    requires ReadsSplits(h, sp) && start <= end <= |input| && windowSize >= 1008 && sp.direct <= 120
    requires s.phase.Command? && s.remaining == end - start && s.ring == ring && s.flat == Upto(before, input, start)
    requires s.literalSearch == s.commandSearch == s.distanceSearch == NoSearch()
    requires h == SplitHeader(sp.literals.p, sp.commands.p, sp.distances.p, sp.literals.codes, sp.commands.codes,
                              sp.distances.codes, sp.contextOf, sp.literals.contextCount, sp.direct, sp.postfix, words,
                              windowSize)
    requires AtPlace(sp.literals, 0, s.literalBlocks) && AtPlace(sp.commands, 0, s.commandBlocks)
    requires AtPlace(sp.distances, 0, s.distanceBlocks) && SoundFor(ring, Min(|before| + start, windowSize))
    ensures Sane(h, s) && AtCursors(sp, Cursors(0, 0, 0), s) && InStep(s, before, input, start, end, s.ring)
    ensures h.words == words && h.windowSize == windowSize
  {
    hide ReadsSplits, AtPlace, Upto, ChosenTree;
  }

  lemma EndIs(s: State, t: State, before: seq<Byte>, input: seq<Byte>, end: nat, ring: Ring)
    requires end <= |input| && SameButBlocks(EndState(s, before, input, end, ring), t)
    ensures t.flat == Upto(before, input, end) && t.ring == ring
  {
    hide Upto;
  }
}
