/** From commands to bits: histograms, codes, and the words of every command (`src/encode/fragment.rs`,
    `src/encode/greedy.rs`); and what the frequency tables say about the number of bits. */
module CommandEmission {
  import opened Arithmetic
  import opened Bytes
  import opened MetablockHeaders
  import opened BitStream
  import opened HuffmanTree
  import opened HuffmanLengths
  import opened LengthLimitedCode
  import opened CanonicalTables
  import opened Dictionary
  import opened Distances
  import opened Commands
  import opened BlockMachine
  import opened PrefixReading
  import opened PrefixEncodings
  import opened CommandStream
  import Tokens = ComplexPrefixEncoder
  import opened Outcomes

  const LITERAL_ALPHABET_SIZE: nat := 256
  const COMMAND_ALPHABET_SIZE: nat := 704

  /** How often each symbol of an alphabet occurs. */
  function Histogram(symbols: seq<nat>, size: nat): (h: seq<nat>)
    ensures |h| == size
  {
    if symbols == [] then Zeros(size)
    else
      var h, s := Histogram(symbols[..|symbols| - 1], size), symbols[|symbols| - 1];
      if s < size then h[s := h[s] + 1] else h
  }

  lemma HistogramSnoc(symbols: seq<nat>, s: nat, size: nat)
    requires s < size
    ensures Histogram(symbols + [s], size) == Histogram(symbols, size)[s := Histogram(symbols, size)[s] + 1]
  {
    assert (symbols + [s])[..|symbols|] == symbols;
  }

  predicate AllBelow(symbols: seq<nat>, size: nat)
  {
    forall i :: 0 <= i < |symbols| ==> symbols[i] < size
  }

  lemma {:induction false} HistogramTotal(symbols: seq<nat>, size: nat)
    requires AllBelow(symbols, size)
    ensures Total(Histogram(symbols, size)) == |symbols|
  {
    hide Total;
    if symbols == [] {
      ZerosTotal(size);
    } else {
      var front, s := symbols[..|symbols| - 1], symbols[|symbols| - 1];
      HistogramTotal(front, size);
      TotalOne(Histogram(front, size), s);
    }
  }

  lemma {:induction false} HistogramHas(symbols: seq<nat>, size: nat, i: nat)
    requires i < |symbols| && symbols[i] < size
    ensures Histogram(symbols, size)[symbols[i]] > 0
  {
    if i < |symbols| - 1 {
      HistogramHas(symbols[..|symbols| - 1], size, i);
    }
  }

  /** The lengths of the symbols, one after another. */
  function LengthSum(lengths: seq<nat>, symbols: seq<nat>): nat
  {
    if symbols == [] then 0
    else
      var s := symbols[|symbols| - 1];
      LengthSum(lengths, symbols[..|symbols| - 1]) + if s < |lengths| then lengths[s] else 0
  }

  lemma {:induction false} LengthSumAppend(lengths: seq<nat>, xs: seq<nat>, ys: seq<nat>)
    ensures LengthSum(lengths, xs + ys) == LengthSum(lengths, xs) + LengthSum(lengths, ys)
    decreases |ys|
  {
    if ys == [] {
      assert xs + ys == xs;
    } else {
      LengthSumAppend(lengths, xs, ys[..|ys| - 1]);
      assert (xs + ys)[..|xs + ys| - 1] == xs + ys[..|ys| - 1];
    }
  }

  lemma {:induction false} CostOne(weights: seq<nat>, lengths: seq<nat>, s: nat)
    requires s < |weights| == |lengths|
    ensures Cost(weights[s := weights[s] + 1], lengths) == Cost(weights, lengths) + lengths[s]
    decreases s
  {
    if s > 0 {
      CostOne(weights[1..], lengths[1..], s - 1);
      assert weights[s := weights[s] + 1][1..] == weights[1..][s - 1 := weights[1..][s - 1] + 1];
    } else {
      assert weights[s := weights[s] + 1][1..] == weights[1..];
      OneMore(weights[0], lengths[0]);
    }
  }

  lemma OneMore(w: nat, l: nat)
    ensures (w + 1) * l == w * l + l
  {
  }

  lemma {:induction false} NoCost(lengths: seq<nat>)
    ensures Cost(Zeros(|lengths|), lengths) == 0
  {
    if lengths != [] {
      NoCost(lengths[1..]);
      assert Zeros(|lengths|)[1..] == Zeros(|lengths| - 1);
    }
  }

  /** Frequency times length, summed over the alphabet, is the length of the stream. */
  lemma {:induction false} HistogramCost(symbols: seq<nat>, lengths: seq<nat>)
    ensures Cost(Histogram(symbols, |lengths|), lengths) == LengthSum(lengths, symbols)
    decreases |symbols|
  {
    hide Cost;
    if symbols == [] {
      NoCost(lengths);
    } else {
      var front, s := symbols[..|symbols| - 1], symbols[|symbols| - 1];
      HistogramCost(front, lengths);
      if s < |lengths| {
        CostOne(Histogram(front, |lengths|), lengths, s);
      }
    }
  }

  /** The bytes of the input as symbols. */
  function AsSymbols(bytes: seq<Byte>): (s: seq<nat>)
    ensures |s| == |bytes| && forall i :: 0 <= i < |bytes| ==> s[i] == bytes[i]
  {
    seq(|bytes|, i requires 0 <= i < |bytes| => bytes[i])
  }

  /** The commands lie within the input. */
  ghost predicate Placed(input: seq<Byte>, at: nat, commands: seq<StreamCommand>)
    decreases |commands|
  {
    commands == [] ||
    (at + commands[0].insertLen <= |input| &&
     Placed(input, at + commands[0].insertLen + commands[0].copyLen, commands[1..]))
  }

  /** The literals the commands insert. */
  ghost function LiteralsOf(input: seq<Byte>, at: nat, commands: seq<StreamCommand>): seq<nat>
    requires Placed(input, at, commands)
    decreases |commands|
  {
    if commands == [] then []
    else
      var c := commands[0];
      AsSymbols(input[at..at + c.insertLen]) + LiteralsOf(input, at + c.insertLen + c.copyLen, commands[1..])
  }

  /** A command whose symbols are in the alphabets. */
  predicate Emittable(c: StreamCommand, direct: nat, postfix: nat)
  {
    && Encodable(c, direct, postfix) && Encoded(c, direct, postfix).symbol < COMMAND_ALPHABET_SIZE
    && (Encoded(c, direct, postfix).distance.Some? ==>
          Encoded(c, direct, postfix).distance.value.symbol < AlphabetSize(direct, postfix))
  }

  predicate AllEmittable(commands: seq<StreamCommand>, direct: nat, postfix: nat)
  {
    forall i :: 0 <= i < |commands| ==> Emittable(commands[i], direct, postfix)
  }

  function SymbolsOf(commands: seq<StreamCommand>, direct: nat, postfix: nat): seq<nat>
    requires AllEmittable(commands, direct, postfix)
  {
    if commands == [] then []
    else [Encoded(commands[0], direct, postfix).symbol] + SymbolsOf(commands[1..], direct, postfix)
  }

  function DistanceOf(w: Wire): seq<nat>
  {
    if w.distance.Some? then [w.distance.value.symbol] else []
  }

  function DistancesOf(commands: seq<StreamCommand>, direct: nat, postfix: nat): seq<nat>
    requires AllEmittable(commands, direct, postfix)
  {
    if commands == [] then []
    else DistanceOf(Encoded(commands[0], direct, postfix)) + DistancesOf(commands[1..], direct, postfix)
  }

  /** Extra bits of lengths and distance. */
  function ExtraBitCount(w: Wire): nat
  {
    w.insert.extraBits + w.copy.extraBits + if w.distance.Some? then w.distance.value.extraBits else 0
  }

  function ExtrasOf(commands: seq<StreamCommand>, direct: nat, postfix: nat): nat
    requires AllEmittable(commands, direct, postfix)
  {
    if commands == [] then 0
    else ExtraBitCount(Encoded(commands[0], direct, postfix)) + ExtrasOf(commands[1..], direct, postfix)
  }

  /** Every symbol of a stream has a code. */
  predicate AllHaveCodes(lengths: seq<nat>, symbols: seq<nat>)
  {
    forall i :: 0 <= i < |symbols| ==> HasCode(lengths, symbols[i])
  }

  lemma AllHaveCodesSplit(lengths: seq<nat>, xs: seq<nat>, ys: seq<nat>)
    requires AllHaveCodes(lengths, xs + ys)
    ensures AllHaveCodes(lengths, xs) && AllHaveCodes(lengths, ys)
  {
    assert forall i :: 0 <= i < |xs| ==> (xs + ys)[i] == xs[i];
    assert forall i :: 0 <= i < |ys| ==> (xs + ys)[|xs| + i] == ys[i];
  }

  /** Codes for all symbols of the streams can write the commands. */
  lemma {:induction false} StreamsWritable(codes: Codes, input: seq<Byte>, at: nat, commands: seq<StreamCommand>)
    requires Placed(input, at, commands) && AllEmittable(commands, codes.direct, codes.postfix)
    requires AllHaveCodes(codes.literals, LiteralsOf(input, at, commands))
    requires AllHaveCodes(codes.commands, SymbolsOf(commands, codes.direct, codes.postfix))
    requires AllHaveCodes(codes.distances, DistancesOf(commands, codes.direct, codes.postfix))
    ensures Writable(codes, input, at, commands)
    decreases |commands|
  {
    hide Emittable, Encoded, AllHaveCodes, AllEmittable;
    if commands != [] {
      var c := commands[0];
      var next := at + c.insertLen + c.copyLen;
      FirstEmittable(commands, codes.direct, codes.postfix);
      var w := Encoded(c, codes.direct, codes.postfix);
      AllHaveCodesSplit(codes.literals, AsSymbols(input[at..at + c.insertLen]), LiteralsOf(input, next, commands[1..]));
      AllHaveCodesSplit(codes.commands, [w.symbol], SymbolsOf(commands[1..], codes.direct, codes.postfix));
      AllHaveCodesSplit(codes.distances, DistanceOf(w), DistancesOf(commands[1..], codes.direct, codes.postfix));
      StreamsWritable(codes, input, next, commands[1..]);
      OneWritable(codes, input, at, c);
    }
  }

  lemma FirstEmittable(commands: seq<StreamCommand>, direct: nat, postfix: nat)
    requires AllEmittable(commands, direct, postfix) && commands != []
    ensures Emittable(commands[0], direct, postfix) && Encodable(commands[0], direct, postfix) &&
            AllEmittable(commands[1..], direct, postfix)
  {
    hide Encodable, Encoded;
  }

  lemma OneWritable(codes: Codes, input: seq<Byte>, at: nat, c: StreamCommand)
    requires at + c.insertLen <= |input| && Encodable(c, codes.direct, codes.postfix)
    requires AllHaveCodes(codes.literals, AsSymbols(input[at..at + c.insertLen]))
    requires AllHaveCodes(codes.commands, [Encoded(c, codes.direct, codes.postfix).symbol])
    requires AllHaveCodes(codes.distances, DistanceOf(Encoded(c, codes.direct, codes.postfix)))
    ensures CommandHasCodes(codes, input, at, c)
  {
    hide Encoded, Encodable;
    var bytes := input[at..at + c.insertLen];
    assert forall i :: 0 <= i < |bytes| ==> AsSymbols(bytes)[i] == bytes[i];
    var w := Encoded(c, codes.direct, codes.postfix);
    assert [w.symbol][0] == w.symbol;
    if w.distance.Some? {
      assert DistanceOf(w)[0] == w.distance.value.symbol;
    }
  }

  /** The number of bits of each symbol's word. */
  function WordLengths(lengths: seq<nat>): (ls: seq<nat>)
    ensures |ls| == |lengths|
  {
    seq(|lengths|, s requires 0 <= s < |lengths| => |SymbolWord(lengths, s)|)
  }

  lemma {:induction false} LiteralBitsLength(lengths: seq<nat>, bytes: seq<Byte>)
    requires HaveCodes(lengths, bytes)
    ensures |LiteralBits(lengths, bytes)| == LengthSum(WordLengths(lengths), AsSymbols(bytes))
  {
    hide SymbolWord;
    if bytes != [] {
      LiteralBitsLength(lengths, bytes[1..]);
      assert AsSymbols(bytes) == [bytes[0]] + AsSymbols(bytes[1..]);
      LengthSumAppend(WordLengths(lengths), [bytes[0]], AsSymbols(bytes[1..]));
      LengthOfOne(WordLengths(lengths), bytes[0]);
    }
  }

  lemma LengthOfOne(lengths: seq<nat>, s: nat)
    requires s < |lengths|
    ensures LengthSum(lengths, [s]) == lengths[s]
  {
    assert [s][..0] == [];
    assert LengthSum(lengths, [s]) == LengthSum(lengths, []) + lengths[s];
  }

  /** What one command takes. */
  lemma CommandBitsLength(codes: Codes, input: seq<Byte>, at: nat, c: StreamCommand)
    requires CommandHasCodes(codes, input, at, c)
    ensures var w := Encoded(c, codes.direct, codes.postfix);
            |CommandBits(codes, input, at, c)| ==
            LengthSum(WordLengths(codes.commands), [w.symbol]) +
              LengthSum(WordLengths(codes.literals), AsSymbols(input[at..at + c.insertLen])) +
            LengthSum(WordLengths(codes.distances), DistanceOf(w)) + ExtraBitCount(w)
  {
    hide Encoded, Encodable, SymbolWord, Lsb, LiteralBits, LengthSum;
    var w := Encoded(c, codes.direct, codes.postfix);
    LiteralBitsLength(codes.literals, input[at..at + c.insertLen]);
    LengthOfOne(WordLengths(codes.commands), w.symbol);
    if w.distance.Some? {
      LengthOfOne(WordLengths(codes.distances), w.distance.value.symbol);
    } else {
      LengthOfNone(WordLengths(codes.distances));
    }
  }

  lemma LengthOfNone(lengths: seq<nat>)
    ensures LengthSum(lengths, []) == 0
  {
  }

  /** The number of bits of a body is the sum over its streams: words and extra bits. */
  lemma {:induction false} BodyBitsLength(codes: Codes, input: seq<Byte>, at: nat, commands: seq<StreamCommand>)
    requires Writable(codes, input, at, commands) && Placed(input, at, commands) &&
             AllEmittable(commands, codes.direct, codes.postfix)
    ensures |BodyBits(codes, input, at, commands)| ==
            LengthSum(WordLengths(codes.literals), LiteralsOf(input, at, commands)) +
            LengthSum(WordLengths(codes.commands), SymbolsOf(commands, codes.direct, codes.postfix)) +
            LengthSum(WordLengths(codes.distances), DistancesOf(commands, codes.direct, codes.postfix)) +
            ExtrasOf(commands, codes.direct, codes.postfix)
    decreases |commands|
  {
    hide Encoded, WordLengths, LengthSum, CommandBits, CommandHasCodes, ExtraBitCount, Emittable, AllEmittable;
    if commands == [] {
      LengthOfNone(WordLengths(codes.literals));
      LengthOfNone(WordLengths(codes.commands));
      LengthOfNone(WordLengths(codes.distances));
    } else {
      var c := commands[0];
      var next := at + c.insertLen + c.copyLen;
      FirstEmittable(commands, codes.direct, codes.postfix);
      BodyBitsLength(codes, input, next, commands[1..]);
      CommandBitsLength(codes, input, at, c);
      var w := Encoded(c, codes.direct, codes.postfix);
      LengthSumAppend(WordLengths(codes.literals), AsSymbols(input[at..at + c.insertLen]),
                      LiteralsOf(input, next, commands[1..]));
      LengthSumAppend(WordLengths(codes.commands), [w.symbol], SymbolsOf(commands[1..], codes.direct, codes.postfix));
      LengthSumAppend(WordLengths(codes.distances), DistanceOf(w),
                      DistancesOf(commands[1..], codes.direct, codes.postfix));
    }
  }

  /** One more occurrence. */
  method Count(frequencies: array<nat>, symbol: nat, ghost symbols: seq<nat>)
    requires symbol < frequencies.Length && frequencies[..] == Histogram(symbols, frequencies.Length)
    modifies frequencies
    ensures frequencies[..] == Histogram(symbols + [symbol], frequencies.Length)
  {
    ghost var was := frequencies[..];
    HistogramSnoc(symbols, symbol, frequencies.Length);
    hide Histogram;
    frequencies[symbol] := frequencies[symbol] + 1;
    assert frequencies[..] == was[symbol := was[symbol] + 1];
  }

  method CountLiterals(bytes: seq<Byte>, frequencies: array<nat>, ghost symbols: seq<nat>)
    requires frequencies.Length == LITERAL_ALPHABET_SIZE && frequencies[..] == Histogram(symbols, LITERAL_ALPHABET_SIZE)
    modifies frequencies
    ensures frequencies[..] == Histogram(symbols + AsSymbols(bytes), LITERAL_ALPHABET_SIZE)
  {
    hide Histogram;
    assert symbols + AsSymbols(bytes[..0]) == symbols;
    for i := 0 to |bytes|
      invariant frequencies[..] == Histogram(symbols + AsSymbols(bytes[..i]), LITERAL_ALPHABET_SIZE)
    {
      Count(frequencies, bytes[i], symbols + AsSymbols(bytes[..i]));
      assert symbols + AsSymbols(bytes[..i]) + [bytes[i]] == symbols + AsSymbols(bytes[..i + 1]);
    }
    assert bytes[..|bytes|] == bytes;
  }

  /** The tables of a metablock. */
  datatype Counters = Counters(literals: array<nat>, symbols: array<nat>, distances: array<nat>)

  predicate Sized(t: Counters, direct: nat, postfix: nat)
  {
    && t.literals.Length == LITERAL_ALPHABET_SIZE && t.symbols.Length == COMMAND_ALPHABET_SIZE
    && t.distances.Length == AlphabetSize(direct, postfix)
    && t.literals != t.symbols && t.literals != t.distances && t.symbols != t.distances
  }

  /** What the tables count: three streams. */
  datatype Streams = Streams(literals: seq<nat>, symbols: seq<nat>, distances: seq<nat>)

  function Joined(a: Streams, b: Streams): Streams
  {
    Streams(a.literals + b.literals, a.symbols + b.symbols, a.distances + b.distances)
  }

  ghost predicate Counts(t: Counters, st: Streams)
    reads t.literals, t.symbols, t.distances
  {
    && t.literals[..] == Histogram(st.literals, t.literals.Length)
    && t.symbols[..] == Histogram(st.symbols, t.symbols.Length)
    && t.distances[..] == Histogram(st.distances, t.distances.Length)
  }

  ghost function StreamsOf(input: seq<Byte>, at: nat, commands: seq<StreamCommand>, direct: nat, postfix: nat): Streams
    requires Placed(input, at, commands) && AllEmittable(commands, direct, postfix)
  {
    Streams(LiteralsOf(input, at, commands), SymbolsOf(commands, direct, postfix),
            DistancesOf(commands, direct, postfix))
  }

  /** The streams of one command. */
  function OneStream(input: seq<Byte>, at: nat, c: StreamCommand, w: Wire): Streams
    requires at + c.insertLen <= |input|
  {
    Streams(AsSymbols(input[at..at + c.insertLen]), [w.symbol], DistanceOf(w))
  }

  /** Counts the symbols of one command. */
  method CountCommand(input: seq<Byte>, at: nat, c: StreamCommand, w: Wire, t: Counters, ghost st: Streams,
                      ghost direct: nat, ghost postfix: nat)
    requires Emittable(c, direct, postfix) && at + c.insertLen <= |input| && w == Encoded(c, direct, postfix)
    requires Sized(t, direct, postfix) && Counts(t, st)
    modifies t.literals, t.symbols, t.distances
    ensures Counts(t, Joined(st, OneStream(input, at, c, w)))
  {
    hide Histogram, Encoded, Encodable, AlphabetSize;
    CountLiterals(input[at..at + c.insertLen], t.literals, st.literals);
    Count(t.symbols, w.symbol, st.symbols);
    if w.distance.Some? {
      Count(t.distances, w.distance.value.symbol, st.distances);
    } else {
      assert st.distances + [] == st.distances;
    }
  }

  /** The streams so far and those of the commands to come are those of all commands. */
  ghost predicate Underway(input: seq<Byte>, start: nat, commands: seq<StreamCommand>, direct: nat, postfix: nat,
                           st: Streams, at: nat, later: seq<StreamCommand>)
  {
    && Placed(input, start, commands) && AllEmittable(commands, direct, postfix) && Placed(input, at, later)
    && AllEmittable(later, direct, postfix)
    && StreamsOf(input, start, commands, direct, postfix) == Joined(st, StreamsOf(input, at, later, direct, postfix))
  }

  lemma Starts(input: seq<Byte>, start: nat, commands: seq<StreamCommand>, direct: nat, postfix: nat)
    requires Placed(input, start, commands) && AllEmittable(commands, direct, postfix)
    ensures Underway(input, start, commands, direct, postfix, Streams([], [], []), start, commands)
  {
    hide LiteralsOf, SymbolsOf, DistancesOf;
    var st := StreamsOf(input, start, commands, direct, postfix);
    assert [] + st.literals == st.literals && [] + st.symbols == st.symbols && [] + st.distances == st.distances;
  }

  lemma GoesOn(input: seq<Byte>, start: nat, commands: seq<StreamCommand>, direct: nat, postfix: nat, st: Streams,
               at: nat, later: seq<StreamCommand>)
    requires Underway(input, start, commands, direct, postfix, st, at, later) && later != []
    ensures Emittable(later[0], direct, postfix) && at + later[0].insertLen <= |input|
    ensures Underway(input, start, commands, direct, postfix,
                     Joined(st, OneStream(input, at, later[0], Encoded(later[0], direct, postfix))),
                     at + later[0].insertLen + later[0].copyLen, later[1..])
  {
    hide Emittable, Encoded, AllEmittable;
    FirstEmittable(later, direct, postfix);
    var c := later[0];
    var next := at + c.insertLen + c.copyLen;
    var one := OneStream(input, at, c, Encoded(c, direct, postfix));
    var rest := StreamsOf(input, next, later[1..], direct, postfix);
    assert StreamsOf(input, at, later, direct, postfix) == Joined(one, rest);
    hide StreamsOf;
    JoinedTwice(st, one, rest);
  }

  lemma JoinedTwice(a: Streams, b: Streams, c: Streams)
    ensures Joined(a, Joined(b, c)) == Joined(Joined(a, b), c)
  {
  }

  lemma Ends(input: seq<Byte>, start: nat, commands: seq<StreamCommand>, direct: nat, postfix: nat, st: Streams,
             at: nat)
    requires Underway(input, start, commands, direct, postfix, st, at, [])
    ensures Placed(input, start, commands) && AllEmittable(commands, direct, postfix)
    ensures st == StreamsOf(input, start, commands, direct, postfix)
  {
    hide Emittable, AllEmittable;
    assert st.literals + [] == st.literals && st.symbols + [] == st.symbols && st.distances + [] == st.distances;
    assert StreamsOf(input, at, [], direct, postfix) == Streams([], [], []);
  }

  predicate IsWire(w: Wire, c: StreamCommand, direct: nat, postfix: nat)
  {
    Emittable(c, direct, postfix) && w == Encoded(c, direct, postfix)
  }

  /** Counts the symbols of all commands. */
  method CountCommands(input: seq<Byte>, start: nat, commands: seq<StreamCommand>, direct: nat, postfix: nat,
                       t: Counters) returns (encoded: seq<Wire>)
    requires Placed(input, start, commands) && AllEmittable(commands, direct, postfix)
    requires Sized(t, direct, postfix) && Counts(t, Streams([], [], []))
    modifies t.literals, t.symbols, t.distances
    ensures Counts(t, StreamsOf(input, start, commands, direct, postfix))
    ensures |encoded| == |commands| && forall i :: 0 <= i < |commands| ==>
            IsWire(encoded[i], commands[i], direct, postfix)
  {
    hide Emittable, Encoded, Counts, Underway, Placed, StreamsOf, Joined, OneStream, AlphabetSize, Histogram;
    ghost var st := Streams([], [], []);
    var cursor: nat := start;
    encoded := [];
    assert commands[0..] == commands;
    Starts(input, start, commands, direct, postfix);
    for i := 0 to |commands|
      invariant Counts(t, st) && Underway(input, start, commands, direct, postfix, st, cursor, commands[i..])
      invariant |encoded| == i && forall j :: 0 <= j < i ==> IsWire(encoded[j], commands[j], direct, postfix)
    {
      assert commands[i..][0] == commands[i] && commands[i..][1..] == commands[i + 1..];
      GoesOn(input, start, commands, direct, postfix, st, cursor, commands[i..]);
      FirstEmittable(commands[i..], direct, postfix);
      var w := Encoded(commands[i], direct, postfix);
      CountCommand(input, cursor, commands[i], w, t, st, direct, postfix);
      st := Joined(st, OneStream(input, cursor, commands[i], w));
      encoded := encoded + [w];
      cursor := cursor + commands[i].insertLen + commands[i].copyLen;
    }
    assert commands[|commands|..] == [];
    Ends(input, start, commands, direct, postfix, st, cursor);
  }

  /** A code must have a symbol: an empty histogram gets the first one. */
  method SeedEmptyHistogram(frequencies: array<nat>)
    requires frequencies.Length > 0
    modifies frequencies
    ensures Active(frequencies[..]) > 0 && Total(frequencies[..]) <= old(Total(frequencies[..])) + 1
    ensures frequencies[..] == old(frequencies[..]) || (old(frequencies[..]) == Zeros(frequencies.Length) &&
                                                        frequencies[..] == Zeros(frequencies.Length)[0 := 1])
  {
    hide Total, Active;
    ghost var was := frequencies[..];
    var s := 0;
    while s < frequencies.Length && frequencies[s] == 0
      invariant s <= frequencies.Length && forall t :: 0 <= t < s ==> frequencies[t] == 0
    {
      s := s + 1;
    }
    if s == frequencies.Length {
      assert was == Zeros(frequencies.Length);
      frequencies[0] := 1;
      assert frequencies[..] == was[0 := was[0] + 1];
      TotalOne(was, 0);
      Tokens.SomeActive(frequencies[..], 0);
    } else {
      Tokens.SomeActive(frequencies[..], s);
    }
  }

  /** A code for a stream of symbols: it has all of them, the decoder can make it, and the frequency table
      it was made from gives the number of bits of the stream. */
  ghost predicate SuitsStream(e: PrefixEncoding, frequencies: seq<nat>, symbols: seq<nat>)
  {
    && Encodes(e, frequencies) && AllHaveCodes(LengthsOf(e), symbols) && Decodable(LengthsOf(e))
    && |LengthsOf(e)| == |frequencies|
    && Cost(frequencies, WordLengths(LengthsOf(e))) == LengthSum(WordLengths(LengthsOf(e)), symbols)
  }

  lemma EncodesLengths(e: PrefixEncoding, frequencies: seq<nat>)
    requires Encodes(e, frequencies)
    ensures |LengthsOf(e)| == |frequencies| && Decodable(LengthsOf(e))
    ensures forall s :: 0 <= s < |frequencies| && frequencies[s] > 0 ==> HasCode(LengthsOf(e), s)
  {
    hide LengthsOf, Decodable, WritesSymbol;
  }

  lemma ExactSuits(e: PrefixEncoding, frequencies: seq<nat>, symbols: seq<nat>)
    requires Encodes(e, frequencies) && frequencies == Histogram(symbols, |frequencies|) &&
             AllBelow(symbols, |frequencies|)
    ensures SuitsStream(e, frequencies, symbols)
  {
    EncodesLengths(e, frequencies);
    hide Encodes, LengthsOf, Decodable, WordLengths, Cost, LengthSum, Histogram, HasCode;
    HistogramCost(symbols, WordLengths(LengthsOf(e)));
    forall i | 0 <= i < |symbols|
      ensures HasCode(LengthsOf(e), symbols[i])
    {
      HistogramHas(symbols, |frequencies|, i);
    }
  }

  /** A seeded table makes a code of one symbol, which takes no bits. */
  lemma SeededSuits(e: PrefixEncoding, frequencies: seq<nat>)
    requires frequencies != [] && frequencies == Zeros(|frequencies|)[0 := 1] && Encodes(e, frequencies)
    ensures SuitsStream(e, frequencies, [])
  {
    EncodesLengths(e, frequencies);
    hide LengthsOf, Decodable, WritesSymbol, SymbolWord;
    var lengths := LengthsOf(e);
    OneSymbol(frequencies);
    Tokens.ActiveIsNonZero(frequencies, lengths);
    NoWord(lengths);
    hide Encodes;
    var ls := WordLengths(lengths);
    NoCost(ls);
    CostOne(Zeros(|frequencies|), ls, 0);
    assert ls[0] == 0;
    LengthOfNone(ls);
  }

  lemma NoWord(lengths: seq<nat>)
    requires NonZero(lengths) == 1 && lengths != []
    ensures SymbolWord(lengths, 0) == []
  {
    hide NonZero;
  }

  lemma OneSymbol(frequencies: seq<nat>)
    requires frequencies != [] && frequencies == Zeros(|frequencies|)[0 := 1]
    ensures Active(frequencies) == 1
  {
    assert frequencies[1..] == Zeros(|frequencies| - 1);
    NoneActiveInZeros(|frequencies| - 1);
  }

  lemma {:induction false} NoneActiveInZeros(n: nat)
    ensures Active(Zeros(n)) == 0
  {
    if n > 0 {
      NoneActiveInZeros(n - 1);
      assert Zeros(n)[1..] == Zeros(n - 1);
    }
  }

  /** The table a code is made from: a stream's histogram, with one count if there is nothing to count. */
  function Seeded(symbols: seq<nat>, size: nat): (h: seq<nat>)
    requires size > 0
    ensures |h| == size
  {
    if Histogram(symbols, size) == Zeros(size) then Zeros(size)[0 := 1] else Histogram(symbols, size)
  }

  lemma SeedingIs(was: seq<nat>, seeded: seq<nat>, symbols: seq<nat>)
    requires was != [] && was == Histogram(symbols, |was|) && Active(seeded) > 0
    requires seeded == was || (was == Zeros(|was|) && seeded == Zeros(|was|)[0 := 1])
    ensures seeded == Seeded(symbols, |was|)
  {
    hide Histogram;
    NoneActiveInZeros(|was|);
  }

  /** Makes the code for a stream from its table, seeding an empty one. */
  method MakeCode(frequencies: array<nat>, ghost symbols: seq<nat>) returns (e: PrefixEncoding)
    requires 0 < frequencies.Length <= MAX_ALPHABET && frequencies[..] == Histogram(symbols, frequencies.Length)
    requires AllBelow(symbols, frequencies.Length) && |symbols| < MAX_TOTAL
    modifies frequencies
    ensures SuitsStream(e, frequencies[..], symbols) && MadeFor(e, Seeded(symbols, frequencies.Length))
  {
    hide Histogram, Total, Active, Encodes, SuitsStream, Minimal, MadeFor, Seeded;
    ghost var was := frequencies[..];
    HistogramTotal(symbols, frequencies.Length);
    SeedEmptyHistogram(frequencies);
    var made := FromFrequencies(frequencies[..]);
    e := made.value;
    SeedingIs(was, frequencies[..], symbols);
    if frequencies[..] == was {
      ExactSuits(e, frequencies[..], symbols);
    } else {
      ZerosTotal(frequencies.Length);
      assert symbols == [];
      SeededSuits(e, frequencies[..]);
    }
  }

  /** The codes of a metablock. */
  datatype Encodings = Encodings(literals: PrefixEncoding, commands: PrefixEncoding, distances: PrefixEncoding,
                                 direct: nat, postfix: nat) {
    function Lengths(): Codes {
      Codes(LengthsOf(literals), LengthsOf(commands), LengthsOf(distances), direct, postfix)
    }
  }

  /** Codes for all three streams. */
  ghost predicate SuitsStreams(e: Encodings, t: Counters, st: Streams)
    reads t.literals, t.symbols, t.distances
  {
    && SuitsStream(e.literals, t.literals[..], st.literals) && SuitsStream(e.commands, t.symbols[..], st.symbols)
    && SuitsStream(e.distances, t.distances[..], st.distances)
  }

  /** The codes are those made for the three streams. */
  ghost predicate CodesMade(e: Encodings, st: Streams)
  {
    && MadeFor(e.literals, Seeded(st.literals, LITERAL_ALPHABET_SIZE))
    && MadeFor(e.commands, Seeded(st.symbols, COMMAND_ALPHABET_SIZE))
    && MadeFor(e.distances, Seeded(st.distances, AlphabetSize(e.direct, e.postfix)))
  }

  predicate StreamsBelow(t: Counters, st: Streams)
  {
    && AllBelow(st.literals, t.literals.Length) && AllBelow(st.symbols, t.symbols.Length)
    && AllBelow(st.distances, t.distances.Length)
    && |st.literals| < MAX_TOTAL && |st.symbols| < MAX_TOTAL && |st.distances| < MAX_TOTAL
  }

  method MakeCodes(t: Counters, ghost st: Streams, direct: nat, postfix: nat) returns (e: Encodings)
    requires Sized(t, direct, postfix) && Counts(t, st) && StreamsBelow(t, st) &&
             AlphabetSize(direct, postfix) <= MAX_ALPHABET
    modifies t.literals, t.symbols, t.distances
    ensures SuitsStreams(e, t, st) && e.direct == direct && e.postfix == postfix && CodesMade(e, st)
  {
    hide Histogram, SuitsStream, AllBelow, AlphabetSize, Seeded, MadeFor;
    assert t.distances.Length > 0 by {
      SomeDistances(direct, postfix);
    }
    var l := MakeCode(t.literals, st.literals);
    var s := MakeCode(t.symbols, st.symbols);
    var d := MakeCode(t.distances, st.distances);
    e := Encodings(l, s, d, direct, postfix);
  }

  lemma SomeDistances(direct: nat, postfix: nat)
    ensures AlphabetSize(direct, postfix) > 0
  {
  }

  /** Frequency times bits, over the whole table. */
  method DataBits(e: PrefixEncoding, frequencies: array<nat>) returns (n: nat)
    requires Encodes(e, frequencies[..]) && |LengthsOf(e)| == frequencies.Length
    ensures n == Cost(frequencies[..], WordLengths(LengthsOf(e)))
  {
    CodesListed(e, frequencies[..]);
    hide Encodes, LengthsOf, Decodable, SymbolWord, Cost, WordLengths, Lists;
    ghost var ls := WordLengths(LengthsOf(e));
    n := 0;
    assert frequencies[0..] == frequencies[..] && ls[0..] == ls;
    for s := 0 to frequencies.Length
      invariant n + Cost(frequencies[s..], ls[s..]) == Cost(frequencies[..], ls)
    {
      CostStep(frequencies[..], ls, s);
      assert frequencies[..][s..] == frequencies[s..] && frequencies[..][s + 1..] == frequencies[s + 1..];
      if frequencies[s] != 0 {
        CodeBits(e, frequencies[..], s);
        n := n + Times(frequencies[s], e.codes[s].value.bits);
      }
    }
    assert frequencies[frequencies.Length..] == [] && ls[frequencies.Length..] == [];
    NoCost([]);
    assert Zeros(0) == [];
  }

  lemma CostStep(frequencies: seq<nat>, ls: seq<nat>, s: nat)
    requires s < |frequencies| == |ls|
    ensures Cost(frequencies[s..], ls[s..]) == Times(frequencies[s], ls[s]) + Cost(frequencies[s + 1..], ls[s + 1..])
    ensures frequencies[s] == 0 ==> Times(frequencies[s], ls[s]) == 0
  {
    assert frequencies[s..][1..] == frequencies[s + 1..] && ls[s..][1..] == ls[s + 1..];
  }

  /** Every symbol that occurs is listed with its word. */
  ghost predicate Lists(e: PrefixEncoding, frequencies: seq<nat>)
  {
    && |LengthsOf(e)| == |e.codes| == |frequencies|
    && forall s :: 0 <= s < |frequencies| && frequencies[s] > 0 ==>
      e.codes[s].Some? && Word(e.codes[s].value) == SymbolWord(LengthsOf(e), s)
  }

  lemma CodesListed(e: PrefixEncoding, frequencies: seq<nat>)
    requires Encodes(e, frequencies)
    ensures Lists(e, frequencies)
  {
    hide LengthsOf, Decodable, SymbolWord;
    forall s | 0 <= s < |frequencies| && frequencies[s] > 0
      ensures e.codes[s].Some? && Word(e.codes[s].value) == SymbolWord(LengthsOf(e), s)
    {
      assert WritesSymbol(e.codes[s], LengthsOf(e), s, frequencies[s]);
    }
  }

  lemma CodeBits(e: PrefixEncoding, frequencies: seq<nat>, s: nat)
    requires Lists(e, frequencies) && s < |frequencies| && frequencies[s] > 0
    ensures e.codes[s].Some? && e.codes[s].value.bits == WordLengths(LengthsOf(e))[s]
  {
    hide LengthsOf, SymbolWord;
    assert |Word(e.codes[s].value)| == e.codes[s].value.bits;
  }

  /** The number of bits of a metablock, from its tables and extra bits. */
  method SingleBodyBits(e: Encodings, t: Counters, encoded: seq<Wire>, overhead: nat, ghost input: seq<Byte>,
                        ghost start: nat, ghost commands: seq<StreamCommand>)
    returns (bits: nat)
    requires Placed(input, start, commands) && AllEmittable(commands, e.direct, e.postfix)
    requires SuitsStreams(e, t, StreamsOf(input, start, commands, e.direct, e.postfix))
    requires |encoded| == |commands| && forall i :: 0 <= i < |commands| ==>
             IsWire(encoded[i], commands[i], e.direct, e.postfix)
    ensures Writable(e.Lengths(), input, start, commands) &&
            bits == overhead + |BodyBits(e.Lengths(), input, start, commands)|
  {
    ghost var st := StreamsOf(input, start, commands, e.direct, e.postfix);
    AllWritable(e, t, input, start, commands);
    BodyBitsLength(e.Lengths(), input, start, commands);
    hide Encodes, LengthsOf, Decodable, WordLengths, Cost, LengthSum, AllHaveCodes, BodyBits, Writable, Placed,
         AllEmittable, SymbolsOf, DistancesOf,
         LiteralsOf, ExtrasOf, IsWire;
    var l := DataBits(e.literals, t.literals);
    var s := DataBits(e.commands, t.symbols);
    var d := DataBits(e.distances, t.distances);
    var extras := CountExtras(encoded, commands, e.direct, e.postfix);
    bits := overhead + l + s + d + extras;
  }

  method CountExtras(encoded: seq<Wire>, ghost commands: seq<StreamCommand>, ghost direct: nat, ghost postfix: nat)
    returns (n: nat)
    requires AllEmittable(commands, direct, postfix)
    requires |encoded| == |commands| && forall i :: 0 <= i < |commands| ==>
             IsWire(encoded[i], commands[i], direct, postfix)
    ensures n == ExtrasOf(commands, direct, postfix)
  {
    hide Encoded, Encodable, ExtraBitCount;
    n := 0;
    assert commands[0..] == commands;
    for i := 0 to |encoded|
      invariant AllEmittable(commands[i..], direct, postfix) &&
                n + ExtrasOf(commands[i..], direct, postfix) == ExtrasOf(commands, direct, postfix)
    {
      assert commands[i..][0] == commands[i] && commands[i..][1..] == commands[i + 1..];
      FirstEmittable(commands[i..], direct, postfix);
      assert IsWire(encoded[i], commands[i], direct, postfix);
      n := n + ExtraBitCount(encoded[i]);
    }
    assert commands[|commands|..] == [];
  }

  /** Codes for the streams can write the commands. */
  lemma AllWritable(e: Encodings, t: Counters, input: seq<Byte>, start: nat, commands: seq<StreamCommand>)
    requires Placed(input, start, commands) && AllEmittable(commands, e.direct, e.postfix)
    requires SuitsStreams(e, t, StreamsOf(input, start, commands, e.direct, e.postfix))
    ensures Writable(e.Lengths(), input, start, commands)
  {
    hide Encodes, LengthsOf, Decodable, WordLengths, Cost, LengthSum, AllHaveCodes, Placed, AllEmittable, SymbolsOf,
         DistancesOf, LiteralsOf, Writable;
    StreamsWritable(e.Lengths(), input, start, commands);
  }

  /** Writes a symbol's codeword. */
  method WriteSymbol(e: PrefixEncoding, ghost frequencies: seq<nat>, symbol: nat, writer: seq<bool>)
    returns (more: seq<bool>)
    requires Encodes(e, frequencies) && HasCode(LengthsOf(e), symbol)
    ensures more == writer + SymbolWord(LengthsOf(e), symbol)
  {
    CodeAvailable(e, frequencies, symbol);
    hide SymbolWord, Encodes;
    more := writer + Word(e.codes[symbol].value);
  }

  lemma CodeAvailable(e: PrefixEncoding, frequencies: seq<nat>, symbol: nat)
    requires Encodes(e, frequencies) && HasCode(LengthsOf(e), symbol)
    ensures symbol < |e.codes| && e.codes[symbol].Some? && Word(e.codes[symbol].value) ==
            SymbolWord(LengthsOf(e), symbol)
  {
    hide LengthsOf, Decodable, SymbolWord, Word;
    assert WritesSymbol(e.codes[symbol], LengthsOf(e), symbol, frequencies[symbol]);
  }

  method WriteLiterals(e: PrefixEncoding, ghost frequencies: seq<nat>, bytes: seq<Byte>, writer: seq<bool>)
    returns (more: seq<bool>)
    requires Encodes(e, frequencies) && HaveCodes(LengthsOf(e), bytes)
    ensures more == writer + LiteralBits(LengthsOf(e), bytes)
  {
    hide Encodes, SymbolWord, LengthsOf, LiteralBits;
    more := writer;
    assert bytes[0..] == bytes;
    for i := 0 to |bytes|
      invariant HaveCodes(LengthsOf(e), bytes[i..])
      invariant writer + LiteralBits(LengthsOf(e), bytes) == more + LiteralBits(LengthsOf(e), bytes[i..])
    {
      FirstLiteral(LengthsOf(e), bytes[i..], more);
      assert bytes[i..][1..] == bytes[i + 1..];
      more := WriteSymbol(e, frequencies, bytes[i], more);
    }
    NoLiterals(LengthsOf(e), bytes[|bytes|..], more);
  }

  lemma FirstLiteral(lengths: seq<nat>, bytes: seq<Byte>, writer: seq<bool>)
    requires HaveCodes(lengths, bytes) && bytes != []
    ensures HasCode(lengths, bytes[0]) && HaveCodes(lengths, bytes[1..])
    ensures writer + LiteralBits(lengths, bytes) == writer + SymbolWord(lengths, bytes[0]) +
            LiteralBits(lengths, bytes[1..])
  {
    hide SymbolWord;
  }

  lemma NoLiterals(lengths: seq<nat>, bytes: seq<Byte>, writer: seq<bool>)
    requires bytes == []
    ensures HaveCodes(lengths, bytes) && writer + LiteralBits(lengths, bytes) == writer
  {
  }

  ghost predicate EncodesAll(e: Encodings, f: Streams)
  {
    Encodes(e.literals, f.literals) && Encodes(e.commands, f.symbols) && Encodes(e.distances, f.distances)
  }

  /** Writes one command. */
  method WriteCommand(e: Encodings, ghost f: Streams, input: seq<Byte>, at: nat, c: StreamCommand, w: Wire,
                      writer: seq<bool>) returns (more: seq<bool>)
    requires EncodesAll(e, f) && CommandHasCodes(e.Lengths(), input, at, c) && w == Encoded(c, e.direct, e.postfix)
    ensures more == writer + CommandBits(e.Lengths(), input, at, c)
  {
    hide Encodes, SymbolWord, LengthsOf, LiteralBits, Encoded, HaveCodes;
    ghost var codes := e.Lengths();
    var bytes := input[at..at + c.insertLen];
    more := WriteSymbol(e.commands, f.symbols, w.symbol, writer);
    more := more + Lsb(w.insert.extra, w.insert.extraBits);
    more := more + Lsb(w.copy.extra, w.copy.extraBits);
    more := WriteLiterals(e.literals, f.literals, bytes, more);
    if w.distance.Some? {
      more := WriteSymbol(e.distances, f.distances, w.distance.value.symbol, more);
      more := more + Lsb(w.distance.value.extra, w.distance.value.extraBits);
    }
    hide Lsb, ExtraBits, DistanceBits;
    AllParts(writer, SymbolWord(codes.commands, w.symbol), ExtraBits(w.insert), ExtraBits(w.copy),
             LiteralBits(codes.literals, bytes),
             DistanceBits(codes, w));
  }

  lemma AllParts(writer: seq<bool>, a: seq<bool>, b: seq<bool>, c: seq<bool>, d: seq<bool>, e: seq<bool>)
    ensures writer + a + b + c + d + e == writer + (a + b + c + d + e)
  {
  }

  /** Writes all commands. */
  method WriteCommands(e: Encodings, ghost f: Streams, input: seq<Byte>, start: nat, commands: seq<StreamCommand>,
                       encoded: seq<Wire>)
    returns (bits: seq<bool>)
    requires EncodesAll(e, f) && Writable(e.Lengths(), input, start, commands)
    requires |encoded| == |commands| && forall i :: 0 <= i < |commands| ==>
             IsWire(encoded[i], commands[i], e.direct, e.postfix)
    ensures bits == BodyBits(e.Lengths(), input, start, commands)
  {
    hide EncodesAll, Encodable, Encoded, Writable, BodyBits, CommandHasCodes, CommandBits, Encodings.Lengths;
    bits := [];
    var cursor: nat := start;
    assert commands[0..] == commands && [] + BodyBits(e.Lengths(), input, start, commands) ==
           BodyBits(e.Lengths(), input, start, commands);
    for i := 0 to |commands|
      invariant Writable(e.Lengths(), input, cursor, commands[i..])
      invariant BodyBits(e.Lengths(), input, start, commands) == bits +
                BodyBits(e.Lengths(), input, cursor, commands[i..])
    {
      ghost var later := commands[i..];
      assert later[0] == commands[i] && later[1..] == commands[i + 1..];
      NextWritable(e.Lengths(), input, cursor, later);
      NextCommand(e.Lengths(), input, cursor, later, commands[i], cursor + commands[i].insertLen + commands[i].copyLen,
                  bits);
      assert IsWire(encoded[i], commands[i], e.direct, e.postfix);
      bits := WriteCommand(e, f, input, cursor, commands[i], encoded[i], bits);
      cursor := cursor + commands[i].insertLen + commands[i].copyLen;
    }
    NoMoreCommands(e.Lengths(), input, cursor, commands[|commands|..], bits);
  }

  lemma NextWritable(codes: Codes, input: seq<Byte>, at: nat, commands: seq<StreamCommand>)
    requires Writable(codes, input, at, commands) && commands != []
    ensures CommandHasCodes(codes, input, at, commands[0])
    ensures Writable(codes, input, at + commands[0].insertLen + commands[0].copyLen, commands[1..])
  {
    hide CommandHasCodes;
  }

  lemma NextCommand(codes: Codes, input: seq<Byte>, at: nat, commands: seq<StreamCommand>, c: StreamCommand, next: nat,
                    writer: seq<bool>)
    requires Writable(codes, input, at, commands) && commands != [] && c == commands[0] &&
             next == at + c.insertLen + c.copyLen
    requires CommandHasCodes(codes, input, at, c) && Writable(codes, input, next, commands[1..])
    ensures writer + BodyBits(codes, input, at, commands) ==
            writer + CommandBits(codes, input, at, c) + BodyBits(codes, input, next, commands[1..])
  {
    hide CommandHasCodes, CommandBits;
  }

  lemma NoMoreCommands(codes: Codes, input: seq<Byte>, at: nat, commands: seq<StreamCommand>, writer: seq<bool>)
    requires commands == []
    ensures Writable(codes, input, at, commands) && writer + BodyBits(codes, input, at, commands) == writer
  {
  }

  /** Fresh tables. */
  method FreshTables(direct: nat, postfix: nat) returns (t: Counters)
    ensures fresh(t.literals) && fresh(t.symbols) && fresh(t.distances) && Sized(t, direct, postfix) &&
            Counts(t, Streams([], [], []))
  {
    var literals := new nat[LITERAL_ALPHABET_SIZE](_ => 0);
    var symbols := new nat[COMMAND_ALPHABET_SIZE](_ => 0);
    var distances := new nat[AlphabetSize(direct, postfix)](_ => 0);
    assert literals[..] == Zeros(LITERAL_ALPHABET_SIZE) && symbols[..] == Zeros(COMMAND_ALPHABET_SIZE);
    assert distances[..] == Zeros(AlphabetSize(direct, postfix));
    t := Counters(literals, symbols, distances);
  }

  /** A metablock: header and trees for its codes and the bits of its commands, or the bytes themselves. */
  datatype Emitted = Compressed(codes: Codes, start: seq<bool>, bits: seq<bool>) | Stored(bytes: seq<Byte>)

  /** A metablock and where in the input it ends. */
  datatype Chunk = Chunk(end: nat, form: Emitted)

  function ChunkStart(chunks: seq<Chunk>, i: nat): nat
    requires i <= |chunks|
  {
    if i == 0 then 0 else chunks[i - 1].end
  }

  /** Whatever comes after, and whichever codes the decoder has for these lengths: with the same history
      and ring it executes the bits to the block's bytes, and remembers the distances the encoder does. */
  ghost predicate DecodesTo(words: Words, window: nat, before: seq<Byte>, codes: Codes, bits: seq<bool>,
                            input: seq<Byte>, start: nat, end: nat,
                            ring: Ring, after: Ring)
  {
    start <= end <= |input| &&
    forall h: Header, s: State, rest: seq<bool>, room: nat ::
      Sane(h, s) && ReadsCodes(h, codes) && h.words == words && h.windowSize == window &&
        InStep(s, before, input, start, end, ring) &&
      end - start <= room ==>
        Run(h, s, bits + rest, room) == Stop(EndState(s, before, input, end, after), rest, Done)
  }

  /** The bits of writable commands decode to the block. */
  lemma BodyDecodes(words: Words, window: nat, before: seq<Byte>, codes: Codes, input: seq<Byte>, start: nat, end: nat,
                    commands: seq<StreamCommand>,
                    ring: Ring)
    requires start <= end <= |input| && Executes(words, window, before, input, start, commands, end, ring) &&
             Writable(codes, input, start, commands)
    ensures DecodesTo(words, window, before, codes, BodyBits(codes, input, start, commands), input, start, end, ring,
                      RingAtEnd(ring, |before| + start, commands, window))
  {
    hide Executes, Writable, BodyBits, RingAtEnd, Sane, ReadsCodes, Run, EndState;
    forall h: Header, s: State, rest: seq<bool>, room: nat |
      Sane(h, s) && ReadsCodes(h, codes) && h.words == words && h.windowSize == window &&
        InStep(s, before, input, start, end, ring) &&
      end - start <= room
      ensures Run(h, s, BodyBits(codes, input, start, commands) + rest, room) ==
              Stop(EndState(s, before, input, end, RingAtEnd(ring, |before| + start, commands, window)), rest, Done)
    {
      ReadsBody(h, codes, s, before, input, start, end, commands, rest, room);
    }
  }

  /** A header has room for these: the number of direct codes without its low bits, in four bits. */
  predicate HasFields(direct: nat, postfix: nat)
  {
    postfix <= 3 && Remainder(direct, Pow2(postfix)) == 0 && Quotient(direct, Pow2(postfix)) <= 15
  }

  /** Codes the decoder can make, for the alphabets it expects. */
  predicate DecodableCodes(codes: Codes)
  {
    && Decodable(codes.literals) && Decodable(codes.commands) && Decodable(codes.distances)
    && HasFields(codes.direct, codes.postfix)
    && |codes.literals| == LITERAL_ALPHABET_SIZE && |codes.commands| == COMMAND_ALPHABET_SIZE
    && |codes.distances| == AlphabetSize(codes.direct, codes.postfix)
  }

  lemma CodesAreDecodable(e: Encodings, t: Counters, st: Streams)
    requires Sized(t, e.direct, e.postfix) && SuitsStreams(e, t, st) && HasFields(e.direct, e.postfix)
    ensures DecodableCodes(e.Lengths())
  {
    hide Decodable, LengthsOf, WritesSymbol, WordLengths, Cost, LengthSum, AllHaveCodes, AlphabetSize, HasFields;
  }

  /** A block of commands that can be executed can be placed, and its streams are short. */
  lemma ExecutesPlaced(words: Words, window: nat, before: seq<Byte>, input: seq<Byte>, at: nat,
                       commands: seq<StreamCommand>, end: nat, ring: Ring,
                       direct: nat, postfix: nat)
    requires Executes(words, window, before, input, at, commands, end, ring) && end <= |input|
    requires end - at <= MAX_META_BLOCK_SIZE && DistancesCoded(commands, direct, postfix)
    ensures Placed(input, at, commands) && AllEmittable(commands, direct, postfix)
    ensures |LiteralsOf(input, at, commands)| <= end - at && |SymbolsOf(commands, direct, postfix)| <= end - at
    ensures |DistancesOf(commands, direct, postfix)| <= end - at
    ensures AllBelow(LiteralsOf(input, at, commands), LITERAL_ALPHABET_SIZE) &&
            AllBelow(SymbolsOf(commands, direct, postfix), COMMAND_ALPHABET_SIZE)
    ensures AllBelow(DistancesOf(commands, direct, postfix), AlphabetSize(direct, postfix))
  {
    hide *;
    ExecutesEmittable(words, window, before, input, at, commands, end, ring, direct, postfix);
    StreamsShort(input, at, commands, end, direct, postfix);
    StreamsInAlphabets(input, at, commands, direct, postfix);
  }

  /** Every command has its codes and the bytes it covers. */
  lemma {:induction false} ExecutesEmittable(words: Words, window: nat, before: seq<Byte>, input: seq<Byte>, at: nat,
                                             commands: seq<StreamCommand>,
                                             end: nat, ring: Ring, direct: nat, postfix: nat)
    requires Executes(words, window, before, input, at, commands, end, ring) && end <= |input|
    requires end - at <= MAX_META_BLOCK_SIZE && DistancesCoded(commands, direct, postfix)
    ensures Placed(input, at, commands) && AllEmittable(commands, direct, postfix) && Covers(at, commands, end)
    decreases |commands|
  {
    hide Executes, Reproduces, Named, RingAfter, ReachAt, Emittable, DistancesCoded, AllEmittable;
    if commands == [] {
      NoneEmittable(direct, postfix);
      ExecutesNothing(words, window, before, input, at, end, ring);
    } else {
      var c := commands[0];
      var p := at + c.insertLen;
      OneEmittable(words, window, before, input, at, commands, end, ring, direct, postfix);
      if c.copyLen > 0 {
        ExecutesNext(words, window, before, input, at, commands, end, ring);
        ExecutesEmittable(words, window, before, input, p + c.copyLen, commands[1..], end,
                          RingAfter(ring, c, ReachAt(|before| + p, window)), direct, postfix);
      } else {
        NoneEmittable(direct, postfix);
      }
      AllEmittableCons(commands, direct, postfix);
    }
  }

  lemma ExecutesNothing(words: Words, window: nat, before: seq<Byte>, input: seq<Byte>, at: nat, end: nat, ring: Ring)
    requires Executes(words, window, before, input, at, [], end, ring)
    ensures at == end
  {
  }

  lemma ExecutesNext(words: Words, window: nat, before: seq<Byte>, input: seq<Byte>, at: nat,
                     commands: seq<StreamCommand>, end: nat, ring: Ring)
    requires Executes(words, window, before, input, at, commands, end, ring) && commands != [] &&
             commands[0].copyLen > 0
    ensures var c := commands[0];
            var p := at + c.insertLen;
            && Executes(words, window, before, input, p + c.copyLen, commands[1..], end,
                        RingAfter(ring, c, ReachAt(|before| + p, window)))
            && p + c.copyLen <= end
  {
    hide Reproduces, Named, RingAfter, ReachAt;
    var c := commands[0];
    var p := at + c.insertLen;
    ExecutesWithin(words, window, before, input, p + c.copyLen, commands[1..], end,
                   RingAfter(ring, c, ReachAt(|before| + p, window)));
  }

  /** Each command covers something, and together they end where the block does. */
  predicate Covers(at: nat, commands: seq<StreamCommand>, end: nat)
    decreases |commands|
  {
    if commands == [] then at <= end
    else
      var next := at + commands[0].insertLen + commands[0].copyLen;
      at < next && Covers(next, commands[1..], end)
  }

  lemma {:induction false} StreamsShort(input: seq<Byte>, at: nat, commands: seq<StreamCommand>, end: nat, direct: nat,
                                        postfix: nat)
    requires Placed(input, at, commands) && AllEmittable(commands, direct, postfix) && Covers(at, commands, end)
    ensures at <= end && |LiteralsOf(input, at, commands)| <= end - at &&
            |SymbolsOf(commands, direct, postfix)| <= end - at
    ensures |DistancesOf(commands, direct, postfix)| <= end - at
    decreases |commands|
  {
    hide AllEmittable, Emittable, Encoded, AsSymbols;
    if commands != [] {
      AllEmittableTail(commands, direct, postfix);
      StreamsShort(input, at + commands[0].insertLen + commands[0].copyLen, commands[1..], end, direct, postfix);
    }
  }

  lemma StreamsInAlphabets(input: seq<Byte>, at: nat, commands: seq<StreamCommand>, direct: nat, postfix: nat)
    requires Placed(input, at, commands) && AllEmittable(commands, direct, postfix)
    ensures AllBelow(LiteralsOf(input, at, commands), LITERAL_ALPHABET_SIZE) &&
            AllBelow(SymbolsOf(commands, direct, postfix), COMMAND_ALPHABET_SIZE)
    ensures AllBelow(DistancesOf(commands, direct, postfix), AlphabetSize(direct, postfix))
  {
    hide *;
    LiteralsInAlphabet(input, at, commands);
    SymbolsInAlphabet(commands, direct, postfix);
    DistancesInAlphabet(commands, direct, postfix);
  }

  lemma {:induction false} LiteralsInAlphabet(input: seq<Byte>, at: nat, commands: seq<StreamCommand>)
    requires Placed(input, at, commands)
    ensures AllBelow(LiteralsOf(input, at, commands), LITERAL_ALPHABET_SIZE)
    decreases |commands|
  {
    hide AllBelow;
    if commands == [] {
      NoneBelow(LITERAL_ALPHABET_SIZE);
    } else {
      var c := commands[0];
      LiteralsInAlphabet(input, at + c.insertLen + c.copyLen, commands[1..]);
      BytesBelow(input[at..at + c.insertLen]);
      AllBelowJoin(AsSymbols(input[at..at + c.insertLen]), LiteralsOf(input, at + c.insertLen + c.copyLen,
                                                                      commands[1..]), LITERAL_ALPHABET_SIZE);
    }
  }

  lemma {:induction false} SymbolsInAlphabet(commands: seq<StreamCommand>, direct: nat, postfix: nat)
    requires AllEmittable(commands, direct, postfix)
    ensures AllBelow(SymbolsOf(commands, direct, postfix), COMMAND_ALPHABET_SIZE)
    decreases |commands|
  {
    if commands == [] {
      NoneBelow(COMMAND_ALPHABET_SIZE);
    } else {
      AllEmittableTail(commands, direct, postfix);
      var w := Encoded(commands[0], direct, postfix);
      OneBelow(w.symbol, COMMAND_ALPHABET_SIZE);
      hide AllEmittable, Encoded, AllBelow, Encodable;
      SymbolsInAlphabet(commands[1..], direct, postfix);
      AllBelowJoin([w.symbol], SymbolsOf(commands[1..], direct, postfix), COMMAND_ALPHABET_SIZE);
    }
  }

  lemma {:induction false} DistancesInAlphabet(commands: seq<StreamCommand>, direct: nat, postfix: nat)
    requires AllEmittable(commands, direct, postfix)
    ensures AllBelow(DistancesOf(commands, direct, postfix), AlphabetSize(direct, postfix))
    decreases |commands|
  {
    if commands == [] {
      NoneBelow(AlphabetSize(direct, postfix));
    } else {
      AllEmittableTail(commands, direct, postfix);
      var w := Encoded(commands[0], direct, postfix);
      DistanceBelow(w, AlphabetSize(direct, postfix));
      hide AllEmittable, Encoded, AllBelow, Encodable, AlphabetSize;
      DistancesInAlphabet(commands[1..], direct, postfix);
      AllBelowJoin(DistanceOf(w), DistancesOf(commands[1..], direct, postfix), AlphabetSize(direct, postfix));
    }
  }

  lemma AllBelowJoin(a: seq<nat>, b: seq<nat>, size: nat)
    requires AllBelow(a, size) && AllBelow(b, size)
    ensures AllBelow(a + b, size)
  {
  }

  lemma NoneBelow(size: nat)
    ensures AllBelow([], size)
  {
  }

  lemma OneBelow(symbol: nat, size: nat)
    requires symbol < size
    ensures AllBelow([symbol], size)
  {
  }

  lemma BytesBelow(bytes: seq<Byte>)
    ensures AllBelow(AsSymbols(bytes), LITERAL_ALPHABET_SIZE)
  {
  }

  lemma DistanceBelow(w: Wire, size: nat)
    requires w.distance.Some? ==> w.distance.value.symbol < size
    ensures AllBelow(DistanceOf(w), size)
  {
  }

  lemma AllEmittableTail(commands: seq<StreamCommand>, direct: nat, postfix: nat)
    requires commands != [] && AllEmittable(commands, direct, postfix)
    ensures Emittable(commands[0], direct, postfix) && AllEmittable(commands[1..], direct, postfix)
  {
    hide Emittable;
  }

  lemma NoneEmittable(direct: nat, postfix: nat)
    ensures AllEmittable([], direct, postfix)
  {
  }

  lemma AllEmittableCons(commands: seq<StreamCommand>, direct: nat, postfix: nat)
    requires commands != [] && Emittable(commands[0], direct, postfix) && AllEmittable(commands[1..], direct, postfix)
    ensures AllEmittable(commands, direct, postfix)
  {
    hide Emittable;
    forall i | 0 <= i < |commands|
      ensures Emittable(commands[i], direct, postfix)
    {
      if i > 0 {
        assert commands[i] == commands[1..][i - 1];
      }
    }
  }

  /** Distances and copy codes that have codes of their own. */
  predicate DistancesCoded(commands: seq<StreamCommand>, direct: nat, postfix: nat)
  {
    forall i :: 0 <= i < |commands| ==> commands[i].copyLen > 0 ==>
      2 <= commands[i].copyCode <= MAX_META_BLOCK_SIZE && commands[i].distance < TooFar(direct, postfix)
  }

  lemma OneEmittable(words: Words, window: nat, before: seq<Byte>, input: seq<Byte>, at: nat,
                     commands: seq<StreamCommand>, end: nat, ring: Ring,
                     direct: nat, postfix: nat)
    requires Executes(words, window, before, input, at, commands, end, ring) && end <= |input| && commands != []
    requires end - at <= MAX_META_BLOCK_SIZE && DistancesCoded(commands, direct, postfix)
    ensures Emittable(commands[0], direct, postfix) && 0 < commands[0].insertLen + commands[0].copyLen <= end - at
    ensures DistancesCoded(commands[1..], direct, postfix) && (commands[0].copyLen == 0 ==> commands[1..] == [])
  {
    hide TooFar, Transform, TrueCopy, Named, Lengths.Limit;
    ExecutesWithin(words, window, before, input, at, commands, end, ring);
    var c := commands[0];
    var p := at + c.insertLen;
    if c.copyLen > 0 {
      ExecutesWithin(words, window, before, input, p + c.copyLen, commands[1..], end,
                     RingAfter(ring, c, ReachAt(|before| + p, window)));
    }
    BlockLengthsHaveCodes();
    hide Lengths.Base;
    assert Encodable(c, direct, postfix);
    SymbolsInAlphabets(c, ring, direct, postfix);
  }

  /** The symbols a command needs are in the alphabets. */
  lemma SymbolsInAlphabets(c: StreamCommand, ring: Ring, direct: nat, postfix: nat)
    requires Encodable(c, direct, postfix) && (c.copyLen > 0 ==> Named(ring, c.distance, c.distanceCode))
    ensures Emittable(c, direct, postfix)
  {
    CodesAnnounced(c, direct, postfix);
    if c.copyLen > 0 && Encoded(c, direct, postfix).distance.Some? {
      DistanceInAlphabet(c, ring, direct, postfix);
    }
  }

  lemma DistanceInAlphabet(c: StreamCommand, ring: Ring, direct: nat, postfix: nat)
    requires Encodable(c, direct, postfix) && c.copyLen > 0 && Named(ring, c.distance, c.distanceCode)
    requires Encoded(c, direct, postfix).distance.Some?
    ensures Encoded(c, direct, postfix).distance.value.symbol < AlphabetSize(direct, postfix)
  {
    hide CodeOf, Combine, ForCode, AlphabetSize, FromExtra, ResolveShort, TooFar, Pow2, Lengths.Limit, ExtraBitsRead,
         Named;
    NamedRoundTrip(ring, c.distance, c.distanceCode, direct, postfix);
  }

  /** Every length up to a metablock's has codes. */
  lemma BlockLengthsHaveCodes()
    ensures MAX_META_BLOCK_SIZE < Insert.Limit() && MAX_META_BLOCK_SIZE < Copy.Limit() && Copy.Base(0) == 2
  {
    Pow2Of24();
    hide Pow2;
    assert Copy.Limit() == 2118 + Pow2(24);
    assert Insert.Limit() == 22594 + Pow2(24);
  }
}
