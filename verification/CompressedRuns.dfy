/** A run of one byte, and what the encoder makes of it: codes of one symbol each, which take no bits at all. So
    compressed metablocks do occur, for runs of every length from sixteen bytes on. */
module CompressedRuns {
  import opened Arithmetic
  import opened Bytes
  import opened BitStream
  import opened HuffmanLengths
  import opened CanonicalTables
  import opened Distances
  import opened Commands
  import opened MetablockHeaders
  import opened SimplePrefixCode
  import opened PrefixEncodings
  import opened CommandStream
  import opened CommandEmission
  import opened MetablockStart
  import opened MatchFinder
  import opened GreedyParse
  import opened IncrementalRoundTrip
  import opened SingleTrees
  import G = GreedyStream
  import Tokens = ComplexPrefixEncoder
  import opened Outcomes

  predicate AllAre(symbols: seq<nat>, x: nat)
  {
    forall i :: 0 <= i < |symbols| ==> symbols[i] == x
  }

  lemma {:induction false} LoneHistogram(symbols: seq<nat>, x: nat, size: nat)
    requires x < size && AllAre(symbols, x)
    ensures Histogram(symbols, size) == Zeros(size)[x := |symbols|]
  {
    if symbols != [] {
      LoneHistogram(symbols[..|symbols| - 1], x, size);
    } else {
      assert Zeros(size)[x := 0] == Zeros(size);
    }
  }

  lemma {:induction false} LoneUsed(x: nat, k: nat, size: nat, n: nat)
    requires x < size && k > 0 && n <= size
    ensures Used(Zeros(size)[x := k], n) == if x < n then [x] else []
  {
    if n > 0 {
      LoneUsed(x, k, size, n - 1);
    }
  }

  /** The code for a stream of one symbol, which is the first one if the stream is empty. */
  function LoneCode(x: nat, size: nat): PrefixEncoding
    requires x < size
  {
    PrefixEncoding([x], seq(size, _ => None)[x := Some(SimpleSymbolCode(0, 1))], [])
  }

  lemma LoneSeeded(symbols: seq<nat>, x: nat, size: nat) returns (k: nat)
    requires x < size && AllAre(symbols, x) && (symbols == [] ==> x == 0)
    ensures k > 0 && Seeded(symbols, size) == Zeros(size)[x := k]
  {
    LoneHistogram(symbols, x, size);
    hide Histogram;
    k := if symbols == [] then 1 else |symbols|;
    if symbols != [] {
      assert Zeros(size)[x := k][x] != Zeros(size)[x];
    } else {
      assert Zeros(size)[x := 0] == Zeros(size);
    }
  }

  /** It is the code the encoder makes; it has the symbol, and no word of it has a bit. */
  lemma LoneIsMade(symbols: seq<nat>, x: nat, size: nat)
    requires x < size && AllAre(symbols, x) && (symbols == [] ==> x == 0)
    ensures var e := LoneCode(x, size);
            && MadeFor(e, Seeded(symbols, size)) && Decodable(LengthsOf(e)) && |LengthsOf(e)| == size
            && AllHaveCodes(LengthsOf(e), symbols) && LengthSum(WordLengths(LengthsOf(e)), symbols) == 0
  {
    hide *;
    var k := LoneSeeded(symbols, x, size);
    var e, f := LoneCode(x, size), Seeded(symbols, size);
    LoneEncodes(x, k, size);
    EncodesLengths(e, f);
    LoneWords(e, f);
    NoLengths(WordLengths(LengthsOf(e)), symbols);
    HasLone(LengthsOf(e), symbols, f, x);
  }

  lemma HasLone(lengths: seq<nat>, symbols: seq<nat>, frequencies: seq<nat>, x: nat)
    requires AllAre(symbols, x) && x < |frequencies| && frequencies[x] > 0
    requires forall s :: 0 <= s < |frequencies| && frequencies[s] > 0 ==> HasCode(lengths, s)
    ensures AllHaveCodes(lengths, symbols)
  {
    hide HasCode;
  }

  lemma LoneEncodes(x: nat, k: nat, size: nat)
    requires x < size && k > 0
    ensures var f := Zeros(size)[x := k];
            |f| == size && Encodes(LoneCode(x, size), f) && Active(f) == 1 && MadeFor(LoneCode(x, size), f)
  {
    hide Encodes, LengthsOf, SimpleSymbolCode, Active, Zeros, Used, LoneCode, MadeFor;
    LoneCounts(x, k, size);
    var codes := LoneWord(x, size);
    SimpleEncodes(Zeros(size)[x := k], [x], codes);
    ListedIsMade(LoneCode(x, size), Zeros(size)[x := k]);
  }

  lemma LoneCounts(x: nat, k: nat, size: nat)
    requires x < size && k > 0
    ensures |Zeros(size)| == size
    ensures var f := Zeros(size)[x := k]; |f| == size && Active(f) == 1 && Used(f, size) == [x]
  {
    var f := Zeros(size)[x := k];
    LoneUsed(x, k, size, size);
    UsedCount(f, size);
    assert f[..size] == f;
  }

  lemma LoneWord(x: nat, size: nat) returns (codes: seq<Option<SymbolCode>>)
    requires x < size
    ensures LoneCode(x, size) == PrefixEncoding([x], codes, []) && LoneCode(x, size).simple == [x] && |codes| == size
    ensures forall i :: 0 <= i < |[x]| ==> codes[[x][i]] == Some(SimpleSymbolCode(i, |[x]|))
    ensures forall s :: 0 <= s < size && s !in [x] ==> codes[s] == None
  {
    hide SimpleSymbolCode;
    codes := LoneCode(x, size).codes;
  }

  lemma ListedIsMade(e: PrefixEncoding, frequencies: seq<nat>)
    requires Encodes(e, frequencies) && Active(frequencies) == 1 && e.simple == Used(frequencies, |frequencies|)
    ensures MadeFor(e, frequencies)
  {
    hide Encodes, Active, Used;
  }

  lemma LoneWords(e: PrefixEncoding, frequencies: seq<nat>)
    requires Encodes(e, frequencies) && Active(frequencies) == 1
    ensures forall s :: 0 <= s < |LengthsOf(e)| ==> WordLengths(LengthsOf(e))[s] == 0
  {
    hide LengthsOf, Decodable, WritesSymbol, Active;
    Tokens.ActiveIsNonZero(frequencies, LengthsOf(e));
  }

  lemma {:induction false} NoLengths(lengths: seq<nat>, symbols: seq<nat>)
    requires forall s :: 0 <= s < |lengths| ==> lengths[s] == 0
    ensures LengthSum(lengths, symbols) == 0
  {
    if symbols != [] {
      NoLengths(lengths, symbols[..|symbols| - 1]);
    }
  }

  /** Four literals, and the rest a copy at the distance every stream starts with. */
  function RunCommand(n: nat): StreamCommand
    requires n > 4
  {
    StreamCommand(4, n - 4, n - 4, 4, 0)
  }

  function Run(b: Byte, n: nat): (bytes: seq<Byte>)
    ensures |bytes| == n
  {
    seq(n, _ => b)
  }

  function RunJob(b: Byte, n: nat, isLast: bool): G.Job
    requires n > 4
  {
    G.JobOf(Run(b, n), 0, [RunCommand(n)], n, isLast)
  }

  /** The commands make up the run, at the start of a stream. */
  lemma RunMakesUp(env: Env, b: Byte, n: nat)
    requires 16 <= n <= MAX_META_BLOCK_SIZE && env.window >= 4
    ensures MakesUp(env, Run(b, n), 0, [RunCommand(n)], n, InitialRing(), InitialRing())
  {
    var run, c, commands := Run(b, n), RunCommand(n), [RunCommand(n)];
    assert [] + run == run && commands[1..] == [];
    assert TrueCopy(run, 4, 4, n - 4);
    assert Reproduces(env.words, env.window, [], run, 4, c);
    assert Named(InitialRing(), 4, 0);
    hide Reproduces, Named;
    assert RingAfter(InitialRing(), c, ReachAt(4, env.window)) == InitialRing();
    assert Executes(env.words, env.window, [], run, n, [], n, InitialRing());
    assert Executes(env.words, env.window, [], run, 0, commands, n, InitialRing());
    assert RingAtEnd(InitialRing(), n, [], env.window) == InitialRing();
    assert RingAtEnd(InitialRing(), 0, commands, env.window) == InitialRing();
    assert WithTail(commands, |run| - n) == commands;
  }

  lemma RunEncodable(n: nat, direct: nat, postfix: nat)
    requires 16 <= n <= MAX_META_BLOCK_SIZE
    ensures Encodable(RunCommand(n), direct, postfix)
  {
    BlockLengthsHaveCodes();
    FourIsNear(direct, postfix);
    hide TooFar, Lengths.Limit, Lengths.Base;
  }

  lemma FourIsNear(direct: nat, postfix: nat)
    ensures 4 < TooFar(direct, postfix)
  {
    Pow2Of24();
    hide Pow2;
    MulMonotone(Pow2(24) - 1, 1, Pow2(postfix + 2));
  }

  /** Its symbols are in the alphabets, the only distance symbol is the first, and the extra bits are few. */
  lemma RunWire(n: nat, direct: nat, postfix: nat)
    requires 16 <= n <= MAX_META_BLOCK_SIZE && Encodable(RunCommand(n), direct, postfix)
    ensures Emittable(RunCommand(n), direct, postfix)
    ensures var w := Encoded(RunCommand(n), direct, postfix);
            AllAre(DistanceOf(w), 0) && ExtraBitCount(w) <= 48
  {
    hide Encodable, Encoded, Emittable, Named, ForCode;
    FourIsLast();
    SymbolsInAlphabets(RunCommand(n), InitialRing(), direct, postfix);
    FewBits(RunCommand(n), direct, postfix);
    FirstDistance(direct, postfix);
  }

  lemma FourIsLast()
    ensures Named(InitialRing(), 4, 0)
  {
  }

  lemma FirstDistance(direct: nat, postfix: nat)
    ensures ForCode(0, direct, postfix) == DistanceCode(0, 0, 0)
  {
  }

  lemma FewBits(c: StreamCommand, direct: nat, postfix: nat)
    requires Encodable(c, direct, postfix) && c.copyLen > 0 && c.distanceCode == 0
    ensures var w := Encoded(c, direct, postfix);
            && w.insert.extraBits <= 24 && w.copy.extraBits <= 24
            && (w.distance == None || w.distance == Some(ForCode(0, direct, postfix)))
  {
    hide Combine, ForCode, TooFar, Lengths.Limit, Lengths.Base, Lengths.Covers, CodeFrom;
  }

  lemma OneCommand(input: seq<Byte>, commands: seq<StreamCommand>, direct: nat, postfix: nat)
    requires |commands| == 1 && commands[0].insertLen <= |input| && AllEmittable(commands, direct, postfix)
    ensures Encodable(commands[0], direct, postfix) && CommandEmission.Placed(input, 0, commands)
    ensures var w := Encoded(commands[0], direct, postfix);
            && StreamsOf(input, 0, commands, direct, postfix) ==
               Streams(AsSymbols(input[0..commands[0].insertLen]), [w.symbol], DistanceOf(w))
            && ExtrasOf(commands, direct, postfix) == ExtraBitCount(w)
  {
    hide Encoded, ExtraBitCount, DistanceOf, AsSymbols;
    FirstEmittable(commands, direct, postfix);
    hide Emittable, AllEmittable;
    var c := commands[0];
    var w, literals := Encoded(c, direct, postfix), AsSymbols(input[0..c.insertLen]);
    assert commands[1..] == [];
    assert literals + LiteralsOf(input, c.insertLen + c.copyLen, []) == literals;
    assert [w.symbol] + SymbolsOf([], direct, postfix) == [w.symbol];
    assert DistanceOf(w) + DistancesOf([], direct, postfix) == DistanceOf(w);
  }

  /** The three streams. */
  lemma RunStreams(b: Byte, n: nat, direct: nat, postfix: nat)
    requires 16 <= n <= MAX_META_BLOCK_SIZE && Encodable(RunCommand(n), direct, postfix)
    ensures CommandEmission.Placed(Run(b, n), 0, [RunCommand(n)]) && AllEmittable([RunCommand(n)], direct, postfix)
    ensures var st := StreamsOf(Run(b, n), 0, [RunCommand(n)], direct, postfix);
            && AllAre(st.literals, b) && st.literals != []
            && st.symbols == [Encoded(RunCommand(n), direct, postfix).symbol] && AllAre(st.distances, 0)
            && ExtrasOf([RunCommand(n)], direct, postfix) <= 48
  {
    RunWire(n, direct, postfix);
    hide Encodable, Encoded, Emittable, AllEmittable, ExtraBitCount, DistanceOf, StreamsOf;
    var commands, run := [RunCommand(n)], Run(b, n);
    assert commands[1..] == [];
    NoneEmittable(direct, postfix);
    AllEmittableCons(commands, direct, postfix);
    OneCommand(run, commands, direct, postfix);
  }

  /** The codes the encoder makes for a run. */
  function RunCodes(b: Byte, symbol: nat, direct: nat, postfix: nat): Encodings
    requires symbol < COMMAND_ALPHABET_SIZE
  {
    SomeDistances(direct, postfix);
    Encodings(LoneCode(b, LITERAL_ALPHABET_SIZE), LoneCode(symbol, COMMAND_ALPHABET_SIZE),
              LoneCode(0, AlphabetSize(direct, postfix)), direct, postfix)
  }

  function LoneTree(x: nat, size: nat): seq<bool>
  {
    Lsb(1, 2) + SimpleBits([x], size)
  }

  lemma LoneTreeIsShort(x: nat, size: nat)
    requires x < size <= MAX_ALPHABET
    ensures IsTree(LoneCode(x, size), LoneTree(x, size)) && |LoneTree(x, size)| <= 14
  {
    assert Pow2(10) == 1024 && Pow2(5) == 32;
    ShortLength(size - 1, 10);
    hide *;
    LoneBits(x, size, AlphabetBits(size));
    LoneListed(x, size);
  }

  lemma LoneBits(x: nat, size: nat, width: nat)
    requires width == AlphabetBits(size)
    ensures |LoneTree(x, size)| == 4 + width
  {
    hide Lsb, AlphabetBits;
    assert ListBits([x][1..], width) == [];
    assert |ListBits([x], width)| == width;
  }

  lemma LoneListed(x: nat, size: nat)
    requires x < size
    ensures IsTree(LoneCode(x, size), LoneTree(x, size))
  {
    hide Lsb, SimpleBits, SimpleSymbolCode;
  }

  lemma {:induction false} ShortLength(n: nat, width: nat)
    requires n < Pow2(width)
    ensures BitLength(n) <= width
  {
    if n > 0 {
      ShortLength(n / 2, width - 1);
    }
  }

  function RunStart(b: Byte, symbol: nat, direct: nat, postfix: nat): seq<bool>
  {
    PlainHeader(direct, postfix) + LoneTree(b, LITERAL_ALPHABET_SIZE) + LoneTree(symbol, COMMAND_ALPHABET_SIZE) +
      LoneTree(0, AlphabetSize(direct, postfix))
  }

  lemma RunStarts(b: Byte, symbol: nat, direct: nat, postfix: nat, f: Streams)
    requires symbol < COMMAND_ALPHABET_SIZE && EncodesAll(RunCodes(b, symbol, direct, postfix), f)
    requires DecodableCodes(RunCodes(b, symbol, direct, postfix).Lengths())
    ensures IsStart(RunCodes(b, symbol, direct, postfix).Lengths(), RunStart(b, symbol, direct, postfix))
    ensures |RunStart(b, symbol, direct, postfix)| <= 55
  {
    hide EncodesAll, DecodableCodes, LoneTree, IsTree, LoneCode, AlphabetSize, PlainHeader, HasFields;
    var e := RunCodes(b, symbol, direct, postfix);
    AlphabetOf(e);
    LoneTreeIsShort(b, LITERAL_ALPHABET_SIZE);
    LoneTreeIsShort(symbol, COMMAND_ALPHABET_SIZE);
    LoneTreeIsShort(0, AlphabetSize(direct, postfix));
    var trees := [LoneTree(b, LITERAL_ALPHABET_SIZE), LoneTree(symbol, COMMAND_ALPHABET_SIZE),
                  LoneTree(0, AlphabetSize(direct, postfix))];
    assert StartFrom(e, f, trees, e.Lengths(), RunStart(b, symbol, direct, postfix));
  }

  lemma AlphabetOf(e: Encodings)
    requires DecodableCodes(e.Lengths())
    ensures 0 < AlphabetSize(e.direct, e.postfix) <= MAX_ALPHABET
  {
    hide Decodable, AlphabetSize, HasFields, LengthsOf;
    AlphabetFits(e.direct, e.postfix);
  }

  /** Streams of a run: one literal, one command, no distance but the last. */
  predicate RunLike(st: Streams, b: Byte, symbol: nat)
  {
    && AllAre(st.literals, b) && st.literals != [] && st.symbols == [symbol] && symbol < COMMAND_ALPHABET_SIZE
    && AllAre(st.distances, 0)
  }

  lemma RunParts(b: Byte, n: nat, direct: nat, postfix: nat) returns (symbol: nat)
    requires 16 <= n <= MAX_META_BLOCK_SIZE
    ensures CommandEmission.Placed(Run(b, n), 0, [RunCommand(n)]) && AllEmittable([RunCommand(n)], direct, postfix)
    ensures RunLike(StreamsOf(Run(b, n), 0, [RunCommand(n)], direct, postfix), b, symbol)
    ensures ExtrasOf([RunCommand(n)], direct, postfix) <= 48
  {
    RunEncodable(n, direct, postfix);
    RunStreams(b, n, direct, postfix);
    RunWire(n, direct, postfix);
    symbol := Encoded(RunCommand(n), direct, postfix).symbol;
    hide Encodable, Encoded, StreamsOf, ExtrasOf, Run, RunCommand, AllEmittable;
  }

  /** The counts the codes are made from. */
  function SeededStreams(st: Streams, direct: nat, postfix: nat): Streams
  {
    SomeDistances(direct, postfix);
    Streams(Seeded(st.literals, LITERAL_ALPHABET_SIZE), Seeded(st.symbols, COMMAND_ALPHABET_SIZE),
            Seeded(st.distances, AlphabetSize(direct, postfix)))
  }

  /** The codes have every symbol, and their words take no bits. */
  lemma RunCodesServe(b: Byte, symbol: nat, direct: nat, postfix: nat, st: Streams)
    requires RunLike(st, b, symbol) && HasFields(direct, postfix)
    ensures var e := RunCodes(b, symbol, direct, postfix);
            && CodesMade(e, st) && EncodesAll(e, SeededStreams(st, direct, postfix)) && DecodableCodes(e.Lengths())
            && AllHaveCodes(e.Lengths().literals, st.literals) && AllHaveCodes(e.Lengths().commands, st.symbols)
            && AllHaveCodes(e.Lengths().distances, st.distances)
            && LengthSum(WordLengths(e.Lengths().literals), st.literals) == 0
            && LengthSum(WordLengths(e.Lengths().commands), st.symbols) == 0
            && LengthSum(WordLengths(e.Lengths().distances), st.distances) == 0
  {
    SomeDistances(direct, postfix);
    hide LoneCode, LengthsOf, Seeded, Decodable, AllHaveCodes, LengthSum, WordLengths, AlphabetSize, HasFields, MadeFor,
         Encodes;
    LoneIsMade(st.literals, b, LITERAL_ALPHABET_SIZE);
    LoneIsMade(st.symbols, symbol, COMMAND_ALPHABET_SIZE);
    LoneIsMade(st.distances, 0, AlphabetSize(direct, postfix));
    MadeEncodes(LoneCode(b, LITERAL_ALPHABET_SIZE), Seeded(st.literals, LITERAL_ALPHABET_SIZE));
    MadeEncodes(LoneCode(symbol, COMMAND_ALPHABET_SIZE), Seeded(st.symbols, COMMAND_ALPHABET_SIZE));
    MadeEncodes(LoneCode(0, AlphabetSize(direct, postfix)), Seeded(st.distances, AlphabetSize(direct, postfix)));
  }

  lemma MadeEncodes(e: PrefixEncoding, frequencies: seq<nat>)
    requires MadeFor(e, frequencies)
    ensures Encodes(e, frequencies)
  {
    hide Encodes;
  }

  /** What is written for a run: header and trees in at most fifty-five bits, the command in at most forty-eight. */
  lemma RunIsMade(b: Byte, n: nat, direct: nat, postfix: nat) returns (e: Encodings, front: seq<bool>)
    requires 16 <= n <= MAX_META_BLOCK_SIZE && HasFields(direct, postfix)
    ensures e.direct == direct && e.postfix == postfix && |front| <= 55
    ensures MadeForm(e, front, Run(b, n), 0, [RunCommand(n)], direct, postfix)
    ensures |BodyBits(e.Lengths(), Run(b, n), 0, [RunCommand(n)])| <= 48
  {
    hide *;
    var symbol := RunParts(b, n, direct, postfix);
    var run, commands := Run(b, n), [RunCommand(n)];
    var st := StreamsOf(run, 0, commands, direct, postfix);
    SymbolFits(st, b, symbol);
    e, front := RunCodes(b, symbol, direct, postfix), RunStart(b, symbol, direct, postfix);
    CodesAre(b, symbol, direct, postfix);
    RunCodesServe(b, symbol, direct, postfix, st);
    StreamsAre(run, commands, direct, postfix);
    StreamsWritable(e.Lengths(), run, 0, commands);
    BodyBitsLength(e.Lengths(), run, 0, commands);
    RunStarts(b, symbol, direct, postfix, SeededStreams(st, direct, postfix));
    FormIsMade(e, front, run, commands, direct, postfix);
  }

  lemma SymbolFits(st: Streams, b: Byte, symbol: nat)
    requires RunLike(st, b, symbol)
    ensures symbol < COMMAND_ALPHABET_SIZE
  {
  }

  lemma CodesAre(b: Byte, symbol: nat, direct: nat, postfix: nat)
    requires symbol < COMMAND_ALPHABET_SIZE
    ensures var e := RunCodes(b, symbol, direct, postfix);
            && e.direct == e.Lengths().direct == direct && e.postfix == e.Lengths().postfix == postfix
  {
    hide LengthsOf, LoneCode;
  }

  lemma FormIsMade(e: Encodings, front: seq<bool>, input: seq<Byte>, commands: seq<StreamCommand>, direct: nat,
                   postfix: nat)
    requires e.direct == direct && e.postfix == postfix
    requires CommandEmission.Placed(input, 0, commands) && AllEmittable(commands, direct, postfix)
    requires CodesMade(e, StreamsOf(input, 0, commands, direct, postfix)) && IsStart(e.Lengths(), front)
    requires Writable(e.Lengths(), input, 0, commands)
    ensures MadeForm(e, front, input, 0, commands, direct, postfix)
  {
    hide CommandEmission.Placed, AllEmittable, CodesMade, IsStart, Writable, StreamsOf;
  }

  lemma StreamsAre(input: seq<Byte>, commands: seq<StreamCommand>, direct: nat, postfix: nat)
    requires CommandEmission.Placed(input, 0, commands) && AllEmittable(commands, direct, postfix)
    ensures StreamsOf(input, 0, commands, direct, postfix) ==
            Streams(LiteralsOf(input, 0, commands), SymbolsOf(commands, direct, postfix),
                    DistancesOf(commands, direct, postfix))
  {
  }

  /** So every run of sixteen bytes or more is compressed. */
  lemma RunCompresses(env: Env, b: Byte, n: nat, direct: nat, postfix: nat, isLast: bool)
    requires 16 <= n <= MAX_META_BLOCK_SIZE && env.window >= 4 && HasFields(direct, postfix)
    ensures MakesUp(env, Run(b, n), 0, [RunCommand(n)], n, InitialRing(), InitialRing())
    ensures G.Smaller(EncoderTrees(direct, postfix), RunJob(b, n, isLast)).Some?
  {
    hide *;
    RunMakesUp(env, b, n);
    var e, front := RunIsMade(b, n, direct, postfix);
    var run, commands := Run(b, n), [RunCommand(n)];
    RunForm(e, front, run, commands, direct, postfix);
    var bits := BodyBits(e.Lengths(), run, 0, commands);
    RunIsSmall(front, bits, n, isLast);
    FormOfJob(run, 0, commands, n, isLast, direct, postfix, e.Lengths(), front);
    JobOfRun(b, n, isLast);
    LeastIsMade(RunJob(b, n, isLast), direct, postfix, CompressedForm(front, bits, n, isLast));
  }

  lemma RunForm(e: Encodings, front: seq<bool>, input: seq<Byte>, commands: seq<StreamCommand>, direct: nat,
                postfix: nat)
    requires MadeForm(e, front, input, 0, commands, direct, postfix)
    ensures WithTail(commands, 0) == commands && Writable(e.Lengths(), input, 0, commands)
    ensures SingleTreeForm(e.Lengths(), front, input, 0, commands, direct, postfix)
  {
    hide CommandEmission.Placed, AllEmittable, CodesMade, IsStart, Writable;
  }

  lemma JobOfRun(b: Byte, n: nat, isLast: bool)
    requires n > 4
    ensures RunJob(b, n, isLast) == G.JobOf(Run(b, n), 0, [RunCommand(n)], n, isLast)
    ensures RunJob(b, n, isLast).commands != [] && |RunJob(b, n, isLast).chunk| == n
  {
  }

  lemma RunIsSmall(front: seq<bool>, bits: seq<bool>, n: nat, isLast: bool)
    requires 16 <= n <= MAX_META_BLOCK_SIZE && |front| <= 55 && |bits| <= 48
    ensures |CompressedForm(front, bits, n, isLast)| < StoredBits(n)
  {
    hide Lsb;
  }
}
