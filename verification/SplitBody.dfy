/** The commands of a metablock with several block types and trees (`src/encode/greedy.rs`, `src/encode/greedy/
    block_split.rs` against `src/decode/compressed_block.rs`): three streams of symbols, each under a split of its own,
    interleaved with each other and with extra bits, make the decoder write the block. */
module SplitBody {
  import opened Arithmetic
  import opened Bytes
  import opened BitStream
  import opened ComplexPrefixDecoder
  import opened HistoryRing
  import opened Distances
  import opened Commands
  import opened Dictionary
  import opened BlockStates
  import opened BlockMachine
  import opened CompressedBlock
  import opened CommandStream
  import opened CommandEmission
  import opened SplitStreams
  import opened Outcomes

  /** A stream of symbols with their contexts, the split they are written under, and their words. */
  datatype SplitStream = SplitStream(p: Partition, codes: seq<PrefixCode>, contextCount: nat, kinds: seq<nat>,
                                     symbols: seq<nat>, contexts: seq<nat>, words: seq<seq<bool>>, places: seq<Place>)

  /** Any decoder at the start of the split reads the symbols back word by word. */
  ghost predicate Readable(st: SplitStream)
  {
    && |st.words| == |st.symbols| == |st.contexts| <= |st.kinds| && |st.places| == |st.symbols| + 1
    && StreamReads(st.p, st.codes, st.contextCount, st.kinds, st.symbols, st.contexts, st.words, st.places,
                   |st.symbols|)
  }

  /** The streams of a metablock. */
  datatype Splits = Splits(literals: SplitStream, commands: SplitStream, distances: SplitStream,
                           contextOf: (Byte, Byte) -> nat, direct: nat, postfix: nat)

  /** A decoder with these partitions and trees. */
  ghost predicate ReadsSplits(h: Header, sp: Splits)
  {
    && h.literals == sp.literals.p && h.commands == sp.commands.p && h.distances == sp.distances.p
    && h.directCodes == sp.direct && h.postfixBits == sp.postfix
    && Readable(sp.literals) && Readable(sp.commands) && Readable(sp.distances)
    && (forall t: nat, a: Byte, b: Byte ::
          TreeOf(t, sp.contextOf(a, b), sp.literals.contextCount) < |sp.literals.codes| ==>
            h.literalTree(t, a, b) == sp.literals.codes[TreeOf(t, sp.contextOf(a, b), sp.literals.contextCount)])
    && (forall t: nat :: TreeOf(t, 0, sp.commands.contextCount) < |sp.commands.codes| ==>
          h.commandTree(t) == sp.commands.codes[TreeOf(t, 0, sp.commands.contextCount)])
    && (forall t: nat, k: nat :: TreeOf(t, 0, sp.distances.contextCount) < |sp.distances.codes| ==>
          h.distanceTree(t, k) == sp.distances.codes[TreeOf(t, 0, sp.distances.contextCount)])
  }

  /** How many symbols of each stream have been written. */
  datatype Cursors = Cursors(literals: nat, commands: nat, distances: nat)

  predicate AtPlace(st: SplitStream, n: nat, b: BlockState)
  {
    n < |st.places| && IsAt(st.p, b, st.places[n])
  }

  /** The decoder is where the encoder is in all three streams, with no codeword half read. */
  predicate AtCursors(sp: Splits, n: Cursors, s: State)
  {
    && Whole(s) && AtPlace(sp.literals, n.literals, s.literalBlocks)
    && AtPlace(sp.commands, n.commands, s.commandBlocks)
    && AtPlace(sp.distances, n.distances, s.distanceBlocks)
  }

  lemma {:induction false} SwitchIsReady(p: Partition, b: BlockState, input: seq<bool>)
    ensures SwitchRun(p, b, input).1 ==> Ready(p, SwitchRun(p, b, input).0)
    decreases |input|, BlockRank(p, b)
  {
    SwitchSteps(p, b, input);
    if !Ready(p, b) && |input| >= BlockBits(p, b) {
      BlockStepProgresses(p, b, input[..BlockBits(p, b)]);
      hide *;
      SwitchIsReady(p, BlockStep(p, b, input[..BlockBits(p, b)]), input[BlockBits(p, b)..]);
    }
  }

  /** A symbol read under its type, after the switch that may be due. */
  lemma ReadsUnder(h: Header, s: State, code: PrefixCode, from: Place, word: seq<bool>, t: nat, symbol: nat, to: Place,
                   rest: seq<bool>, room: nat) returns (b: BlockState)
    requires Sane(h, s) && Reading(s) && (NeedsRoom(s) ==> room > 0) && ActiveSearch(s) == NoSearch()
    requires IsAt(ActivePartition(h, s), ActiveBlocks(s), from)
    requires ReadsSymbolBack(ActivePartition(h, s), code, from, word, t, symbol, to)
    requires forall c :: CurrentType(ActivePartition(h, s), c) == t ==> ActiveCode(h, WithBlocks(s, c)) == code
    ensures IsAt(ActivePartition(h, s), Consumed(ActivePartition(h, s), b), to)
    ensures Accepted(h, s, word + rest, room, Accept(h, WithBlocks(s, b), symbol), rest)
  {
    var p, input := ActivePartition(h, s), word + rest;
    hide Sane, Reading, NeedsRoom, ActiveSearch, ActivePartition, ActiveBlocks, IsAt, CurrentType, ActiveCode,
         WithBlocks, SwitchRun, SymbolRun, Consumed, Accepted, Accept, Ready, Run;
    var (c, ready, left) := SwitchRun(p, ActiveBlocks(s), input);
    assert ready && CurrentType(p, c) == t && SymbolRun(code, NoSearch(), left) == (NoSearch(), Some(symbol), rest);
    b := c;
    SwitchIsReady(p, ActiveBlocks(s), input);
    ReadingSwitch(h, s, input, room);
    SameReading(h, s, b);
    SameSearch(s, b);
    var u := WithBlocks(s, b);
    ReadingSymbol(h, u, left, room);
    SameSearching(h, u, NoSearch());
    AcceptedAfter(h, s, u, input, left, room, symbol, rest);
  }

  lemma SameSearch(s: State, b: BlockState)
    ensures ActiveSearch(WithBlocks(s, b)) == ActiveSearch(s) && WithBlocks(s, b).flat == s.flat
  {
  }

  lemma AcceptedAfter(h: Header, s: State, u: State, input: seq<bool>, left: seq<bool>, room: nat, symbol: nat,
                      rest: seq<bool>)
    requires Sane(h, s) && Sane(h, u) && u.flat == s.flat && Run(h, s, input, room) == Run(h, u, left, room)
    requires WithSearch(u, NoSearch()) == u && SymbolOutcome(h, u, left, room, NoSearch(), Some(symbol), rest)
    ensures Accepted(h, s, input, room, Accept(h, u, symbol), rest)
  {
    hide Sane, Run, Accept, WithSearch;
  }

  /** What the next word of a stream says to a decoder at its place. */
  lemma NextWord(st: SplitStream, n: nat) returns (code: PrefixCode)
    requires Readable(st) && n < |st.symbols|
    ensures n < |st.kinds| && n < |st.contexts| && n < |st.words| && n + 1 < |st.places|
    ensures var tree := TreeOf(st.kinds[n], st.contexts[n], st.contextCount);
            tree < |st.codes| && code == st.codes[tree]
    ensures ReadsSymbolBack(st.p, code, st.places[n], st.words[n], st.kinds[n], st.symbols[n], st.places[n + 1])
  {
    hide ReadsSymbolBack, TreeOf;
    assert WordReads(st.p, st.codes, st.contextCount, st.kinds[n], st.symbols[n], st.contexts[n], st.words[n],
                     st.places[n], st.places[n + 1]);
    code := st.codes[TreeOf(st.kinds[n], st.contexts[n], st.contextCount)];
  }

  lemma SplitsRead(h: Header, sp: Splits)
    requires ReadsSplits(h, sp)
    ensures h.literals == sp.literals.p && h.commands == sp.commands.p && h.distances == sp.distances.p
    ensures Readable(sp.literals) && Readable(sp.commands) && Readable(sp.distances)
    ensures h.directCodes == sp.direct && h.postfixBits == sp.postfix
  {
    hide Readable, TreeOf;
  }

  /** The tree of a command's symbol. */
  lemma CommandCode(h: Header, sp: Splits, s: State, t: nat)
    requires ReadsSplits(h, sp) && s.phase.Command?
    requires TreeOf(t, 0, sp.commands.contextCount) < |sp.commands.codes|
    ensures forall c :: CurrentType(ActivePartition(h, s), c) == t ==>
              ActiveCode(h, WithBlocks(s, c)) == sp.commands.codes[TreeOf(t, 0, sp.commands.contextCount)]
  {
    hide Readable, TreeOf, CurrentType;
  }

  /** The tree of a literal, by its type and the two bytes before it. */
  lemma LiteralCode(h: Header, sp: Splits, s: State, t: nat)
    requires ReadsSplits(h, sp) && s.phase.Literals?
    requires TreeOf(t, sp.contextOf(LastByte(s.flat, 0), LastByte(s.flat, 1)), sp.literals.contextCount) <
             |sp.literals.codes|
    ensures forall c :: CurrentType(ActivePartition(h, s), c) == t ==>
              ActiveCode(h, WithBlocks(s, c)) ==
              sp.literals.codes[TreeOf(t, sp.contextOf(LastByte(s.flat, 0), LastByte(s.flat, 1)),
                                       sp.literals.contextCount)]
  {
    hide Readable, TreeOf, CurrentType;
  }

  /** The tree of a distance's symbol, the same in every context. */
  lemma DistanceCodeOf(h: Header, sp: Splits, s: State, t: nat)
    requires ReadsSplits(h, sp) && s.phase.DistanceSymbol?
    requires TreeOf(t, 0, sp.distances.contextCount) < |sp.distances.codes|
    ensures forall c :: CurrentType(ActivePartition(h, s), c) == t ==>
              ActiveCode(h, WithBlocks(s, c)) == sp.distances.codes[TreeOf(t, 0, sp.distances.contextCount)]
  {
    hide Readable, TreeOf, CurrentType;
  }

  /** A command's symbol, after the switch that may be due. */
  lemma ReadsSplitCommand(h: Header, sp: Splits, s: State, n: Cursors, rest: seq<bool>, room: nat) returns (t: State)
    requires Sane(h, s) && ReadsSplits(h, sp) && AtCursors(sp, n, s) && s.phase.Command? && s.remaining > 0
    requires n.commands < |sp.commands.symbols| && sp.commands.contexts[n.commands] == 0
    requires sp.commands.symbols[n.commands] < COMMAND_SYMBOL_COUNT
    ensures t == s.(commandBlocks := t.commandBlocks,
                    phase := CommandExtra(FromSymbol(sp.commands.symbols[n.commands]), None))
    ensures AtCursors(sp, n.(commands := n.commands + 1), t)
    ensures Leads(h, s, sp.commands.words[n.commands] + rest, room, t, rest, room)
  {
    SplitsRead(h, sp);
    var code := NextWord(sp.commands, n.commands);
    var symbol := sp.commands.symbols[n.commands];
    CommandCode(h, sp, s, sp.commands.kinds[n.commands]);
    hide Sane, ReadsSplits, Readable, IsAt, Run, FromSymbol, ReadsSymbolBack, TreeOf, CurrentType, ActiveCode;
    var b := ReadsUnder(h, s, code, sp.commands.places[n.commands], sp.commands.words[n.commands],
                        sp.commands.kinds[n.commands], symbol, sp.commands.places[n.commands + 1], rest, room);
    t := s.(commandBlocks := Consumed(sp.commands.p, b), phase := CommandExtra(FromSymbol(symbol), None));
  }

  /** A literal, after the switch that may be due. */
  lemma ReadsSplitLiteral(h: Header, sp: Splits, s: State, n: Cursors, b: Byte, rest: seq<bool>, room: nat)
    returns (t: State)
    requires Sane(h, s) && ReadsSplits(h, sp) && AtCursors(sp, n, s) && s.phase.Literals? && s.phase.count > 0
    requires s.remaining > 0 && room > 0 && n.literals < |sp.literals.symbols| && sp.literals.symbols[n.literals] == b
    requires sp.literals.contexts[n.literals] == sp.contextOf(LastByte(s.flat, 0), LastByte(s.flat, 1))
    ensures t == s.(literalBlocks := t.literalBlocks, flat := s.flat + [b], remaining := s.remaining - 1,
                    phase := Literals(s.phase.count - 1, s.phase.copyLength, s.phase.implicit))
    ensures AtCursors(sp, n.(literals := n.literals + 1), t)
    ensures Leads(h, s, sp.literals.words[n.literals] + rest, room, t, rest, room - 1)
  {
    hide *;
    SplitsRead(h, sp);
    var code := NextWord(sp.literals, n.literals);
    LiteralCode(h, sp, s, sp.literals.kinds[n.literals]);
    LiteralState(h, sp, s, n);
    var c := ReadsUnder(h, s, code, sp.literals.places[n.literals], sp.literals.words[n.literals],
                        sp.literals.kinds[n.literals], b, sp.literals.places[n.literals + 1], rest, room);
    t := s.(literalBlocks := Consumed(sp.literals.p, c), flat := s.flat + [b], remaining := s.remaining - 1,
            phase := Literals(s.phase.count - 1, s.phase.copyLength, s.phase.implicit));
    AcceptsLiteral(h, s, c, b);
    AcceptedLeads(h, s, sp.literals.words[n.literals] + rest, room, t, rest, 1);
    PastLiteral(sp, n, s, t);
  }

  lemma LiteralState(h: Header, sp: Splits, s: State, n: Cursors)
    requires s.phase.Literals? && s.phase.count > 0 && AtCursors(sp, n, s) && h.literals == sp.literals.p
    requires n.literals < |sp.literals.places|
    ensures Reading(s) && ActiveSearch(s) == NoSearch() && ActivePartition(h, s) == sp.literals.p
    ensures IsAt(sp.literals.p, ActiveBlocks(s), sp.literals.places[n.literals])
  {
    hide IsAt;
  }

  lemma AcceptsLiteral(h: Header, s: State, c: BlockState, b: Byte)
    requires s.phase.Literals? && s.phase.count > 0 && s.remaining > 0
    ensures Accept(h, WithBlocks(s, c), b) ==
            Ok(s.(literalBlocks := Consumed(h.literals, c), flat := s.flat + [b], remaining := s.remaining - 1,
                  phase := Literals(s.phase.count - 1, s.phase.copyLength, s.phase.implicit)))
  {
    hide Consumed;
  }

  lemma AcceptedLeads(h: Header, s: State, input: seq<bool>, room: nat, t: State, rest: seq<bool>, written: nat)
    requires Sane(h, s) && Accepted(h, s, input, room, Ok(t), rest)
    requires |t.flat| == |s.flat| + written && written <= room
    ensures Leads(h, s, input, room, t, rest, room - written)
  {
    hide Sane, Run;
  }

  lemma PastLiteral(sp: Splits, n: Cursors, s: State, t: State)
    requires AtCursors(sp, n, s) && t == s.(literalBlocks := t.literalBlocks, flat := t.flat, remaining := t.remaining,
                                            phase := t.phase)
    requires n.literals + 1 < |sp.literals.places|
    requires IsAt(sp.literals.p, t.literalBlocks, sp.literals.places[n.literals + 1])
    ensures AtCursors(sp, n.(literals := n.literals + 1), t)
  {
    hide IsAt;
  }

  /** The context of a literal: what the two bytes before it say. */
  function ContextAt(contextOf: (Byte, Byte) -> nat, before: seq<Byte>, input: seq<Byte>, at: nat): nat
    requires at <= |input|
  {
    contextOf(LastByte(Upto(before, input, at), 0), LastByte(Upto(before, input, at), 1))
  }

  /** A stream has a symbol at its next place, in this context. */
  predicate Next(st: SplitStream, n: nat, symbol: nat, context: nat)
  {
    && n < |st.symbols| && n < |st.contexts| && n < |st.words| && st.symbols[n] == symbol
    && st.contexts[n] == context
  }

  /** The next literals are these bytes of the input, in their contexts. */
  predicate Inserts(sp: Splits, n: nat, before: seq<Byte>, input: seq<Byte>, at: nat, count: nat)
    requires at + count <= |input|
    decreases count
  {
    count > 0 ==>
      Next(sp.literals, n, input[at], ContextAt(sp.contextOf, before, input, at)) &&
      Inserts(sp, n + 1, before, input, at + 1, count - 1)
  }

  /** Words of a stream, one after another. */
  function WordsFrom(words: seq<seq<bool>>, n: nat, count: nat): seq<bool>
    requires count > 0 ==> n + count <= |words|
    decreases count
  {
    if count == 0 then [] else words[n] + WordsFrom(words, n + 1, count - 1)
  }

  lemma {:induction false} InsertsWithin(sp: Splits, n: nat, before: seq<Byte>, input: seq<Byte>, at: nat, count: nat)
    requires at + count <= |input| && Inserts(sp, n, before, input, at, count)
    ensures count > 0 ==> n + count <= |sp.literals.words|
    decreases count
  {
    if count > 0 {
      InsertsWithin(sp, n + 1, before, input, at + 1, count - 1);
    }
  }

  /** All literals of a command. */
  lemma {:induction false} ReadsSplitLiterals(h: Header, sp: Splits, s: State, n: Cursors, before: seq<Byte>,
                                              input: seq<Byte>, at: nat, count: nat, rest: seq<bool>, room: nat)
    returns (t: State)
    requires Sane(h, s) && ReadsSplits(h, sp) && AtCursors(sp, n, s) && s.phase.Literals? && s.phase.count == count
    requires at + count <= |input| && s.flat == Upto(before, input, at) && count <= s.remaining && count <= room
    requires Inserts(sp, n.literals, before, input, at, count)
    requires count > 0 ==> n.literals + count <= |sp.literals.words|
    ensures t == s.(literalBlocks := t.literalBlocks, flat := Upto(before, input, at + count),
                    remaining := s.remaining - count, phase := Literals(0, s.phase.copyLength, s.phase.implicit))
    ensures AtCursors(sp, n.(literals := n.literals + count), t)
    ensures Leads(h, s, WordsFrom(sp.literals.words, n.literals, count) + rest, room, t, rest, room - count)
    decreases count
  {
    hide Sane, ReadsSplits, AtCursors, Run, LastByte, Upto;
    if count == 0 {
      t := s;
      assert [] + rest == rest;
    } else {
      UptoGrows(before, input, at, 1);
      assert input[at..at + 1] == [input[at]];
      var first, later := sp.literals.words[n.literals], WordsFrom(sp.literals.words, n.literals + 1, count - 1);
      var u := ReadsSplitLiteral(h, sp, s, n, input[at], later + rest, room);
      t := ReadsSplitLiterals(h, sp, u, n.(literals := n.literals + 1), before, input, at + 1, count - 1, rest,
                              room - 1);
      assert first + later + rest == first + (later + rest);
    }
  }

  function DistanceWord(sp: Splits, n: Cursors, w: Wire): seq<bool>
    requires w.distance.Some? ==> n.distances < |sp.distances.words|
  {
    match w.distance
    case None => []
    case Some(d) => sp.distances.words[n.distances] + Lsb(d.extra, d.extraBits)
  }

  /** The symbol of a distance, after the switch that may be due. */
  lemma ReadsSplitDistanceSymbol(h: Header, sp: Splits, s: State, n: Cursors, d: DistanceCode, distance: nat,
                                 pushed: bool, rest: seq<bool>, room: nat) returns (t: State)
    requires Sane(h, s) && ReadsSplits(h, sp) && AtCursors(sp, n, s) && s.phase.DistanceSymbol?
    requires Next(sp.distances, n.distances, d.symbol, 0) && Names(h, s.ring, d, distance, pushed)
    ensures t == s.(distanceBlocks := t.distanceBlocks,
                    phase := DistanceExtra(s.phase.copyLength, if d.extraBits > 0 then Extra(d.symbol)
                                                               else Resolved(Distance(distance, pushed))))
    ensures AtCursors(sp, n.(distances := n.distances + 1), t)
    ensures Leads(h, s, sp.distances.words[n.distances] + rest, room, t, rest, room)
  {
    hide *;
    SplitsRead(h, sp);
    NextIs(sp.distances, n.distances, d.symbol, 0);
    var code := NextWord(sp.distances, n.distances);
    DistanceCodeOf(h, sp, s, sp.distances.kinds[n.distances]);
    DistanceState(h, sp, s, n);
    var c := ReadsUnder(h, s, code, sp.distances.places[n.distances], sp.distances.words[n.distances],
                        sp.distances.kinds[n.distances], d.symbol, sp.distances.places[n.distances + 1], rest, room);
    t := s.(distanceBlocks := Consumed(sp.distances.p, c),
            phase := DistanceExtra(s.phase.copyLength, if d.extraBits > 0 then Extra(d.symbol)
                                                       else Resolved(Distance(distance, pushed))));
    AcceptsDistance(h, s, c, d, distance, pushed);
    AcceptedLeads(h, s, sp.distances.words[n.distances] + rest, room, t, rest, 0);
    PastDistance(sp, n, s, t);
  }

  lemma NextIs(st: SplitStream, n: nat, symbol: nat, context: nat)
    requires Next(st, n, symbol, context)
    ensures n < |st.symbols| && n < |st.contexts| && n < |st.words| && st.symbols[n] == symbol
    ensures st.contexts[n] == context
  {
  }

  lemma DistanceState(h: Header, sp: Splits, s: State, n: Cursors)
    requires s.phase.DistanceSymbol? && AtCursors(sp, n, s) && h.distances == sp.distances.p
    requires n.distances < |sp.distances.places|
    ensures Reading(s) && !NeedsRoom(s) && ActiveSearch(s) == NoSearch() && ActivePartition(h, s) == sp.distances.p
    ensures IsAt(sp.distances.p, ActiveBlocks(s), sp.distances.places[n.distances])
  {
    hide IsAt;
  }

  lemma AcceptsDistance(h: Header, s: State, c: BlockState, d: DistanceCode, distance: nat, pushed: bool)
    requires s.phase.DistanceSymbol? && Names(h, s.ring, d, distance, pushed)
    ensures Accept(h, WithBlocks(s, c), d.symbol) ==
            Ok(s.(distanceBlocks := Consumed(h.distances, c),
                  phase := DistanceExtra(s.phase.copyLength, if d.extraBits > 0 then Extra(d.symbol)
                                                             else Resolved(Distance(distance, pushed)))))
  {
    hide ExtraBitsRead, AlphabetSize, ResolveShort, FromExtra, Consumed;
    InAlphabet(h, s.ring, d);
    assert Pow2(0) == 1;
    hide Decoded, Pow2;
  }

  lemma PastDistance(sp: Splits, n: Cursors, s: State, t: State)
    requires AtCursors(sp, n, s) && t == s.(distanceBlocks := t.distanceBlocks, phase := t.phase)
    requires n.distances + 1 < |sp.distances.places|
    requires IsAt(sp.distances.p, t.distanceBlocks, sp.distances.places[n.distances + 1])
    ensures AtCursors(sp, n.(distances := n.distances + 1), t)
  {
    hide IsAt;
  }

  lemma LeadsThen(h: Header, s: State, a: seq<bool>, room: nat, t: State, b: seq<bool>, less: nat, u: State,
                  c: seq<bool>, least: nat)
    requires Leads(h, s, a, room, t, b, less) && Leads(h, t, b, less, u, c, least)
    ensures Leads(h, s, a, room, u, c, least)
  {
    hide Sane, Run;
  }

  /** Where a copy begins does not depend on phase or blocks. */
  lemma BeginsWherever(h: Header, s: State, t: State, n: nat, distance: nat, phase: Phase)
    requires BeginCopy(h, s, n, distance) == Ok(s.(phase := phase))
    requires t == s.(phase := t.phase, distanceBlocks := t.distanceBlocks)
    ensures BeginCopy(h, t, n, distance) == Ok(t.(phase := phase))
  {
    hide Transform, Reach;
  }

  /** A distance that is written: symbol, extra bits, and the copy begins. */
  lemma ReadsSplitExplicit(h: Header, sp: Splits, s: State, n: Cursors, d: DistanceCode, distance: nat, pushed: bool,
                           phase: Phase, rest: seq<bool>, room: nat) returns (t: State)
    requires Sane(h, s) && ReadsSplits(h, sp) && AtCursors(sp, n, s)
    requires s.phase.Literals? && s.phase.count == 0 && !s.phase.implicit && s.remaining > 0
    requires Next(sp.distances, n.distances, d.symbol, 0) && Names(h, s.ring, d, distance, pushed)
    requires BeginCopy(h, s, s.phase.copyLength, distance) == Ok(s.(phase := phase))
    ensures t == s.(distanceBlocks := t.distanceBlocks, phase := phase,
                    ring := if pushed && phase.Copying? then s.ring.Pushed(distance) else s.ring)
    ensures AtCursors(sp, n.(distances := n.distances + 1), t)
    ensures n.distances < |sp.distances.words|
    ensures Leads(h, s, sp.distances.words[n.distances] + (Lsb(d.extra, d.extraBits) + rest), room, t, rest, room)
  {
    hide *;
    NextIs(sp.distances, n.distances, d.symbol, 0);
    var extra := Lsb(d.extra, d.extraBits) + rest;
    var all := sp.distances.words[n.distances] + extra;
    var s1 := s.(phase := DistanceSymbol(s.phase.copyLength));
    AsksForDistance(h, s, all, room);
    LeadsSane(h, s, all, room, s1, all, room);
    OtherPhase(sp, n, s, s1);
    var s2 := ReadsSplitDistanceSymbol(h, sp, s1, n, d, distance, pushed, extra, room);
    LeadsSane(h, s1, all, room, s2, extra, room);
    BeginsWherever(h, s, s2, s.phase.copyLength, distance, phase);
    ReadsDistanceExtra(h, s2, d, distance, pushed, phase, rest, room);
    t := s2.(phase := phase, ring := if pushed && phase.Copying? then s.ring.Pushed(distance) else s.ring);
    OtherPhase(sp, n.(distances := n.distances + 1), s2, t);
    LeadsThen(h, s1, all, room, s2, extra, room, t, rest, room);
    LeadsThen(h, s, all, room, s1, all, room, t, rest, room);
  }

  lemma AsksForDistance(h: Header, s: State, rest: seq<bool>, room: nat)
    requires Sane(h, s) && s.phase.Literals? && s.phase.count == 0 && !s.phase.implicit && s.remaining > 0
    ensures Leads(h, s, rest, room, s.(phase := DistanceSymbol(s.phase.copyLength)), rest, room)
  {
    hide Sane;
    TakesNone(h, s, rest, room, s.(phase := DistanceSymbol(s.phase.copyLength)));
  }

  /** Phases that read no symbol leave the streams where they are. */
  lemma OtherPhase(sp: Splits, n: Cursors, s: State, t: State)
    requires AtCursors(sp, n, s)
    requires t == s.(phase := t.phase, ring := t.ring, flat := t.flat, remaining := t.remaining)
    ensures AtCursors(sp, n, t)
  {
    hide IsAt;
  }

  /** Where the streams are after a command. */
  function After(n: Cursors, c: StreamCommand, w: Wire): Cursors
  {
    Cursors(n.literals + c.insertLen, n.commands + 1, n.distances + if w.distance.Some? then 1 else 0)
  }

  /** The next symbols of the streams are the command's. */
  ghost predicate CommandAhead(sp: Splits, n: Cursors, before: seq<Byte>, input: seq<Byte>, at: nat, c: StreamCommand)
  {
    && Encodable(c, sp.direct, sp.postfix) && at + c.insertLen <= |input|
    && var w := Encoded(c, sp.direct, sp.postfix);
       && Next(sp.commands, n.commands, w.symbol, 0)
       && Inserts(sp, n.literals, before, input, at, c.insertLen) && HasWords(sp, n, c, w)
       && (w.distance.Some? ==> Next(sp.distances, n.distances, w.distance.value.symbol, 0))
  }

  ghost predicate AllAhead(sp: Splits, n: Cursors, before: seq<Byte>, input: seq<Byte>, at: nat,
                           commands: seq<StreamCommand>)
    decreases |commands|
  {
    commands != [] ==>
      var c := commands[0];
      CommandAhead(sp, n, before, input, at, c) &&
      AllAhead(sp, After(n, c, Encoded(c, sp.direct, sp.postfix)), before, input, at + c.insertLen + c.copyLen,
               commands[1..])
  }

  /** There is a word for each of a command's symbols. */
  predicate HasWords(sp: Splits, n: Cursors, c: StreamCommand, w: Wire)
  {
    && n.commands < |sp.commands.words| && (c.insertLen > 0 ==> n.literals + c.insertLen <= |sp.literals.words|)
    && (w.distance.Some? ==> n.distances < |sp.distances.words|)
  }

  /** Command symbol, extra bits of both lengths, literals, distance, each symbol with the switch before it. */
  function SplitWord(sp: Splits, n: Cursors, c: StreamCommand, w: Wire): seq<bool>
    requires HasWords(sp, n, c, w)
  {
    sp.commands.words[n.commands] + ExtraBits(w.insert) + ExtraBits(w.copy) +
      WordsFrom(sp.literals.words, n.literals, c.insertLen) + DistanceWord(sp, n, w)
  }

  /** What is written for the commands. */
  ghost function SplitBits(sp: Splits, n: Cursors, before: seq<Byte>, input: seq<Byte>, at: nat,
                           commands: seq<StreamCommand>): seq<bool>
    requires AllAhead(sp, n, before, input, at, commands)
    decreases |commands|
  {
    hide *;
    if commands == [] then []
    else
      var c := commands[0];
      AllAheadNext(sp, n, before, input, at, commands);
      var w := Encoded(c, sp.direct, sp.postfix);
      SplitWord(sp, n, c, w) + SplitBits(sp, After(n, c, w), before, input, at + c.insertLen + c.copyLen, commands[1..])
  }

  lemma AllAheadNext(sp: Splits, n: Cursors, before: seq<Byte>, input: seq<Byte>, at: nat, commands: seq<StreamCommand>)
    requires AllAhead(sp, n, before, input, at, commands) && commands != []
    ensures CommandAhead(sp, n, before, input, at, commands[0])
    ensures Encodable(commands[0], sp.direct, sp.postfix)
    ensures var c := commands[0];
            var w := Encoded(c, sp.direct, sp.postfix);
            HasWords(sp, n, c, w) &&
              AllAhead(sp, After(n, c, w), before, input, at + c.insertLen + c.copyLen, commands[1..])
  {
    hide Encodable, Encoded, Inserts, HasWords, Next;
  }

  /** A state but for its places in the streams. */
  predicate SameButBlocks(s: State, t: State)
  {
    t == s.(literalBlocks := t.literalBlocks, commandBlocks := t.commandBlocks, distanceBlocks := t.distanceBlocks)
  }

  lemma AheadFacts(sp: Splits, n: Cursors, before: seq<Byte>, input: seq<Byte>, at: nat, c: StreamCommand)
    requires CommandAhead(sp, n, before, input, at, c)
    ensures Encodable(c, sp.direct, sp.postfix) && at + c.insertLen <= |input|
    ensures var w := Encoded(c, sp.direct, sp.postfix);
            && n.commands < |sp.commands.symbols| && n.commands < |sp.commands.contexts|
            && n.commands < |sp.commands.words| && sp.commands.symbols[n.commands] == w.symbol
            && sp.commands.contexts[n.commands] == 0
            && HasWords(sp, n, c, w) && (c.insertLen > 0 ==> n.literals + c.insertLen <= |sp.literals.words|)
            && (w.distance.Some? ==> n.distances < |sp.distances.words| &&
                                     Next(sp.distances, n.distances, w.distance.value.symbol, 0))
    ensures Inserts(sp, n.literals, before, input, at, c.insertLen)
  {
    hide Encodable, Encoded, Inserts;
  }

  lemma SplitParts(a: seq<bool>, b: seq<bool>, c: seq<bool>, d: seq<bool>, e: seq<bool>, rest: seq<bool>)
    ensures a + b + c + d + e + rest == a + (b + (c + (d + (e + rest))))
  {
  }

  /** The command up to its distance: its literals are written. */
  lemma ReadsSplitHead(h: Header, sp: Splits, s: State, n: Cursors, before: seq<Byte>, input: seq<Byte>, at: nat,
                       end: nat, c: StreamCommand, w: Wire, rest: seq<bool>, room: nat) returns (t: State)
    requires Sane(h, s) && ReadsSplits(h, sp) && AtCursors(sp, n, s) && InStep(s, before, input, at, end, s.ring)
    requires CommandAhead(sp, n, before, input, at, c) && w == Encoded(c, sp.direct, sp.postfix)
    requires at < end && at + c.insertLen <= end && c.insertLen <= room
    requires n.commands < |sp.commands.words| && (c.insertLen > 0 ==> n.literals + c.insertLen <= |sp.literals.words|)
    ensures t.phase.Literals? && t == s.(literalBlocks := t.literalBlocks, commandBlocks := t.commandBlocks,
                                         flat := Upto(before, input, at + c.insertLen),
                                         remaining := end - at - c.insertLen,
                                         phase := Literals(0, t.phase.copyLength,
                                                           w.distance.None? && c.copyLen > 0))
    ensures c.copyLen > 0 ==> t.phase.copyLength == c.copyCode
    ensures AtCursors(sp, Cursors(n.literals + c.insertLen, n.commands + 1, n.distances), t)
    ensures Leads(h, s, sp.commands.words[n.commands] +
                        (ExtraBits(w.insert) +
                         (ExtraBits(w.copy) + (WordsFrom(sp.literals.words, n.literals, c.insertLen) + rest))), room, t,
                  rest, room - c.insertLen)
  {
    hide *;
    AheadFacts(sp, n, before, input, at, c);
    InStepFacts(s, before, input, at, end);
    CodesAnnounced(c, sp.direct, sp.postfix);
    AnnouncedWithin(FromSymbol(w.symbol), w.insert, w.copy);
    var literals := WordsFrom(sp.literals.words, n.literals, c.insertLen) + rest;
    var lengths := ExtraBits(w.insert) + (ExtraBits(w.copy) + literals);
    var u := ReadsSplitCommand(h, sp, s, n, lengths, room);
    LeadsSane(h, s, sp.commands.words[n.commands] + lengths, room, u, lengths, room);
    ReadsLengths(h, u, w.insert, w.copy, literals, room);
    var v := u.(phase := Literals(Insert.Base(w.insert.code) + w.insert.extra, Copy.Base(w.copy.code) + w.copy.extra,
                                  u.phase.spec.implicitDistanceZero));
    LeadsSane(h, u, lengths, room, v, literals, room);
    OtherPhase(sp, n.(commands := n.commands + 1), u, v);
    t := ReadsSplitLiterals(h, sp, v, n.(commands := n.commands + 1), before, input, at, c.insertLen, rest, room);
    LeadsThen(h, u, lengths, room, v, literals, room, t, rest, room - c.insertLen);
    LeadsThen(h, s, sp.commands.words[n.commands] + lengths, room, u, lengths, room, t, rest, room - c.insertLen);
  }

  lemma AnnouncedWithin(spec: CommandSpec, insert: LengthCode, copy: LengthCode)
    requires Announces(spec, insert, copy)
    ensures insert.code < LENGTH_CODES && copy.code < LENGTH_CODES
  {
    hide Lengths.Bits, Pow2;
  }

  lemma InStepFacts(s: State, before: seq<Byte>, input: seq<Byte>, at: nat, end: nat)
    requires InStep(s, before, input, at, end, s.ring)
    ensures s.phase.Command? && at <= end <= |input| && s.flat == Upto(before, input, at) && s.remaining == end - at
  {
    hide Upto;
  }

  /** The distance, written or left out: copy or word begins, and the decoder's ring is the encoder's. */
  lemma ReadsSplitDistance(h: Header, sp: Splits, s: State, n: Cursors, c: StreamCommand, w: Wire, phase: Phase,
                           rest: seq<bool>, room: nat) returns (t: State)
    requires Sane(h, s) && ReadsSplits(h, sp) && AtCursors(sp, n, s) && Encodable(c, sp.direct, sp.postfix)
    requires w == Encoded(c, sp.direct, sp.postfix) && c.copyLen > 0 && s.remaining > 0
    requires s.phase == Literals(0, c.copyCode, w.distance.None?) && Named(s.ring, c.distance, c.distanceCode)
    requires w.distance.Some? ==> n.distances < |sp.distances.words| &&
                                  Next(sp.distances, n.distances, w.distance.value.symbol, 0)
    requires BeginCopy(h, s, c.copyCode, c.distance) == Ok(s.(phase := phase))
    requires phase.Copying? <==> c.distance <= Reach(h, s.flat)
    ensures t == s.(distanceBlocks := t.distanceBlocks, phase := phase, ring := RingAfter(s.ring, c, Reach(h, s.flat)))
    ensures AtCursors(sp, n.(distances := n.distances + if w.distance.Some? then 1 else 0), t)
    ensures Leads(h, s, DistanceWord(sp, n, w) + rest, room, t, rest, room)
  {
    hide *;
    SplitsRead(h, sp);
    CodesAnnounced(c, sp.direct, sp.postfix);
    RingGoesOn(s.ring, c, phase, Reach(h, s.flat));
    if w.distance.None? {
      LastDistance(s.ring, c.distance);
      ReadsImplicit(h, s, c.distance, phase, rest, room);
      t := s.(phase := phase);
      OtherPhase(sp, n, s, t);
      NoDistanceWord(sp, n, w, rest);
    } else {
      var d := w.distance.value;
      NamesDistance(h, c, s.ring);
      t := ReadsSplitExplicit(h, sp, s, n, d, c.distance, c.distanceCode != 0, phase, rest, room);
      SomeDistanceWord(sp, n, w, rest);
    }
  }

  lemma RingGoesOn(ring: Ring, c: StreamCommand, phase: Phase, reach: nat)
    requires c.copyLen > 0 && (phase.Copying? <==> c.distance <= reach)
    ensures RingAfter(ring, c, reach) == if c.distanceCode != 0 && phase.Copying? then ring.Pushed(c.distance) else ring
  {
  }

  lemma NoDistanceWord(sp: Splits, n: Cursors, w: Wire, rest: seq<bool>)
    requires w.distance.None?
    ensures DistanceWord(sp, n, w) + rest == rest
  {
    assert [] + rest == rest;
  }

  lemma SomeDistanceWord(sp: Splits, n: Cursors, w: Wire, rest: seq<bool>)
    requires w.distance.Some? && n.distances < |sp.distances.words|
    ensures var d := w.distance.value;
            DistanceWord(sp, n, w) + rest ==
            sp.distances.words[n.distances] + (Lsb(d.extra, d.extraBits) + rest)
  {
    hide Lsb;
    var d := w.distance.value;
    assert sp.distances.words[n.distances] + Lsb(d.extra, d.extraBits) + rest ==
           sp.distances.words[n.distances] + (Lsb(d.extra, d.extraBits) + rest);
  }

  lemma WordParts(sp: Splits, n: Cursors, c: StreamCommand, w: Wire, rest: seq<bool>)
    requires HasWords(sp, n, c, w)
    ensures SplitWord(sp, n, c, w) + rest ==
            sp.commands.words[n.commands] +
            (ExtraBits(w.insert) +
             (ExtraBits(w.copy) + (WordsFrom(sp.literals.words, n.literals, c.insertLen) +
                                   (DistanceWord(sp, n, w) + rest))))
  {
    hide ExtraBits, WordsFrom, DistanceWord;
    SplitParts(sp.commands.words[n.commands], ExtraBits(w.insert), ExtraBits(w.copy),
               WordsFrom(sp.literals.words, n.literals, c.insertLen), DistanceWord(sp, n, w), rest);
  }

  /** A command with a copy takes the decoder to where the encoder is after it, in all three streams. */
  lemma ReadsSplitCopyCommand(h: Header, sp: Splits, s: State, n: Cursors, before: seq<Byte>, input: seq<Byte>,
                              at: nat, end: nat, c: StreamCommand, w: Wire, rest: seq<bool>, room: nat)
    returns (t: State)
    requires Sane(h, s) && ReadsSplits(h, sp) && AtCursors(sp, n, s) && InStep(s, before, input, at, end, s.ring)
    requires CommandAhead(sp, n, before, input, at, c) && w == Encoded(c, sp.direct, sp.postfix) &&
             HasWords(sp, n, c, w)
    requires c.copyLen > 0 && at + c.insertLen + c.copyLen <= end && c.insertLen + c.copyLen <= room
    requires Reproduces(h.words, h.windowSize, before, input, at + c.insertLen, c)
    requires Named(s.ring, c.distance, c.distanceCode)
    ensures t == s.(literalBlocks := t.literalBlocks, commandBlocks := t.commandBlocks,
                    distanceBlocks := t.distanceBlocks, flat := t.flat, remaining := t.remaining, ring := t.ring)
    ensures AtCursors(sp, After(n, c, w), t)
    ensures InStep(t, before, input, at + c.insertLen + c.copyLen, end,
                   RingAfter(s.ring, c, ReachAt(|before| + at + c.insertLen, h.windowSize)))
    ensures Leads(h, s, SplitWord(sp, n, c, w) + rest, room, t, rest, room - c.insertLen - c.copyLen)
  {
    hide *;
    AheadFacts(sp, n, before, input, at, c);
    InStepFacts(s, before, input, at, end);
    var p, all, left := at + c.insertLen, SplitWord(sp, n, c, w) + rest, DistanceWord(sp, n, w) + rest;
    WordParts(sp, n, c, w, rest);
    var u := ReadsSplitHead(h, sp, s, n, before, input, at, end, c, w, left, room);
    LeadsSane(h, s, all, room, u, left, room - c.insertLen);
    BeginsCopy(h, u, before, input, p, c);
    var phase := Begun(u, c, input[p..p + c.copyLen], Reach(h, u.flat));
    BegunIs(u, c, input[p..p + c.copyLen], Reach(h, u.flat));
    var m := Cursors(n.literals + c.insertLen, n.commands + 1, n.distances);
    AfterIs(sp, n, c, w, m);
    var v := ReadsSplitDistance(h, sp, u, m, c, w, phase, rest, room - c.insertLen);
    LeadsSane(h, u, left, room - c.insertLen, v, rest, room - c.insertLen);
    Executed(h, v, before, input, p, c, rest, room - c.insertLen);
    t := v.(flat := Upto(before, input, p + c.copyLen), remaining := v.remaining - c.copyLen, phase := Command);
    OtherPhase(sp, After(n, c, w), v, t);
    LeadsThen(h, u, left, room - c.insertLen, v, rest, room - c.insertLen, t, rest, room - c.insertLen - c.copyLen);
    LeadsThen(h, s, all, room, u, left, room - c.insertLen, t, rest, room - c.insertLen - c.copyLen);
    InStepAgain(sp, After(n, c, w), t, before, input, p + c.copyLen, end);
  }

  lemma BegunIs(s: State, c: StreamCommand, bytes: seq<Byte>, reach: nat)
    ensures Begun(s, c, bytes, reach).Copying? <==> c.distance <= reach
    ensures forall other :: Begun(other, c, bytes, reach) == Begun(s, c, bytes, reach)
  {
  }

  lemma AfterIs(sp: Splits, n: Cursors, c: StreamCommand, w: Wire, m: Cursors)
    requires m == Cursors(n.literals + c.insertLen, n.commands + 1, n.distances) && HasWords(sp, n, c, w)
    ensures DistanceWord(sp, m, w) == DistanceWord(sp, n, w)
    ensures m.(distances := m.distances + if w.distance.Some? then 1 else 0) == After(n, c, w)
  {
  }

  lemma InStepAgain(sp: Splits, n: Cursors, t: State, before: seq<Byte>, input: seq<Byte>, at: nat, end: nat)
    requires AtCursors(sp, n, t) && t.phase.Command? && at <= end <= |input| && t.flat == Upto(before, input, at)
    requires t.remaining == end - at
    ensures InStep(t, before, input, at, end, t.ring)
  {
    hide IsAt, Upto;
  }

  /** Whatever the splits, as long as the streams are the commands': the decoder executes the interleaved words and
      extra bits to exactly the block, with the encoder's ring, and takes no bit more. */
  lemma {:induction false} ReadsSplitBody(h: Header, sp: Splits, s: State, n: Cursors, before: seq<Byte>,
                                          input: seq<Byte>, at: nat, end: nat, commands: seq<StreamCommand>,
                                          rest: seq<bool>, room: nat) returns (t: State)
    requires Sane(h, s) && ReadsSplits(h, sp) && AtCursors(sp, n, s) && InStep(s, before, input, at, end, s.ring)
    requires Executes(h.words, h.windowSize, before, input, at, commands, end, s.ring) && end - at <= room
    requires AllAhead(sp, n, before, input, at, commands)
    ensures end <= |input|
    ensures SameButBlocks(EndState(s, before, input, end, RingAtEnd(s.ring, |before| + at, commands, h.windowSize)), t)
    ensures Run(h, s, SplitBits(sp, n, before, input, at, commands) + rest, room) == Stop(t, rest, Done)
    decreases |commands|
  {
    hide Sane, ReadsSplits, AtCursors, AllAhead, CommandAhead, Upto, Run, RingAfter, Reproduces, Named, ReachAt,
         Encodable, Encoded, HasWords, SplitWord;
    if commands == [] {
      Finishes(h, s, rest, room);
      assert [] + rest == rest;
      t := s.(phase := Finished);
    } else {
      AllAheadNext(sp, n, before, input, at, commands);
      var c := commands[0];
      var w := Encoded(c, sp.direct, sp.postfix);
      if c.copyLen == 0 {
        t := ReadsSplitTail(h, sp, s, n, before, input, at, end, commands, c, w, rest, room);
      } else {
        var next := at + c.insertLen + c.copyLen;
        ExecutesWithin(h.words, h.windowSize, before, input, next, commands[1..], end,
                       RingAfter(s.ring, c, ReachAt(|before| + at + c.insertLen, h.windowSize)));
        var first, more := SplitWord(sp, n, c, w), SplitBits(sp, After(n, c, w), before, input, next, commands[1..]);
        var u := ReadsSplitCopyCommand(h, sp, s, n, before, input, at, end, c, w, more + rest, room);
        LeadsSame(h, s, first + (more + rest), room, u, more + rest, room - c.insertLen - c.copyLen);
        t := ReadsSplitBody(h, sp, u, After(n, c, w), before, input, next, end, commands[1..], rest,
                            room - c.insertLen - c.copyLen);
        assert first + more + rest == first + (more + rest);
        assert |before| + at + c.insertLen + c.copyLen == |before| + next;
      }
    }
  }

  /** Literals only, to the block's end. */
  lemma ReadsSplitTail(h: Header, sp: Splits, s: State, n: Cursors, before: seq<Byte>, input: seq<Byte>, at: nat,
                       end: nat, commands: seq<StreamCommand>, c: StreamCommand, w: Wire, rest: seq<bool>, room: nat)
    returns (t: State)
    requires Sane(h, s) && ReadsSplits(h, sp) && AtCursors(sp, n, s) && InStep(s, before, input, at, end, s.ring)
    requires Executes(h.words, h.windowSize, before, input, at, commands, end, s.ring) && end - at <= room
    requires AllAhead(sp, n, before, input, at, commands) && commands != [] && c == commands[0] && c.copyLen == 0
    requires CommandAhead(sp, n, before, input, at, c) && Encodable(c, sp.direct, sp.postfix)
    requires w == Encoded(c, sp.direct, sp.postfix) && HasWords(sp, n, c, w)
    ensures end <= |input|
    ensures SameButBlocks(EndState(s, before, input, end, RingAtEnd(s.ring, |before| + at, commands, h.windowSize)), t)
    ensures Run(h, s, SplitBits(sp, n, before, input, at, commands) + rest, room) == Stop(t, rest, Done)
  {
    hide *;
    InStepFacts(s, before, input, at, end);
    OnlyLiterals(h.words, h.windowSize, before, input, at, end, commands, s.ring);
    AheadFacts(sp, n, before, input, at, c);
    TailBits(sp, n, before, input, at, commands);
    NoCopyNoDistance(c, sp.direct, sp.postfix);
    WordParts(sp, n, c, w, rest);
    NoDistanceWord(sp, n, w, rest);
    var u := ReadsSplitHead(h, sp, s, n, before, input, at, end, c, w, rest, room);
    LeadsSame(h, s, SplitWord(sp, n, c, w) + rest, room, u, rest, room - c.insertLen);
    Finishes(h, u, rest, room - c.insertLen);
    t := u.(phase := Finished);
    EndsSo(s, t, before, input, end, s.ring);
  }

  lemma OnlyLiterals(words: Words, window: nat, before: seq<Byte>, input: seq<Byte>, at: nat, end: nat,
                     commands: seq<StreamCommand>, ring: Ring)
    requires Executes(words, window, before, input, at, commands, end, ring) && commands != []
    requires commands[0].copyLen == 0
    ensures at + commands[0].insertLen == end && commands[0].insertLen > 0 && |commands| == 1
    ensures RingAtEnd(ring, |before| + at, commands, window) == ring
  {
    hide Reproduces, Named;
  }

  lemma TailBits(sp: Splits, n: Cursors, before: seq<Byte>, input: seq<Byte>, at: nat, commands: seq<StreamCommand>)
    requires AllAhead(sp, n, before, input, at, commands) && |commands| == 1
    requires Encodable(commands[0], sp.direct, sp.postfix)
    requires HasWords(sp, n, commands[0], Encoded(commands[0], sp.direct, sp.postfix))
    ensures SplitBits(sp, n, before, input, at, commands) ==
            SplitWord(sp, n, commands[0], Encoded(commands[0], sp.direct, sp.postfix))
  {
    AllAheadNext(sp, n, before, input, at, commands);
    hide AllAhead, Encodable, Encoded, HasWords, SplitWord;
    var word := SplitWord(sp, n, commands[0], Encoded(commands[0], sp.direct, sp.postfix));
    assert word + [] == word;
  }

  lemma NoCopyNoDistance(c: StreamCommand, direct: nat, postfix: nat)
    requires Encodable(c, direct, postfix) && c.copyLen == 0
    ensures Encoded(c, direct, postfix).distance.None?
  {
    hide CodeOf, Combine;
  }

  lemma EndsSo(s: State, t: State, before: seq<Byte>, input: seq<Byte>, end: nat, ring: Ring)
    requires end <= |input| && ring == s.ring && t.flat == Upto(before, input, end) && t.remaining == 0
    requires t == s.(literalBlocks := t.literalBlocks, commandBlocks := t.commandBlocks, flat := t.flat,
                     remaining := t.remaining, phase := Finished)
    ensures SameButBlocks(EndState(s, before, input, end, ring), t)
  {
    hide Upto;
  }
}
