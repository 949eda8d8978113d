/** Commands on the wire and in the decoder: the bits written for commands that tile a block with literals,
    copies and dictionary words make the decoder write that block, and leave both distance rings equal
    (`src/encode/fragment.rs`, `src/encode/greedy.rs` against `src/decode/compressed_block.rs`). */
module CommandStream {
  import opened Arithmetic
  import opened Bytes
  import opened BitStream
  import opened ComplexPrefixDecoder
  import opened HistoryRing
  import opened Distances
  import opened Commands
  import opened Dictionary
  import opened BlockStates
  import opened BlockMachine
  import opened CompressedBlock
  import opened PrefixReading
  import opened Outcomes

  /** Code lengths of the three alphabets, and how distances are coded. */
  datatype Codes = Codes(literals: seq<nat>, commands: seq<nat>, distances: seq<nat>, direct: nat, postfix: nat)

  /** Literals and then a copy of so many bytes; a dictionary word's copy code is the word's length. The
      last command of a block may have no copy. */
  datatype StreamCommand = StreamCommand(insertLen: nat, copyLen: nat, copyCode: nat, distance: nat, distanceCode: nat)

  /** A command as symbols and extra bits. */
  datatype Wire = Wire(symbol: nat, insert: LengthCode, copy: LengthCode, distance: Option<DistanceCode>)

  /** Lengths and distance have codes. */
  predicate Encodable(c: StreamCommand, direct: nat, postfix: nat)
  {
    c.insertLen < Insert.Limit() &&
    (c.copyLen > 0 ==> Copy.Base(0) <= c.copyCode < Copy.Limit() && 0 < c.distance < TooFar(direct, postfix))
  }

  const TAIL_COPY_LENGTH: nat := 4

  lemma TailHasCode()
    ensures Copy.Base(0) <= TAIL_COPY_LENGTH < Copy.Limit()
  {
  }

  /** The command's symbols: literals at the end carry a copy length that is never used; a copy at the
      last distance may leave the distance out. */
  function Encoded(c: StreamCommand, direct: nat, postfix: nat): Wire
    requires Encodable(c, direct, postfix)
  {
    var insert := CodeOf(Insert, c.insertLen);
    if c.copyLen == 0 then
      TailHasCode();
      var copy := CodeOf(Copy, TAIL_COPY_LENGTH);
      Wire(Combine(insert.code, copy.code, false), insert, copy, None)
    else
      var copy := CodeOf(Copy, c.copyCode);
      var symbol := Combine(insert.code, copy.code, c.distanceCode == 0);
      Wire(symbol, insert, copy, if symbol >= 128 then Some(ForCode(c.distanceCode, direct, postfix)) else None)
  }

  /** How far back a copy at a position of the stream may reach. */
  function ReachAt(position: nat, window: nat): nat
  {
    Min(position, window)
  }

  /** The ring remembers every distance within reach but the last one again. */
  function RingAfter(ring: Ring, c: StreamCommand, reach: nat): Ring
  {
    if c.copyLen == 0 || c.distanceCode == 0 || c.distance > reach then ring else ring.Pushed(c.distance)
  }

  function RingAtEnd(ring: Ring, position: nat, commands: seq<StreamCommand>, window: nat): Ring
    decreases |commands|
  {
    if commands == [] then ring
    else
      var c := commands[0];
      RingAtEnd(RingAfter(ring, c, ReachAt(position + c.insertLen, window)), position + c.insertLen + c.copyLen,
                commands[1..], window)
  }

  predicate HasCode(lengths: seq<nat>, symbol: nat)
  {
    symbol < |lengths| && lengths[symbol] > 0
  }

  predicate HaveCodes(lengths: seq<nat>, bytes: seq<Byte>)
  {
    forall i :: 0 <= i < |bytes| ==> HasCode(lengths, bytes[i])
  }

  predicate WireHasCodes(codes: Codes, w: Wire)
  {
    HasCode(codes.commands, w.symbol) && (w.distance.Some? ==> HasCode(codes.distances, w.distance.value.symbol))
  }

  /** Every symbol a command needs is in its code. */
  ghost predicate CommandHasCodes(codes: Codes, input: seq<Byte>, at: nat, c: StreamCommand)
  {
    && Encodable(c, codes.direct, codes.postfix) && at + c.insertLen <= |input|
    && HaveCodes(codes.literals, input[at..at + c.insertLen])
    && WireHasCodes(codes, Encoded(c, codes.direct, codes.postfix))
  }

  /** And so for all commands. */
  ghost predicate Writable(codes: Codes, input: seq<Byte>, at: nat, commands: seq<StreamCommand>)
    decreases |commands|
  {
    commands != [] ==>
      var c := commands[0];
      CommandHasCodes(codes, input, at, c) && Writable(codes, input, at + c.insertLen + c.copyLen, commands[1..])
  }

  function LiteralBits(lengths: seq<nat>, bytes: seq<Byte>): seq<bool>
    requires HaveCodes(lengths, bytes)
  {
    if bytes == [] then [] else SymbolWord(lengths, bytes[0]) + LiteralBits(lengths, bytes[1..])
  }

  function ExtraBits(c: LengthCode): seq<bool>
  {
    Lsb(c.extra, c.extraBits)
  }

  function DistanceBits(codes: Codes, w: Wire): seq<bool>
    requires WireHasCodes(codes, w)
  {
    match w.distance
    case None => []
    case Some(d) => SymbolWord(codes.distances, d.symbol) + Lsb(d.extra, d.extraBits)
  }

  /** Command symbol, extra bits of both lengths, literals, distance. */
  function WireBits(codes: Codes, w: Wire, bytes: seq<Byte>): seq<bool>
    requires WireHasCodes(codes, w) && HaveCodes(codes.literals, bytes)
  {
    SymbolWord(codes.commands, w.symbol) + ExtraBits(w.insert) + ExtraBits(w.copy) +
      LiteralBits(codes.literals, bytes) +
    DistanceBits(codes, w)
  }

  ghost function CommandBits(codes: Codes, input: seq<Byte>, at: nat, c: StreamCommand): seq<bool>
    requires CommandHasCodes(codes, input, at, c)
  {
    WireBits(codes, Encoded(c, codes.direct, codes.postfix), input[at..at + c.insertLen])
  }

  /** What is written for the commands. */
  ghost function BodyBits(codes: Codes, input: seq<Byte>, at: nat, commands: seq<StreamCommand>): seq<bool>
    requires Writable(codes, input, at, commands)
    decreases |commands|
  {
    if commands == [] then []
    else
      var c := commands[0];
      CommandBits(codes, input, at, c) + BodyBits(codes, input, at + c.insertLen + c.copyLen, commands[1..])
  }

  /** A metablock with one block type and one tree of each kind, for these code lengths. */
  ghost predicate ReadsCodes(h: Header, codes: Codes)
  {
    && h.literals.numTypes == 1 && h.commands.numTypes == 1 && h.distances.numTypes == 1
    && h.directCodes == codes.direct && h.postfixBits == codes.postfix
    && (forall a, b :: CodeFor(h.literalTree(0, a, b), codes.literals)) && CodeFor(h.commandTree(0), codes.commands)
    && (forall k :: CodeFor(h.distanceTree(0, k), codes.distances))
  }

  /** No codeword is half read. */
  predicate Whole(s: State)
  {
    s.literalSearch == NoSearch() && s.commandSearch == NoSearch() && s.distanceSearch == NoSearch()
  }

  /** Running from one state on some bits is running from another on others. */
  ghost predicate Leads(h: Header, s: State, bits: seq<bool>, room: nat, t: State, left: seq<bool>, less: nat)
  {
    Sane(h, s) && Sane(h, t) && Run(h, s, bits, room) == Run(h, t, left, less)
  }

  /** A step that writes nothing, on its own bits. */
  lemma TakesBits(h: Header, s: State, bits: seq<bool>, rest: seq<bool>, room: nat, t: State)
    requires Sane(h, s) && !s.phase.Finished? && !NeedsRoom(s) && |bits| == BitsNeeded(h, s)
    requires Step(h, s, bits) == Ok(t) && t.flat == s.flat
    ensures Leads(h, s, bits + rest, room, t, rest, room)
  {
    hide Sane, Step, BitsNeeded, NeedsRoom, Run;
    assert (bits + rest)[..|bits|] == bits && (bits + rest)[|bits|..] == rest;
    OneStep(h, s, bits + rest, room);
  }

  lemma TakesNone(h: Header, s: State, rest: seq<bool>, room: nat, t: State)
    requires Sane(h, s) && !s.phase.Finished? && !NeedsRoom(s) && BitsNeeded(h, s) == 0
    requires Step(h, s, []) == Ok(t) && t.flat == s.flat
    ensures Leads(h, s, rest, room, t, rest, room)
  {
    hide Sane, Step, BitsNeeded, NeedsRoom, Leads;
    TakesBits(h, s, [], rest, room, t);
    assert [] + rest == rest;
  }

  /** A codeword read in the machine. */
  lemma ReadsSymbol(h: Header, s: State, lengths: seq<nat>, symbol: nat, rest: seq<bool>, room: nat)
    requires Sane(h, s) && Reading(s) && (NeedsRoom(s) ==> room > 0) && Ready(ActivePartition(h, s), ActiveBlocks(s))
    requires ActiveSearch(s) == NoSearch() && CodeFor(ActiveCode(h, s), lengths) && HasCode(lengths, symbol)
    ensures Accepted(h, s, SymbolWord(lengths, symbol) + rest, room, Accept(h, s, symbol), rest)
  {
    hide Sane, Reading, NeedsRoom, Ready, ActiveSearch, ActiveCode, CodeFor, Accept, Accepted, SymbolRun, Run,
         WithSearch, SymbolWord;
    PrefixReading.SymbolRoundTrip(ActiveCode(h, s), lengths, symbol, rest);
    ReadingSymbol(h, s, SymbolWord(lengths, symbol) + rest, room);
    SameSearching(h, s, NoSearch());
  }

  /** A command's symbol. */
  lemma ReadsCommand(h: Header, codes: Codes, s: State, symbol: nat, rest: seq<bool>, room: nat)
    requires Sane(h, s) && ReadsCodes(h, codes) && Whole(s) && s.phase.Command? && s.remaining > 0
    requires HasCode(codes.commands, symbol) && symbol < COMMAND_SYMBOL_COUNT
    ensures Leads(h, s, SymbolWord(codes.commands, symbol) + rest, room,
                  s.(phase := CommandExtra(FromSymbol(symbol), None)), rest, room)
  {
    hide Sane, CodeFor, FromSymbol, SymbolWord, Run, HasCode;
    ReadsSymbol(h, s, codes.commands, symbol, rest, room);
  }

  /** The spec the decoder gets for a command, and the lengths its extra bits complete. */
  predicate Announces(spec: CommandSpec, insert: LengthCode, copy: LengthCode)
  {
    && spec.insertCode == insert.code < LENGTH_CODES && spec.copyCode == copy.code < LENGTH_CODES
    && insert.extraBits == Insert.Bits(insert.code) && copy.extraBits == Copy.Bits(copy.code)
    && insert.extra < Pow2(insert.extraBits) && copy.extra < Pow2(copy.extraBits)
  }

  lemma ReadsInsert(h: Header, s: State, insert: LengthCode, copy: LengthCode, rest: seq<bool>, room: nat)
    requires Sane(h, s) && s.phase.CommandExtra? && s.phase.insert == None && Announces(s.phase.spec, insert, copy)
    ensures Leads(h, s, ExtraBits(insert) + rest, room,
                  s.(phase := CommandExtra(s.phase.spec, Some(Insert.Base(insert.code) + insert.extra))), rest, room)
  {
    ValueOfLsb(insert.extra, insert.extraBits);
    hide Sane, Pow2, Lengths.Base, Lengths.Bits, FromLsb, Lsb;
    TakesBits(h, s, ExtraBits(insert), rest, room, s.(phase := CommandExtra(s.phase.spec,
        Some(Insert.Base(insert.code) + insert.extra))));
  }

  lemma ReadsCopy(h: Header, s: State, insert: LengthCode, copy: LengthCode, rest: seq<bool>, room: nat)
    requires Sane(h, s) && s.phase.CommandExtra? && s.phase.insert.Some? && Announces(s.phase.spec, insert, copy)
    requires s.phase.insert.value <= s.remaining
    ensures Leads(h, s, ExtraBits(copy) + rest, room,
                  s.(phase := Literals(s.phase.insert.value, Copy.Base(copy.code) + copy.extra,
                                       s.phase.spec.implicitDistanceZero)), rest, room)
  {
    ValueOfLsb(copy.extra, copy.extraBits);
    hide Sane, Pow2, Lengths.Base, Lengths.Bits, FromLsb, Lsb;
    TakesBits(h, s, ExtraBits(copy), rest, room,
              s.(phase := Literals(s.phase.insert.value, Copy.Base(copy.code) + copy.extra,
                                   s.phase.spec.implicitDistanceZero)));
  }

  /** One literal. */
  lemma ReadsLiteral(h: Header, codes: Codes, s: State, b: Byte, rest: seq<bool>, room: nat)
    requires Sane(h, s) && ReadsCodes(h, codes) && Whole(s) && s.phase.Literals? && s.phase.count > 0 &&
             s.remaining > 0 && room > 0
    requires HasCode(codes.literals, b)
    ensures Leads(h, s, SymbolWord(codes.literals, b) + rest, room,
                  s.(flat := s.flat + [b], remaining := s.remaining - 1,
                     phase := Literals(s.phase.count - 1, s.phase.copyLength, s.phase.implicit)), rest, room - 1)
  {
    hide Sane, CodeFor, SymbolWord, Run, HasCode;
    ReadsSymbol(h, s, codes.literals, b, rest, room);
  }

  /** All literals of a command. */
  lemma {:induction false} ReadsLiterals(h: Header, codes: Codes, s: State, bytes: seq<Byte>, rest: seq<bool>,
                                         room: nat)
    requires Sane(h, s) && ReadsCodes(h, codes) && Whole(s) && s.phase.Literals? && s.phase.count == |bytes|
    requires |bytes| <= s.remaining && |bytes| <= room && HaveCodes(codes.literals, bytes)
    ensures Leads(h, s, LiteralBits(codes.literals, bytes) + rest, room,
                  s.(flat := s.flat + bytes, remaining := s.remaining - |bytes|,
                     phase := Literals(0, s.phase.copyLength, s.phase.implicit)), rest, room - |bytes|)
    decreases |bytes|
  {
    hide Sane, ReadsCodes, Run, SymbolWord;
    if bytes == [] {
      assert s.flat + [] == s.flat && [] + rest == rest;
    } else {
      var b, tail := bytes[0], bytes[1..];
      var t := s.(flat := s.flat + [b], remaining := s.remaining - 1,
                  phase := Literals(s.phase.count - 1, s.phase.copyLength, s.phase.implicit));
      var more := LiteralBits(codes.literals, tail) + rest;
      ReadsLiteral(h, codes, s, b, more, room);
      ReadsLiterals(h, codes, t, tail, rest, room - 1);
      assert LiteralBits(codes.literals, bytes) + rest == SymbolWord(codes.literals, b) + more;
      assert t.flat + tail == s.flat + bytes by {
        assert bytes == [b] + tail;
      }
    }
  }

  /** What the decoder has written so far is what came before the input and a part of it. */
  function Upto(before: seq<Byte>, input: seq<Byte>, at: nat): (flat: seq<Byte>)
    requires at <= |input|
    ensures |flat| == |before| + at
  {
    before + input[..at]
  }

  lemma UptoGrows(before: seq<Byte>, input: seq<Byte>, at: nat, n: nat)
    requires at + n <= |input|
    ensures Upto(before, input, at) + input[at..at + n] == Upto(before, input, at + n)
  {
  }

  /** The command's bytes are literals or, from `p` on, a copy within reach or a dictionary word beyond it. */
  ghost predicate Reproduces(words: Words, window: nat, before: seq<Byte>, input: seq<Byte>, p: nat, c: StreamCommand)
  {
    var whole := before + input;
    && 0 < c.copyLen && p + c.copyLen <= |input| && c.distance > 0
    && if c.distance <= ReachAt(|before| + p, window) then c.copyCode == c.copyLen
    && TrueCopy(whole, |before| + p, c.distance, c.copyLen)
       else Transform(words, c.distance, c.copyCode, ReachAt(|before| + p, window)) == Ok(input[p..p + c.copyLen])
  }

  /** What begins: a copy, or a word. */
  function Begun(s: State, c: StreamCommand, bytes: seq<Byte>, reach: nat): Phase
  {
    if c.distance <= reach then Copying(c.copyLen, c.distance) else DictionaryWord(bytes, 0)
  }

  lemma BeginsCopy(h: Header, s: State, before: seq<Byte>, input: seq<Byte>, p: nat, c: StreamCommand)
    requires Reproduces(h.words, h.windowSize, before, input, p, c) && c.copyLen <= s.remaining &&
             s.flat == Upto(before, input, p)
    ensures Reach(h, s.flat) == ReachAt(|before| + p, h.windowSize)
    ensures BeginCopy(h, s, c.copyCode, c.distance) == Ok(s.(phase := Begun(s, c, input[p..p + c.copyLen],
            Reach(h, s.flat))))
  {
    hide Transform, Upto, TrueCopy;
  }

  /** The distance left out is the last one. */
  lemma ReadsImplicit(h: Header, s: State, distance: nat, phase: Phase, rest: seq<bool>, room: nat)
    requires Sane(h, s) && s.phase.Literals? && s.phase.count == 0 && s.phase.implicit && distance == s.ring.last &&
             s.remaining > 0
    requires BeginCopy(h, s, s.phase.copyLength, distance) == Ok(s.(phase := phase))
    ensures Leads(h, s, rest, room, s.(phase := phase), rest, room)
  {
    hide Sane, BeginCopy;
    TakesNone(h, s, rest, room, s.(phase := phase));
  }

  /** What the encoder's code for a distance means to the decoder. */
  predicate Names(h: Header, ring: Ring, d: DistanceCode, distance: nat, pushed: bool)
  {
    && d.extraBits == ExtraBitsRead(d.symbol, h.directCodes, h.postfixBits) && d.extra < Pow2(d.extraBits)
    && Decoded(ring, d.symbol, d.extra, h.directCodes, h.postfixBits) == Ok(Distance(distance, pushed))
  }

  /** The symbol of a distance, before its extra bits. */
  lemma ReadsDistanceSymbol(h: Header, codes: Codes, s: State, d: DistanceCode, distance: nat, pushed: bool,
                            rest: seq<bool>, room: nat)
    returns (pending: Pending)
    requires Sane(h, s) && ReadsCodes(h, codes) && Whole(s) && s.phase.DistanceSymbol? &&
             HasCode(codes.distances, d.symbol)
    requires Names(h, s.ring, d, distance, pushed)
    ensures pending == if d.extraBits > 0 then Extra(d.symbol) else Resolved(Distance(distance, pushed))
    ensures Leads(h, s, SymbolWord(codes.distances, d.symbol) + rest, room,
                  s.(phase := DistanceExtra(s.phase.copyLength, pending)), rest, room)
  {
    hide Sane, CodeFor, SymbolWord, Run, HasCode, ExtraBitsRead, AlphabetSize, ResolveShort, FromExtra;
    pending := if d.extraBits > 0 then Extra(d.symbol) else Resolved(Distance(distance, pushed));
    ReadsSymbol(h, s, codes.distances, d.symbol, rest, room);
    InAlphabet(h, s.ring, d);
    assert Pow2(0) == 1;
    hide Decoded, Pow2;
  }

  lemma InAlphabet(h: Header, ring: Ring, d: DistanceCode)
    requires Decoded(ring, d.symbol, d.extra, h.directCodes, h.postfixBits).Ok?
    ensures d.symbol < AlphabetSize(h.directCodes, h.postfixBits)
  {
    hide AlphabetSize, ResolveShort, FromExtra;
  }

  /** And its extra bits: the copy begins, and the ring remembers the distance if it is one of the window
      and not the last one again. */
  lemma ReadsDistanceExtra(h: Header, s: State, d: DistanceCode, distance: nat, pushed: bool, phase: Phase,
                           rest: seq<bool>, room: nat)
    requires Sane(h, s) && s.phase.DistanceExtra? && BeginCopy(h, s, s.phase.copyLength, distance) ==
             Ok(s.(phase := phase))
    requires s.phase.pending == if d.extraBits > 0 then Extra(d.symbol) else Resolved(Distance(distance, pushed))
    requires Names(h, s.ring, d, distance, pushed)
    ensures Leads(h, s, Lsb(d.extra, d.extraBits) + rest, room,
                  s.(phase := phase, ring := if pushed && phase.Copying? then s.ring.Pushed(distance) else s.ring),
                    rest, room)
  {
    var bits := Lsb(d.extra, d.extraBits);
    ValueOfLsb(d.extra, d.extraBits);
    if d.extraBits > 0 {
      ExtraSymbol(h, s.ring, d, distance, pushed);
    }
    hide Sane, BeginCopy, Decoded, AlphabetSize, FromExtra, Lsb, FromLsb, Pow2, ExtraBitsRead;
    TakesBits(h, s, bits, rest, room, s.(phase := phase, ring := if pushed && phase.Copying? then
                                         s.ring.Pushed(distance) else s.ring));
  }

  lemma ExtraSymbol(h: Header, ring: Ring, d: DistanceCode, distance: nat, pushed: bool)
    requires Names(h, ring, d, distance, pushed) && d.extraBits > 0
    ensures d.symbol >= SHORT_CODE_COUNT + h.directCodes && pushed
    ensures FromExtra(d.symbol, d.extra, h.directCodes, h.postfixBits) == distance
  {
    hide FromExtra, AlphabetSize, ExtraBitsOf, ResolveShort;
  }

  /** A true copy is what the decoder's overlapping copy produces. */
  lemma CopyReproduces(before: seq<Byte>, input: seq<Byte>, at: nat, distance: nat, n: nat)
    requires at + n <= |input| && TrueCopy(before + input, |before| + at, distance, n)
    ensures OverlappingCopy(Upto(before, input, at), distance, n) == Upto(before, input, at + n)
  {
    var flat, r := Upto(before, input, at), Upto(before, input, at + n);
    var whole := before + input;
    assert flat == whole[..|before| + at] && r == whole[..|before| + at + n];
    forall i | |flat| <= i < |r|
      ensures r[i] == r[i - distance]
    {
      assert whole[i] == whole[i - distance];
    }
    assert r[..|flat|] == flat;
    PeriodicIsCopy(flat, distance, n, r);
  }

  /** The copy itself, up to the next command. */
  lemma Copies(h: Header, s: State, before: seq<Byte>, input: seq<Byte>, at: nat, rest: seq<bool>, room: nat)
    requires Sane(h, s) && s.phase.Copying? && at + s.phase.count <= |input|
    requires TrueCopy(before + input, |before| + at, s.phase.distance, s.phase.count)
    requires s.flat == Upto(before, input, at) && s.phase.count <= s.remaining && s.phase.count <= room
    ensures Leads(h, s, rest, room,
                  s.(flat := Upto(before, input, at + s.phase.count), remaining := s.remaining - s.phase.count,
                     phase := Command),
                  rest, room - s.phase.count)
  {
    hide Sane, Run, Upto, Copied;
    var n := s.phase.count;
    CopyReproduces(before, input, at, s.phase.distance, n);
    CopiedIs(s, before, input, at);
    hide TrueCopy;
    CopyRun(h, s, rest, room, n);
    var t := s.(flat := Upto(before, input, at + n), remaining := s.remaining - n,
                phase := Copying(0, s.phase.distance));
    TakesNone(h, t, rest, room - n, t.(phase := Command));
  }

  lemma CopiedIs(s: State, before: seq<Byte>, input: seq<Byte>, at: nat)
    requires s.phase.Copying? && at + s.phase.count <= |input| && 0 < s.phase.distance <= |s.flat|
    requires s.flat == Upto(before, input, at) && s.phase.count <= s.remaining
    requires OverlappingCopy(s.flat, s.phase.distance, s.phase.count) == Upto(before, input, at + s.phase.count)
    ensures Copied(s, s.phase.count) == s.(flat := Upto(before, input, at + s.phase.count),
                                           remaining := s.remaining - s.phase.count,
                                           phase := Copying(0, s.phase.distance))
  {
    hide OverlappingCopy;
  }

  /** A dictionary word, up to the next command. */
  lemma Drains(h: Header, s: State, before: seq<Byte>, input: seq<Byte>, at: nat, n: nat, rest: seq<bool>, room: nat)
    requires Sane(h, s) && at + n <= |input| && s.phase == DictionaryWord(input[at..at + n], 0) &&
             0 < n <= s.remaining && n <= room
    requires s.flat == Upto(before, input, at)
    ensures Leads(h, s, rest, room, s.(flat := Upto(before, input, at + n), remaining := s.remaining - n,
                                       phase := Command), rest, room - n)
  {
    UptoGrows(before, input, at, n);
    var bytes := input[at..at + n];
    assert bytes[0..n] == bytes;
    hide Sane, Run, Upto;
    WordRun(h, s, rest, room, n);
    assert Drained(s, n) == s.(flat := Upto(before, input, at + n), remaining := s.remaining - n, phase := Command);
  }

  /** Nothing remains: the metablock is finished. */
  lemma Finishes(h: Header, s: State, rest: seq<bool>, room: nat)
    requires Sane(h, s) && s.remaining == 0 && (s.phase.Command? || (s.phase.Literals? && s.phase.count == 0))
    ensures Run(h, s, rest, room) == Stop(s.(phase := Finished), rest, Done)
  {
    var t := s.(phase := Finished);
    hide Sane;
    TakesNone(h, s, rest, room, t);
  }

  lemma CodesAnnounced(c: StreamCommand, direct: nat, postfix: nat)
    requires Encodable(c, direct, postfix)
    ensures var w := Encoded(c, direct, postfix);
            && w.symbol < COMMAND_SYMBOL_COUNT && w.copy.code < LENGTH_CODES
            && Announces(FromSymbol(w.symbol), w.insert, w.copy)
            && Insert.Base(w.insert.code) + w.insert.extra == c.insertLen
            && (c.copyLen > 0 ==> Copy.Base(w.copy.code) + w.copy.extra == c.copyCode)
            && (w.distance.None? && c.copyLen > 0 <==> FromSymbol(w.symbol).implicitDistanceZero)
            && (w.distance.None? && c.copyLen > 0 ==> c.distanceCode == 0)
  {
    hide Combine, FromSymbol, CodeFrom, Lengths.Base, Lengths.Bits, Pow2, ForCode, Lengths.Limit;
    var w := Encoded(c, direct, postfix);
    TailHasCode();
    var last := c.copyLen > 0 && c.distanceCode == 0;
    Commands.SymbolRoundTrip(w.insert.code, w.copy.code, last);
    ImplicitBelow128(w.insert.code, w.copy.code, last);
  }

  /** Both lengths of a command. */
  lemma ReadsLengths(h: Header, s: State, insert: LengthCode, copy: LengthCode, rest: seq<bool>, room: nat)
    requires Sane(h, s) && s.phase.CommandExtra? && s.phase.insert == None && Announces(s.phase.spec, insert, copy)
    requires Insert.Base(insert.code) + insert.extra <= s.remaining
    ensures Leads(h, s, ExtraBits(insert) + (ExtraBits(copy) + rest), room,
                  s.(phase := Literals(Insert.Base(insert.code) + insert.extra, Copy.Base(copy.code) + copy.extra,
                                       s.phase.spec.implicitDistanceZero)), rest, room)
  {
    hide Sane, ExtraBits, Lengths.Base, Lengths.Bits, Run, Pow2;
    var more := ExtraBits(copy) + rest;
    var t := s.(phase := CommandExtra(s.phase.spec, Some(Insert.Base(insert.code) + insert.extra)));
    ReadsInsert(h, s, insert, copy, more, room);
    ReadsCopy(h, t, insert, copy, rest, room);
  }

  /** The lengths, then the literals. */
  lemma ReadsInserted(h: Header, codes: Codes, s: State, insert: LengthCode, copy: LengthCode, bytes: seq<Byte>,
                      rest: seq<bool>, room: nat)
    requires Sane(h, s) && ReadsCodes(h, codes) && Whole(s) && s.phase.CommandExtra? && s.phase.insert == None
    requires Announces(s.phase.spec, insert, copy) && HaveCodes(codes.literals, bytes)
    requires Insert.Base(insert.code) + insert.extra == |bytes| && |bytes| <= s.remaining && |bytes| <= room
    ensures Leads(h, s, ExtraBits(insert) + (ExtraBits(copy) + (LiteralBits(codes.literals, bytes) + rest)), room,
                  s.(flat := s.flat + bytes, remaining := s.remaining - |bytes|,
                     phase := Literals(0, Copy.Base(copy.code) + copy.extra, s.phase.spec.implicitDistanceZero)), rest,
                       room - |bytes|)
  {
    hide Sane, ReadsCodes, Run, ExtraBits, LiteralBits, Lengths.Base, HaveCodes;
    ReadsLengths(h, s, insert, copy, LiteralBits(codes.literals, bytes) + rest, room);
    hide Announces;
    ReadsLiterals(h, codes, s.(phase := Literals(|bytes|, Copy.Base(copy.code) + copy.extra,
                                                 s.phase.spec.implicitDistanceZero)), bytes, rest, room);
  }

  /** The command up to its distance: literals are written, their copy is to come. */
  lemma ReadsHead(h: Header, codes: Codes, s: State, w: Wire, bytes: seq<Byte>, rest: seq<bool>, room: nat)
    requires Sane(h, s) && ReadsCodes(h, codes) && Whole(s) && s.phase.Command? && s.remaining > 0
    requires w.symbol < COMMAND_SYMBOL_COUNT && Announces(FromSymbol(w.symbol), w.insert, w.copy)
    requires Insert.Base(w.insert.code) + w.insert.extra == |bytes| && |bytes| <= s.remaining && |bytes| <= room
    requires WireHasCodes(codes, w) && HaveCodes(codes.literals, bytes)
    ensures Leads(h, s, HeadBits(codes, w, bytes, rest), room, AfterHead(s, w, bytes), rest, room - |bytes|)
  {
    hide Sane, ReadsCodes, Run, SymbolWord, ExtraBits, LiteralBits, Lengths.Base, HaveCodes, FromSymbol, Announces;
    var d := ExtraBits(w.insert) + (ExtraBits(w.copy) + (LiteralBits(codes.literals, bytes) + rest));
    ReadsCommand(h, codes, s, w.symbol, d, room);
    hide HasCode;
    ReadsInserted(h, codes, s.(phase := CommandExtra(FromSymbol(w.symbol), None)), w.insert, w.copy, bytes, rest, room);
  }

  function HeadBits(codes: Codes, w: Wire, bytes: seq<Byte>, rest: seq<bool>): seq<bool>
    requires WireHasCodes(codes, w) && HaveCodes(codes.literals, bytes)
  {
    SymbolWord(codes.commands, w.symbol) + (ExtraBits(w.insert) +
                                            (ExtraBits(w.copy) + (LiteralBits(codes.literals, bytes) + rest)))
  }

  function CopyLengthOf(w: Wire): nat
    requires w.copy.code < LENGTH_CODES
  {
    Copy.Base(w.copy.code) + w.copy.extra
  }

  function AfterHead(s: State, w: Wire, bytes: seq<Byte>): State
    requires |bytes| <= s.remaining && w.symbol < COMMAND_SYMBOL_COUNT && w.copy.code < LENGTH_CODES
  {
    s.(flat := s.flat + bytes, remaining := s.remaining - |bytes|,
       phase := Literals(0, CopyLengthOf(w), FromSymbol(w.symbol).implicitDistanceZero))
  }

  lemma LeadsSane(h: Header, s: State, bits: seq<bool>, room: nat, t: State, left: seq<bool>, less: nat)
    requires Leads(h, s, bits, room, t, left, less)
    ensures Sane(h, s) && Sane(h, t)
  {
  }

  lemma NamesDistance(h: Header, c: StreamCommand, ring: Ring)
    requires Encodable(c, h.directCodes, h.postfixBits) && c.copyLen > 0 && Named(ring, c.distance, c.distanceCode)
    requires Encoded(c, h.directCodes, h.postfixBits).distance.Some?
    ensures Names(h, ring, Encoded(c, h.directCodes, h.postfixBits).distance.value, c.distance, c.distanceCode != 0)
  {
    hide Combine, CodeFrom, ForCode, Decoded, ExtraBitsRead, Pow2, TooFar, Lengths.Limit, Lengths.Base, Named;
    NamedRoundTrip(ring, c.distance, c.distanceCode, h.directCodes, h.postfixBits);
  }

  /** The distance, read or left out: copy or word begins, and the decoder's ring is the encoder's. */
  lemma ReadsDistance(h: Header, codes: Codes, s: State, c: StreamCommand, phase: Phase, rest: seq<bool>, room: nat)
    requires Sane(h, s) && ReadsCodes(h, codes) && Whole(s) && Encodable(c, codes.direct, codes.postfix) &&
             c.copyLen > 0
    requires s.phase == Literals(0, c.copyCode, Encoded(c, codes.direct, codes.postfix).distance.None?) &&
             s.remaining > 0
    requires WireHasCodes(codes, Encoded(c, codes.direct, codes.postfix)) && Named(s.ring, c.distance, c.distanceCode)
    requires BeginCopy(h, s, c.copyCode, c.distance) == Ok(s.(phase := phase))
    requires phase.Copying? <==> c.distance <= Reach(h, s.flat)
    ensures Leads(h, s, DistanceBits(codes, Encoded(c, codes.direct, codes.postfix)) + rest, room,
                  s.(phase := phase, ring := RingAfter(s.ring, c, Reach(h, s.flat))), rest, room)
  {
    hide Sane, ReadsCodes, Encoded, Leads, Encodable, BeginCopy, Reach, Named;
    if Encoded(c, codes.direct, codes.postfix).distance.None? {
      ReadsNoDistance(h, codes, s, c, phase, rest, room);
    } else {
      ReadsSomeDistance(h, codes, s, c, phase, rest, room);
    }
  }

  lemma ReadsNoDistance(h: Header, codes: Codes, s: State, c: StreamCommand, phase: Phase, rest: seq<bool>, room: nat)
    requires Sane(h, s) && Encodable(c, codes.direct, codes.postfix) && c.copyLen > 0 &&
             Encoded(c, codes.direct, codes.postfix).distance.None?
    requires s.phase == Literals(0, c.copyCode, true) && s.remaining > 0 &&
             WireHasCodes(codes, Encoded(c, codes.direct, codes.postfix))
    requires Named(s.ring, c.distance, c.distanceCode) && BeginCopy(h, s, c.copyCode, c.distance) ==
             Ok(s.(phase := phase))
    ensures Leads(h, s, DistanceBits(codes, Encoded(c, codes.direct, codes.postfix)) + rest, room,
                  s.(phase := phase, ring := RingAfter(s.ring, c, Reach(h, s.flat))), rest, room)
  {
    hide Sane, Encoded, Leads, BeginCopy, Reach;
    CodesAnnounced(c, codes.direct, codes.postfix);
    LastDistance(s.ring, c.distance);
    hide Named;
    ReadsImplicit(h, s, c.distance, phase, rest, room);
    assert [] + rest == rest;
  }

  lemma ReadsSomeDistance(h: Header, codes: Codes, s: State, c: StreamCommand, phase: Phase, rest: seq<bool>, room: nat)
    requires Sane(h, s) && ReadsCodes(h, codes) && Whole(s) && Encodable(c, codes.direct, codes.postfix) &&
             c.copyLen > 0
    requires s.phase == Literals(0, c.copyCode, false) && s.remaining > 0 &&
             Encoded(c, codes.direct, codes.postfix).distance.Some?
    requires WireHasCodes(codes, Encoded(c, codes.direct, codes.postfix)) && Named(s.ring, c.distance, c.distanceCode)
    requires BeginCopy(h, s, c.copyCode, c.distance) == Ok(s.(phase := phase))
    requires phase.Copying? <==> c.distance <= Reach(h, s.flat)
    ensures Leads(h, s, DistanceBits(codes, Encoded(c, codes.direct, codes.postfix)) + rest, room,
                  s.(phase := phase, ring := RingAfter(s.ring, c, Reach(h, s.flat))), rest, room)
  {
    hide Sane, ReadsCodes, Names, SymbolWord, Lsb, Encoded, Leads, BeginCopy, Reach, Named;
    SameParameters(h, codes);
    NamesDistance(h, c, s.ring);
    var d := Encoded(c, codes.direct, codes.postfix).distance.value;
    hide Encodable;
    ReadsExplicit(h, codes, s, d, c.distance, c.distanceCode != 0, phase, rest, room);
    assert SymbolWord(codes.distances, d.symbol) + Lsb(d.extra, d.extraBits) + rest ==
           SymbolWord(codes.distances, d.symbol) + (Lsb(d.extra, d.extraBits) + rest);
  }

  lemma SameParameters(h: Header, codes: Codes)
    requires ReadsCodes(h, codes)
    ensures h.directCodes == codes.direct && h.postfixBits == codes.postfix
  {
  }

  lemma LastDistance(ring: Ring, distance: nat)
    requires Named(ring, distance, 0)
    ensures distance == ring.last
  {
  }

  lemma ReadsExplicit(h: Header, codes: Codes, s: State, d: DistanceCode, distance: nat, pushed: bool, phase: Phase,
                      rest: seq<bool>, room: nat)
    requires Sane(h, s) && ReadsCodes(h, codes) && Whole(s) && s.phase.Literals? && s.phase.count == 0 &&
             !s.phase.implicit && s.remaining > 0
    requires HasCode(codes.distances, d.symbol) && Names(h, s.ring, d, distance, pushed)
    requires BeginCopy(h, s, s.phase.copyLength, distance) == Ok(s.(phase := phase))
    ensures Leads(h, s, SymbolWord(codes.distances, d.symbol) + (Lsb(d.extra, d.extraBits) + rest), room,
                  s.(phase := phase, ring := if pushed && phase.Copying? then s.ring.Pushed(distance) else s.ring),
                    rest, room)
  {
    var n := s.phase.copyLength;
    var extra := Lsb(d.extra, d.extraBits) + rest;
    var all := SymbolWord(codes.distances, d.symbol) + extra;
    var s1 := s.(phase := DistanceSymbol(n));
    var pending := if d.extraBits > 0 then Extra(d.symbol) else Resolved(Distance(distance, pushed));
    var s2 := s.(phase := DistanceExtra(n, pending));
    BeginsAnyway(h, s, s2, n, distance, phase);
    hide Sane, ReadsCodes, Names, SymbolWord, Lsb, Run, BeginCopy;
    TakesNone(h, s, all, room, s1);
    LeadsSane(h, s, all, room, s1, all, room);
    var read := ReadsDistanceSymbol(h, codes, s1, d, distance, pushed, extra, room);
    LeadsSane(h, s1, all, room, s2, extra, room);
    ReadsDistanceExtra(h, s2, d, distance, pushed, phase, rest, room);
  }

  /** Where a copy begins does not depend on the phase before it. */
  lemma BeginsAnyway(h: Header, s: State, t: State, n: nat, distance: nat, phase: Phase)
    requires BeginCopy(h, s, n, distance) == Ok(s.(phase := phase)) && t == s.(phase := t.phase)
    ensures BeginCopy(h, t, n, distance) == Ok(t.(phase := phase))
  {
    hide Transform, Reach;
  }

  /** The decoder is where the encoder was before the commands: it has written the input up to there,
      expects the rest of the block, and remembers the same distances. */
  predicate InStep(s: State, before: seq<Byte>, input: seq<Byte>, at: nat, end: nat, ring: Ring)
  {
    && s.phase.Command? && Whole(s) && at <= end <= |input| && s.flat == Upto(before, input, at)
    && s.remaining == end - at
    && s.ring == ring
  }

  /** The commands make up the bytes from `at` to `end`, each naming its distance for the ring it finds. */
  ghost predicate Executes(words: Words, window: nat, before: seq<Byte>, input: seq<Byte>, at: nat,
                           commands: seq<StreamCommand>, end: nat, ring: Ring)
    decreases |commands|
  {
    if commands == [] then at == end
    else
      var c := commands[0];
      var p := at + c.insertLen;
      if c.copyLen == 0 then c.insertLen > 0 && p == end && |commands| == 1
      else
        && Reproduces(words, window, before, input, p, c) && Named(ring, c.distance, c.distanceCode)
        && Executes(words, window, before, input, p + c.copyLen, commands[1..], end,
                    RingAfter(ring, c, ReachAt(|before| + p, window)))
  }

  lemma ExecutesWithin(words: Words, window: nat, before: seq<Byte>, input: seq<Byte>, at: nat,
                       commands: seq<StreamCommand>, end: nat, ring: Ring)
    requires Executes(words, window, before, input, at, commands, end, ring)
    ensures at <= end && (commands != [] ==> at < end)
    decreases |commands|
  {
    hide Reproduces, Named, RingAfter;
    if commands != [] && commands[0].copyLen > 0 {
      var c := commands[0];
      ExecutesWithin(words, window, before, input, at + c.insertLen + c.copyLen, commands[1..], end,
                     RingAfter(ring, c, ReachAt(|before| + at + c.insertLen, window)));
    }
  }

  /** The bits of one command, one part after another. */
  lemma WireParts(codes: Codes, w: Wire, bytes: seq<Byte>, rest: seq<bool>)
    requires WireHasCodes(codes, w) && HaveCodes(codes.literals, bytes)
    ensures WireBits(codes, w, bytes) + rest == HeadBits(codes, w, bytes, DistanceBits(codes, w) + rest)
  {
    hide SymbolWord, ExtraBits, LiteralBits, DistanceBits, HaveCodes;
    FiveParts(SymbolWord(codes.commands, w.symbol), ExtraBits(w.insert), ExtraBits(w.copy),
              LiteralBits(codes.literals, bytes),
              DistanceBits(codes, w), rest);
  }

  lemma FiveParts(a: seq<bool>, b: seq<bool>, c: seq<bool>, d: seq<bool>, e: seq<bool>, rest: seq<bool>)
    ensures a + b + c + d + e + rest == a + (b + (c + (d + (e + rest))))
  {
  }

  /** The literals of a command, decoded. */
  lemma ReadsInsertion(h: Header, codes: Codes, s: State, before: seq<Byte>, input: seq<Byte>, at: nat, end: nat,
                       c: StreamCommand, rest: seq<bool>, room: nat) returns (t: State, left: seq<bool>)
    requires Sane(h, s) && ReadsCodes(h, codes) && InStep(s, before, input, at, end, s.ring) &&
             CommandHasCodes(codes, input, at, c)
    requires at < end && at + c.insertLen <= end && c.insertLen <= room
    ensures left == DistanceBits(codes, Encoded(c, codes.direct, codes.postfix)) + rest
    ensures t.phase.Literals? && t == s.(flat := Upto(before, input, at + c.insertLen),
                                         remaining := end - at - c.insertLen,
                  phase := Literals(0, t.phase.copyLength, Encoded(c, codes.direct, codes.postfix).distance.None? &&
                                    c.copyLen > 0))
    ensures c.copyLen > 0 ==> t.phase.copyLength == c.copyCode
    ensures Leads(h, s, CommandBits(codes, input, at, c) + rest, room, t, left, room - c.insertLen)
  {
    hide Sane, ReadsCodes, Encoded, WireHasCodes, HaveCodes, WireBits, HeadBits, DistanceBits, Upto, Encodable, Leads,
         FromSymbol, Lengths.Base, Lengths.Bits, Pow2, Announces;
    CodesAnnounced(c, codes.direct, codes.postfix);
    var w, bytes := Encoded(c, codes.direct, codes.postfix), input[at..at + c.insertLen];
    left := DistanceBits(codes, w) + rest;
    WireParts(codes, w, bytes, rest);
    UptoGrows(before, input, at, c.insertLen);
    ReadsHead(h, codes, s, w, bytes, left, room);
    t := AfterHead(s, w, bytes);
  }

  /** From the begun copy or word to the next command. */
  lemma Executed(h: Header, s: State, before: seq<Byte>, input: seq<Byte>, p: nat, c: StreamCommand, rest: seq<bool>,
                 room: nat)
    requires Sane(h, s) && Reproduces(h.words, h.windowSize, before, input, p, c) && s.flat == Upto(before, input, p)
    requires s.phase == Begun(s, c, input[p..p + c.copyLen], ReachAt(|before| + p, h.windowSize)) &&
             c.copyLen <= s.remaining && c.copyLen <= room
    ensures Leads(h, s, rest, room, s.(flat := Upto(before, input, p + c.copyLen), remaining := s.remaining - c.copyLen,
                                       phase := Command),
                  rest, room - c.copyLen)
  {
    hide Sane, TrueCopy, Upto, Leads, Transform;
    if c.distance <= ReachAt(|before| + p, h.windowSize) {
      Copies(h, s, before, input, p, rest, room);
    } else {
      Drains(h, s, before, input, p, c.copyLen, rest, room);
    }
  }

  /** A command with a copy takes the decoder to where the encoder is after it. */
  lemma ReadsCopyCommand(h: Header, codes: Codes, s: State, before: seq<Byte>, input: seq<Byte>, at: nat, end: nat,
                         c: StreamCommand, rest: seq<bool>, room: nat) returns (t: State)
    requires Sane(h, s) && ReadsCodes(h, codes) && InStep(s, before, input, at, end, s.ring) &&
             CommandHasCodes(codes, input, at, c)
    requires c.copyLen > 0 && at + c.insertLen + c.copyLen <= end && c.insertLen + c.copyLen <= room
    requires Reproduces(h.words, h.windowSize, before, input, at + c.insertLen, c) &&
             Named(s.ring, c.distance, c.distanceCode)
    ensures t == s.(flat := t.flat, remaining := t.remaining, ring := t.ring)
    ensures InStep(t, before, input, at + c.insertLen + c.copyLen, end,
                   RingAfter(s.ring, c, ReachAt(|before| + at + c.insertLen, h.windowSize)))
    ensures Leads(h, s, CommandBits(codes, input, at, c) + rest, room, t, rest, room - c.insertLen - c.copyLen)
  {
    hide Sane, ReadsCodes, Encoded, WireHasCodes, HaveCodes, CommandBits, DistanceBits, Upto, Encodable, Run, RingAfter,
         Reproduces, Named,
         BeginCopy, Reach, ReachAt;
    var p := at + c.insertLen;
    var s1, left := ReadsInsertion(h, codes, s, before, input, at, end, c, rest, room);
    BeginsCopy(h, s1, before, input, p, c);
    var phase := Begun(s1, c, input[p..p + c.copyLen], Reach(h, s1.flat));
    ReadsDistance(h, codes, s1, c, phase, rest, room - c.insertLen);
    var s2 := s1.(phase := phase, ring := RingAfter(s.ring, c, Reach(h, s1.flat)));
    Executed(h, s2, before, input, p, c, rest, room - c.insertLen);
    t := s2.(flat := Upto(before, input, p + c.copyLen), remaining := s2.remaining - c.copyLen, phase := Command);
  }

  /** What the decoder ends up with: the block written, nothing left of it, and the encoder's ring. */
  function EndState(s: State, before: seq<Byte>, input: seq<Byte>, end: nat, ring: Ring): State
    requires end <= |input|
  {
    s.(flat := Upto(before, input, end), remaining := 0, ring := ring, phase := Finished)
  }

  /** Whatever the codes, as long as they have every symbol: the decoder executes the commands' bits to
      exactly the block, with the encoder's ring, and takes no bit more. */
  lemma {:induction false} ReadsBody(h: Header, codes: Codes, s: State, before: seq<Byte>, input: seq<Byte>, at: nat,
                                     end: nat,
                                     commands: seq<StreamCommand>, rest: seq<bool>, room: nat)
    requires Sane(h, s) && ReadsCodes(h, codes) && InStep(s, before, input, at, end, s.ring)
    requires Executes(h.words, h.windowSize, before, input, at, commands, end, s.ring) && end - at <= room
    requires Writable(codes, input, at, commands)
    ensures Run(h, s, BodyBits(codes, input, at, commands) + rest, room) ==
            Stop(EndState(s, before, input, end, RingAtEnd(s.ring, |before| + at, commands, h.windowSize)), rest, Done)
    decreases |commands|
  {
    hide Sane, ReadsCodes, CommandHasCodes, CommandBits, Upto, Run, RingAfter, Reproduces, Named, ReachAt;
    if commands == [] {
      Finishes(h, s, rest, room);
      assert [] + rest == rest;
    } else if commands[0].copyLen == 0 {
      ReadsTail(h, codes, s, before, input, at, end, commands, rest, room);
    } else {
      var c := commands[0];
      var next := at + c.insertLen + c.copyLen;
      ExecutesWithin(h.words, h.windowSize, before, input, next, commands[1..], end,
                     RingAfter(s.ring, c, ReachAt(|before| + at + c.insertLen, h.windowSize)));
      var first := CommandBits(codes, input, at, c);
      var more := BodyBits(codes, input, next, commands[1..]);
      var t := ReadsCopyCommand(h, codes, s, before, input, at, end, c, more + rest, room);
      LeadsSame(h, s, first + (more + rest), room, t, more + rest, room - c.insertLen - c.copyLen);
      ReadsBody(h, codes, t, before, input, next, end, commands[1..], rest, room - c.insertLen - c.copyLen);
      assert first + more + rest == first + (more + rest);
      assert |before| + at + c.insertLen + c.copyLen == |before| + next;
    }
  }

  lemma LeadsSame(h: Header, s: State, bits: seq<bool>, room: nat, t: State, left: seq<bool>, less: nat)
    requires Leads(h, s, bits, room, t, left, less)
    ensures Sane(h, s) && Sane(h, t) && Run(h, s, bits, room) == Run(h, t, left, less)
  {
  }

  /** Literals only, to the block's end. */
  lemma ReadsTail(h: Header, codes: Codes, s: State, before: seq<Byte>, input: seq<Byte>, at: nat, end: nat,
                  commands: seq<StreamCommand>, rest: seq<bool>, room: nat)
    requires Sane(h, s) && ReadsCodes(h, codes) && InStep(s, before, input, at, end, s.ring)
    requires Executes(h.words, h.windowSize, before, input, at, commands, end, s.ring) && end - at <= room
    requires commands != [] && commands[0].copyLen == 0 && Writable(codes, input, at, commands)
    ensures Run(h, s, BodyBits(codes, input, at, commands) + rest, room) ==
            Stop(EndState(s, before, input, end, RingAtEnd(s.ring, |before| + at, commands, h.windowSize)), rest, Done)
  {
    var c := commands[0];
    TailAlone(h.words, h.windowSize, codes, before, input, at, end, commands, s.ring);
    NoDistanceBits(codes, input, at, c, rest);
    hide Sane, ReadsCodes, Encoded, CommandHasCodes, CommandBits, DistanceBits, Upto, Run, BodyBits, RingAtEnd,
         Writable, Executes;
    var t, left := ReadsInsertion(h, codes, s, before, input, at, end, c, rest, room);
    Finishes(h, t, left, room - c.insertLen);
  }

  lemma NoDistanceBits(codes: Codes, input: seq<Byte>, at: nat, c: StreamCommand, rest: seq<bool>)
    requires CommandHasCodes(codes, input, at, c) && c.copyLen == 0
    ensures DistanceBits(codes, Encoded(c, codes.direct, codes.postfix)) + rest == rest
  {
    hide CodeOf, Combine;
    assert [] + rest == rest;
  }

  lemma TailAlone(words: Words, window: nat, codes: Codes, before: seq<Byte>, input: seq<Byte>, at: nat, end: nat,
                  commands: seq<StreamCommand>, ring: Ring)
    requires Executes(words, window, before, input, at, commands, end, ring) && commands != [] &&
             commands[0].copyLen == 0
    requires Writable(codes, input, at, commands)
    ensures var c := commands[0];
            && at + c.insertLen == end && c.insertLen > 0 && RingAtEnd(ring, |before| + at, commands, window) == ring
            && CommandHasCodes(codes, input, at, c) && BodyBits(codes, input, at, commands) ==
               CommandBits(codes, input, at, c)
  {
    hide CommandHasCodes, CommandBits, Reproduces, Named;
    var first := CommandBits(codes, input, at, commands[0]);
    assert BodyBits(codes, input, at, commands) == first + [];
  }
}
