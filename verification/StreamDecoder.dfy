/** The decoder as the object it is (`src/decode/decoder.rs`): bit reader, history, recent distances and the metablock
    at hand. A call does what the machine does; raw bytes are only ever taken with an empty bit buffer. */
module StreamDecoder {
  import opened Arithmetic
  import opened Bytes
  import opened BitStream
  import opened BitPacking
  import opened Distances
  import opened HistoryRing
  import B = BlockMachine
  import C = CompressedBlock
  import opened DecoderMachine
  import opened DecoderRuns
  import opened DecoderRounds
  import opened Outcomes

  predicate Failure(o: RoundOutcome)
  {
    o.Stops? && o.status.Failed?
  }

  /** Decoder state for one stream. */
  class Decoder {
    const given: Given
    const reader: BitReader
    const recent: RecentDistances
    var history: History?
    var data: C.CompressedBlock?
    var isLast: bool
    var phase: DecoderPhase
    var windowBits: nat
    ghost var Repr: set<object>

    /** The objects are there and apart; within a metablock there is one for it. */
    ghost predicate Shape()
      reads this, Repr
    {
      && this in Repr && reader in Repr && recent in Repr && reader.Valid() && !phase.CompressedData?
      && (history != null ==> history in Repr && history.Valid())
      && (data != null ==> data in Repr && history != null)
    }

    /** What the object stands for. */
    ghost function View(): DecoderState
      requires Shape()
      reads this, Repr
    {
      DecoderState(if data == null then phase else CompressedData(isLast, data.header, data.Abs(history, recent)),
                   windowBits, recent.ring,
                   if history == null then [] else history.flat)
    }

    ghost predicate Valid()
      reads this, Repr
    {
      && Shape() && Admissible(given.parser) && Sound(View()) && OnBoundary(View(), reader.buffered)
      && (reader.buffered < 8 || reader.buffered < BitsWanted(given, View()))
      && (history == null <==> BeforeWindow(View())) && (history != null ==>
                                                         history.windowSize == WindowSize(windowBits))
    }

    constructor (given: Given)
      requires Admissible(given.parser)
      ensures Valid() && fresh(Repr) && this.given == given && View() == Initial() && reader.buffered == 0
    {
      this.given := given;
      reader := new BitReader();
      recent := new RecentDistances();
      history, data, isLast, phase, windowBits := null, null, false, WindowFirst, 10;
      new;
      Repr := {this, reader, recent};
    }

    /** Raw bytes are copied and skipped, and the stream ends, with an empty bit buffer. */
    lemma RawMeansEmpty()
      requires Valid()
      ensures View().phase.Uncompressed? || View().phase.Metadata? || View().phase.Finished? ==> reader.buffered == 0
    {
      hide Sound, Admissible;
    }

    /** Reads what the next step takes, if it is all there. */
    method Fetch(input: seq<Byte>, cursor: nat, n: nat, ghost room: nat) returns (v: Option<nat>, next: nat)
      requires Valid() && cursor <= |input| && n == BitsWanted(given, View()) <= MAX_READ_BITS && n > 0
      requires !View().phase.Finished? && !WaitsForRoom(View()) && !Aligns(View())
      modifies reader
      ensures Shape() && View() == old(View()) && cursor <= next <= |input|
      ensures v.None? ==> next == |input| && Valid() && Moves(given, View(), old(reader.Ahead(input, cursor)), room,
                                                              View(), reader.Ahead(input, next), Stops(NeedInput))
      ensures v.Some? ==>
                && reader.buffered < 8 && n <= |old(reader.Ahead(input, cursor))|
                && v.value == FromLsb(old(reader.Ahead(input, cursor))[..n])
                && reader.Ahead(input, next) == old(reader.Ahead(input, cursor))[n..]
                && Fetched(View(), old(reader.Ahead(input, cursor)), n, room)
    {
      hide FromLsb, Sound, Admissible, Decode, BitsWanted, Lower, Aligns, WaitsForRoom, C.CompressedBlock.Abs,
           WindowSize, Fetched, Moves;
      ghost var d, bits := View(), reader.Ahead(input, cursor);
      v, next := reader.ReadBits(input, cursor, n);
      if v.None? {
        assert reader.Ahead(input, next) == bits;
        WaitMoves(given, d, bits, room);
      } else {
        StepFetched(d, bits, n, room);
      }
    }

    lemma StepFetched(d: DecoderState, bits: seq<bool>, n: nat, room: nat)
      requires Admissible(given.parser) && Sound(d) && !d.phase.Finished? && !WaitsForRoom(d) && !Aligns(d)
      requires n == BitsWanted(given, d) <= |bits|
      ensures Fetched(d, bits, n, room)
    {
      hide Sound, Admissible, Decode, BitsWanted, Lower, Aligns, WaitsForRoom, Advance, Moves;
      StepMoves(given, d, bits, room);
      TakenIs(given, d, |bits|);
    }

    /** The bits of the next step have been read: taking the step goes on with the run. */
    ghost predicate Fetched(d: DecoderState, bits: seq<bool>, n: nat, room: nat)
      requires n <= |bits|
    {
      && !d.phase.Finished? && n == BitsWanted(given, d) && Admissible(given.parser) && Sound(d)
      && match Advance(given, d, bits[..n])
         case Ok(next) => Moves(given, d, bits, room, next, bits[n..], Goes)
         case Err(e) => Moves(given, d, bits, room, d, bits, Stops(Failed(e)))
    }

    /** How the object stands after a round from a given state on given bits. */
    ghost predicate Went(d: DecoderState, bits: seq<bool>, room: nat, input: seq<Byte>, next: nat, o: RoundOutcome)
      reads this, Repr
    {
      && Shape() && next <= |input| && Moves(given, d, bits, room, View(), reader.Ahead(input, next), o)
      && (Failure(o) || Valid()) && (o == Stops(NeedInput) ==> next == |input|)
    }

    /** A value of the stream header. */
    method ReadWindow(input: seq<Byte>, cursor: nat, ghost room: nat) returns (o: RoundOutcome, next: nat)
      requires Valid() && cursor <= |input| && data == null && BeforeWindow(View())
      modifies Repr
      ensures fresh(Repr - old(Repr)) && Went(old(View()), old(reader.Ahead(input, cursor)), room, input, next, o)
      ensures !Failure(o) ==> View().flat == old(View().flat)
    {
      hide FromLsb, Admissible, Decode, Lower, Moves, SoundRing, WindowSize, Pow2, C.CompressedBlock.Abs;
      ghost var d, bits := View(), reader.Ahead(input, cursor);
      var n := if phase.WindowFirst? then 1 else 3;
      var v;
      v, next := Fetch(input, cursor, n, room);
      if v.None? {
        return Stops(NeedInput), next;
      }
      var p := StepWindow(phase, windowBits, v.value);
      match p {
        case Err(e) =>
          FailedMoves(given, d, bits, room, View(), reader.Ahead(input, next), e);
          return Stops(Failed(e)), next;
        case Ok((following, size)) =>
          MovesSound(given, d, bits, room, d.(phase := following, windowBits := size), bits[n..]);
          phase, windowBits := following, size;
          if following.MetaBlockHeader? {
            WindowIsLarge(size);
            history := new History(size);
            Repr := Repr + {history};
          }
          o := Goes;
      }
    }

    /** A value of a metablock header. */
    method ReadMetaBlockHeader(input: seq<Byte>, cursor: nat, ghost room: nat) returns (o: RoundOutcome, next: nat)
      requires Valid() && cursor <= |input| && data == null && phase.MetaBlockHeader? && !AlignsHeader(phase.header)
      modifies Repr
      ensures Repr == old(Repr) && Went(old(View()), old(reader.Ahead(input, cursor)), room, input, next, o)
      ensures !Failure(o) ==> View().flat == old(View().flat)
    {
      hide FromLsb, Admissible, Decode, Lower, Moves, Sound, WindowSize, Pow2, C.CompressedBlock.Abs, StepDataLength,
           StepMetadataLength;
      ghost var d, bits := View(), reader.Ahead(input, cursor);
      var n := HeaderBits(phase.header);
      var v;
      v, next := Fetch(input, cursor, n, room);
      if v.None? {
        return Stops(NeedInput), next;
      }
      var p := StepHeader(phase.header, v.value);
      match p {
        case Err(e) =>
          FailedMoves(given, d, bits, room, View(), reader.Ahead(input, next), e);
          return Stops(Failed(e)), next;
        case Ok(following) =>
          MovesSound(given, d, bits, room, d.(phase := following), bits[n..]);
          HeaderStaysBeforeData(phase.header, v.value);
          phase := following;
          o := Goes;
      }
    }

    /** The rest of the byte, before raw bytes, before metadata or at the end of the stream. */
    method AlignHeader(input: seq<Byte>, cursor: nat, ghost room: nat) returns (o: RoundOutcome)
      requires Valid() && cursor <= |input| && data == null && phase.MetaBlockHeader? && AlignsHeader(phase.header)
      modifies Repr
      ensures Repr == old(Repr) && Went(old(View()), old(reader.Ahead(input, cursor)), room, input, cursor, o)
      ensures !Failure(o) ==> View().flat == old(View().flat) && reader.buffered == 0
    {
      hide FromLsb, Admissible, Decode, Lower, Moves, Sound, WindowSize, Pow2, C.CompressedBlock.Abs, AllZero, Lsb,
           BitsOf;
      ghost var d, bits := View(), reader.Ahead(input, cursor);
      ghost var n := |bits| % 8;
      assert n == reader.buffered % 8;
      StepMoves(given, d, bits, room);
      ghost var held := reader.Held();
      assert bits[..n] == held[..n] && bits[n..] == held[n..] + BitsOf(input[cursor..]);
      AllZeroIs(bits[..n]);
      var isZero := reader.AlignToByteWithZeroFill();
      var p := StepAlign(phase.header, isZero);
      match p {
        case Err(e) =>
          FailedMoves(given, d, bits, room, View(), reader.Ahead(input, cursor), e);
          return Stops(Failed(e));
        case Ok(following) =>
          MovesSound(given, d, bits, room, d.(phase := following), bits[n..]);
          phase := following;
          o := Goes;
      }
    }

    /** The header and the trees of a compressed metablock, read by the parser. */
    method ReadTrees(input: seq<Byte>, cursor: nat, ghost room: nat) returns (o: RoundOutcome, next: nat)
      requires Valid() && cursor <= |input| && data == null && phase.CompressedTrees?
      modifies Repr
      ensures fresh(Repr - old(Repr)) && Went(old(View()), old(reader.Ahead(input, cursor)), room, input, next, o)
      ensures !Failure(o) ==> View().flat == old(View().flat)
    {
      hide FromLsb, Decode, Lower, Moves, Sound, WindowSize, Pow2, Lsb;
      ghost var d, bits := View(), reader.Ahead(input, cursor);
      var seen := phase.seen;
      var asked := given.parser(seen);
      match asked {
        case More(n) =>
          hide Admissible, C.CompressedBlock.Abs;
          var v;
          v, next := Fetch(input, cursor, n, room);
          if v.None? {
            return Stops(NeedInput), next;
          }
          LsbOfValue(bits[..n]);
          var following := CompressedTrees(phase.isLast, phase.length, seen + Lsb(v.value, n));
          MovesSound(given, d, bits, room, d.(phase := following), bits[n..]);
          phase := following;
          o := Goes;
        case Rejected(e) =>
          hide Admissible, C.CompressedBlock.Abs;
          NothingTaken(given, d, bits, room);
          return Stops(Failed(BadTrees(e))), cursor;
        case Parsed(trees) =>
          hide Admissible;
          NothingTaken(given, d, bits, room);
          next := cursor;
          var codes := trees.header.(windowSize := WindowSize(windowBits), words := given.words);
          isLast := phase.isLast;
          data := new C.CompressedBlock(codes, trees.literals, trees.commands, trees.distances, phase.length);
          Repr := Repr + {data};
          MovesSound(given, d, bits, room, View(), bits);
          o := Goes;
      }
    }

    /** Executes commands on all the bits there are. */
    method ExecuteCommands(bits: seq<bool>, room: nat) returns (status: B.Status, left: seq<bool>, written: seq<Byte>)
      requires Valid() && data != null
      modifies data, history, recent
      ensures Shape() && (history != null <==> old(history) != null)
      ensures var d := old(View());
              && d.phase.CompressedData? && B.Sane(d.phase.codes, d.phase.block)
              && var stop := B.Run(d.phase.codes, d.phase.block, bits, room);
              && status == stop.status
              && (!status.Failed? ==>
                  View() == WithBlock(d, stop.state) && left == stop.rest && View().flat == d.flat + written)
    {
      hide Admissible, WindowSize, Pow2, B.Run, B.Sane, B.BitsNeeded, History.Valid, Sound, OnBoundary, BitsWanted,
           Spliced, BitReader.Valid;
      ghost var d := View();
      SoundBlock(d);
      var output := new Byte[room];
      ghost var was := output[..];
      var produced;
      status, left, produced := data.Process(bits, output, history, recent);
      written := output[..produced];
      FirstPart(was, history.flat[|d.flat|..]);
      assert d.flat + history.flat[|d.flat|..] == history.flat;
    }

    /** The metablock's data has ended: padding if it was the last one, the next header if not. */
    method EndCommands(input: seq<Byte>, cursor: nat, ghost d: DecoderState, ghost bits: seq<bool>, ghost room: nat)
      returns (o: RoundOutcome)
      requires Shape() && cursor <= |input| && data != null && View().phase.block.phase.Finished? && reader.buffered < 8
      requires Admissible(given.parser) && history.windowSize == WindowSize(windowBits)
      requires DataEnds(given, d, bits, room, View(), reader.Ahead(input, cursor))
      modifies this`data, this`phase, reader
      ensures Repr == old(Repr) && Went(d, bits, room, input, cursor, o) && history == old(history)
      ensures !Failure(o) ==> View().flat == old(View().flat)
    {
      hide Admissible, Decode, Lower, Moves, Sound, WindowSize, Pow2, Lsb, BitsOf, B.Run, B.Sane, B.BitsNeeded,
           History.Valid,
           C.CompressedBlock.Abs, AllZero;
      ghost var ended, left := View(), reader.Ahead(input, cursor);
      ghost var n := Taken(given, ended, |left|);
      ghost var held := reader.Held();
      if isLast {
        assert n == reader.buffered % 8 && left[..n] == held[..n] && left[n..] == held[n..] + BitsOf(input[cursor..]);
        AllZeroIs(left[..n]);
        var isZero := reader.AlignToByteWithZeroFill();
        if !isZero {
          FailedMoves(given, d, bits, room, View(), reader.Ahead(input, cursor), NonZeroFinalPadding);
          return Stops(Failed(NonZeroFinalPadding));
        }
      } else {
        assert n == 0 && left[0..] == left;
      }
      MovesSound(given, d, bits, room, ended.(phase := if isLast then Finished else MetaBlockHeader(Fresh())),
                 left[n..]);
      phase := if isLast then Finished else MetaBlockHeader(Fresh());
      data := null;
      o := Goes;
    }

    /** The commands of a metablock, as far as input and room go. */
    method RunCommands(input: seq<Byte>, cursor: nat, room: nat)
      returns (o: RoundOutcome, next: nat, written: seq<Byte>)
      requires Valid() && cursor <= |input| && data != null
      modifies Repr
      ensures Repr == old(Repr) && Went(old(View()), old(reader.Ahead(input, cursor)), room, input, next, o)
      ensures !Failure(o) ==> View().flat == old(View().flat) + written
    {
      hide Admissible, Decode, Lower, Moves, Sound, WindowSize, Pow2, Lsb, BitsOf, B.Run, B.Sane, B.BitsNeeded,
           DataEnds, History.Valid,
           C.CompressedBlock.Abs, BlockStuck, B.CanStep, B.NeedsRoom, B.Step, BitReader.Held;
      ghost var d := View();
      var bits := reader.AllBits(input, cursor);
      SoundBlock(d);
      DataMoves(given, d, bits, room);
      BlockStops(d.phase.codes, d.phase.block, bits, room);
      var status, left;
      status, left, written := ExecuteCommands(bits, room);
      if status.Failed? {
        FailedMoves(given, d, bits, room, View(), reader.Ahead(input, cursor), BadData(status.error));
        return Stops(Failed(BadData(status.error))), cursor, written;
      }
      DataWantsFewBits(given, d);
      DataWantsFewBits(given, View());
      next := reader.SkipBits(input, cursor, |bits| - |left|);
      if status.NeedInput? {
        next := reader.Absorb(input, next);
        return Stops(NeedInput), next, written;
      }
      if status.NeedOutput? {
        return Stops(NeedOutput), next, written;
      }
      o := EndCommands(input, next, d, bits, room);
    }

    /** As many raw bytes as there are and as there is room for. */
    method CopyRaw(input: seq<Byte>, cursor: nat, room: nat) returns (o: RoundOutcome, next: nat, written: seq<Byte>)
      requires Valid() && cursor <= |input| && data == null && phase.Uncompressed?
      modifies Repr
      ensures Repr == old(Repr) && Went(old(View()), old(reader.Ahead(input, cursor)), room, input, next, o)
      ensures !Failure(o) ==> View().flat == old(View().flat) + written
    {
      hide Admissible, Decode, Lower, Moves, Sound, WindowSize, Pow2, Lsb, BitsOf, History.Valid, C.CompressedBlock.Abs;
      ghost var d, bits := View(), reader.Ahead(input, cursor);
      RawMeansEmpty();
      NoWord(reader.buffer);
      assert bits == BitsOf(input[cursor..]) && |bits| == 8 * (|input| - cursor);
      assert d.flat + [] == d.flat;
      if phase.remaining == 0 {
        NothingTaken(given, d, bits, room);
        MovesSound(given, d, bits, room, d.(phase := MetaBlockHeader(Fresh())), bits);
        phase := MetaBlockHeader(Fresh());
        return Goes, cursor, [];
      }
      if room == 0 {
        WaitMoves(given, d, bits, room);
        return Stops(NeedOutput), cursor, [];
      }
      if cursor == |input| {
        WaitMoves(given, d, bits, room);
        return Stops(NeedInput), cursor, [];
      }
      var count := Min(phase.remaining, Min(|input| - cursor, room));
      next := cursor + count;
      written := input[cursor..next];
      assert input[cursor..] == written + input[next..];
      BitsOfAppend(written, input[next..]);
      RawMoves(given, d, written, BitsOf(input[next..]), room);
      MovesSound(given, d, bits, room, d.(flat := d.flat + written, phase := Uncompressed(d.phase.remaining - count)),
                 BitsOf(input[next..]));
      history.PushSlice(written);
      phase := Uncompressed(phase.remaining - count);
      o := Goes;
      assert reader.Ahead(input, next) == BitsOf(input[next..]);
      assert View() == d.(flat := d.flat + written, phase := Uncompressed(d.phase.remaining - count));
    }

    /** Metadata is passed over. */
    method SkipMetadata(input: seq<Byte>, cursor: nat, ghost room: nat) returns (o: RoundOutcome, next: nat)
      requires Valid() && cursor <= |input| && data == null && phase.Metadata?
      modifies Repr
      ensures Repr == old(Repr) && Went(old(View()), old(reader.Ahead(input, cursor)), room, input, next, o)
      ensures !Failure(o) ==> View().flat == old(View().flat)
    {
      hide Admissible, Decode, Lower, Moves, Sound, WindowSize, Pow2, Lsb, BitsOf, History.Valid, C.CompressedBlock.Abs;
      ghost var d, bits := View(), reader.Ahead(input, cursor);
      RawMeansEmpty();
      NoWord(reader.buffer);
      assert bits == BitsOf(input[cursor..]) && |bits| == 8 * (|input| - cursor);
      if phase.remaining == 0 {
        NothingTaken(given, d, bits, room);
        var following := if phase.isLast then Finished else MetaBlockHeader(Fresh());
        MovesSound(given, d, bits, room, d.(phase := following), bits);
        phase := following;
        return Goes, cursor;
      }
      if cursor == |input| {
        WaitMoves(given, d, bits, room);
        return Stops(NeedInput), cursor;
      }
      var count := Min(phase.remaining, |input| - cursor);
      next := cursor + count;
      ghost var skipped := input[cursor..next];
      assert input[cursor..] == skipped + input[next..];
      BitsOfAppend(skipped, input[next..]);
      SkipMoves(given, d, skipped, BitsOf(input[next..]), room);
      MovesSound(given, d, bits, room, d.(phase := Metadata(d.phase.remaining - count, d.phase.isLast)),
                 BitsOf(input[next..]));
      phase := Metadata(phase.remaining - count, phase.isLast);
      o := Goes;
      assert reader.Ahead(input, next) == BitsOf(input[next..]);
    }

    /** What is due in the current phase. */
    method Round(input: seq<Byte>, cursor: nat, room: nat) returns (o: RoundOutcome, next: nat, written: seq<Byte>)
      requires Valid() && cursor <= |input|
      modifies Repr
      ensures fresh(Repr - old(Repr)) && Went(old(View()), old(reader.Ahead(input, cursor)), room, input, next, o)
      ensures !Failure(o) ==> View().flat == old(View().flat) + written
    {
      hide Admissible, Sound, Moves, C.CompressedBlock.Abs, WindowSize, BitReader.Ahead, BitReader.Valid, History.Valid,
           OnBoundary, BitsWanted;
      assert View().flat + [] == View().flat;
      written := [];
      if data != null {
        o, next, written := RunCommands(input, cursor, room);
      } else if phase.Finished? {
        DoneMoves(given, View(), reader.Ahead(input, cursor), room);
        o, next := Stops(Done), cursor;
      } else if phase.Uncompressed? {
        o, next, written := CopyRaw(input, cursor, room);
      } else if phase.Metadata? {
        o, next := SkipMetadata(input, cursor, room);
      } else if phase.CompressedTrees? {
        o, next := ReadTrees(input, cursor, room);
      } else if phase.MetaBlockHeader? {
        if AlignsHeader(phase.header) {
          o := AlignHeader(input, cursor, room);
          next := cursor;
        } else {
          o, next := ReadMetaBlockHeader(input, cursor, room);
        }
      } else {
        o, next := ReadWindow(input, cursor, room);
      }
    }

    /** Decodes until input or room run out, the stream ends, or something is wrong. It does what the machine
        does step by step; whoever calls again with the bytes that were not consumed goes on with its run. */
    method Process(input: seq<Byte>, room: nat) returns (status: DecoderStatus, consumed: nat, output: seq<Byte>)
      requires Valid()
      modifies Repr
      ensures fresh(Repr - old(Repr)) && Shape() && consumed <= |input| && |output| <= room
      ensures Sound(old(View())) && status == Decode(given, old(View()), old(reader.Ahead(input, 0)), room).status
      ensures !status.Failed? ==>
                && Valid() && View().flat == old(View().flat) + output
                && Decode(given, old(View()), old(reader.Ahead(input, 0)), room) ==
                   DecoderStop(View(), reader.Ahead(input, consumed), status)
      ensures status.Done? ==> reader.buffered == 0 && Decode(given, old(View()), old(reader.Ahead(input, 0)),
                                                              room).rest == BitsOf(input[consumed..])
      ensures status.NeedInput? ==> consumed == |input|
    {
      hide Admissible, Sound, Moves, C.CompressedBlock.Abs, WindowSize, BitReader.Ahead, BitReader.Valid, History.Valid,
           Decode, Lower;
      ghost var d, bits := View(), reader.Ahead(input, 0);
      consumed, output := 0, [];
      assert d.flat + [] == d.flat;
      while true
        invariant Valid() && consumed <= |input| && |output| <= room && fresh(Repr - old(Repr))
        invariant Sound(d) && Decode(given, d, bits, room) ==
                  Decode(given, View(), reader.Ahead(input, consumed), room - |output|)
        invariant View().flat == d.flat + output
        decreases |reader.Ahead(input, consumed)|, Ahead(View()), DecoderRank(View())
      {
        ghost var now, left := View(), reader.Ahead(input, consumed);
        var o, written;
        o, consumed, written := Round(input, consumed, room - |output|);
        match o {
          case Stops(end) =>
            StopsAt(given, now, left, room - |output|, View(), reader.Ahead(input, consumed), end);
            if !end.Failed? {
              output := output + written;
            }
            if end.Done? {
              EndsEmpty(input, consumed);
            }
            return end, consumed, output;
          case Goes =>
            GoesOn(given, now, left, room - |output|, View(), reader.Ahead(input, consumed));
            assert now.flat + written == d.flat + (output + written);
            output := output + written;
        }
      }
    }

    lemma EndsEmpty(input: seq<Byte>, cursor: nat)
      requires Valid() && cursor <= |input| && View().phase.Finished?
      ensures reader.buffered == 0 && reader.Ahead(input, cursor) == BitsOf(input[cursor..])
    {
      hide Sound, Admissible, BitsOf;
      RawMeansEmpty();
      NoWord(reader.buffer);
    }
  }

  lemma DoneMoves(g: Given, d: DecoderState, bits: seq<bool>, room: nat)
    requires Admissible(g.parser) && Sound(d) && d.phase.Finished?
    ensures Moves(g, d, bits, room, d, bits, Stops(Done))
  {
    WaitMoves(g, d, bits, room);
  }

  lemma StopsAt(g: Given, d: DecoderState, bits: seq<bool>, room: nat, next: DecoderState, left: seq<bool>,
                end: DecoderStatus)
    requires Moves(g, d, bits, room, next, left, Stops(end))
    ensures Admissible(g.parser) && Sound(d) && Decode(g, d, bits, room).status == end
    ensures !end.Failed? ==> Sound(next) && Decode(g, d, bits, room) == DecoderStop(next, left, end)
    ensures !end.Failed? ==> |next.flat| <= |d.flat| + room
    ensures end.Done? ==> next.phase.Finished?
  {
    WritesWithin(g, d, bits, room);
    DecodeSettles(g, d, bits, room);
    hide Decode, Sound, Admissible;
  }

  lemma GoesOn(g: Given, d: DecoderState, bits: seq<bool>, room: nat, next: DecoderState, left: seq<bool>)
    requires Moves(g, d, bits, room, next, left, Goes)
    ensures Admissible(g.parser) && Sound(d) && Sound(next) && d.flat <= next.flat && |next.flat| - |d.flat| <= room
    ensures Decode(g, d, bits, room) == Decode(g, next, left, room - (|next.flat| - |d.flat|))
    ensures |left| < |bits| || (|left| == |bits| && (Ahead(next) < Ahead(d) ||
                                                     (Ahead(next) == Ahead(d) && DecoderRank(next) < DecoderRank(d))))
  {
    hide Decode, Sound, Admissible;
  }

  lemma FirstPart(was: seq<Byte>, bytes: seq<Byte>)
    requires |bytes| <= |was|
    ensures Spliced(was, 0, bytes)[..|bytes|] == bytes
  {
  }

  lemma HeaderStaysBeforeData(h: HeaderState, v: nat)
    requires StepHeader(h, v).Ok? && !AlignsHeader(h)
    ensures var p := StepHeader(h, v).value; p.MetaBlockHeader? || p.CompressedTrees?
  {
    hide Pow2;
  }

  lemma AllZeroIs(bits: seq<bool>)
    ensures AllZero(bits) <==> bits == seq(|bits|, _ => false)
  {
  }

  /** A step that takes no bits. */
  lemma NothingTaken(g: Given, d: DecoderState, bits: seq<bool>, room: nat)
    requires Admissible(g.parser) && Sound(d) && CanAdvance(g, d, |bits|, room) && Taken(g, d, |bits|) == 0
    ensures match NextState(g, d, [])
            case Ok(next) => Moves(g, d, bits, room, next, bits, Goes)
            case Err(e) => Moves(g, d, bits, room, d, bits, Stops(Failed(e)))
  {
    hide Admissible, Sound, CanAdvance, Moves, Advance;
    StepMoves(g, d, bits, room);
    assert bits[..0] == [] && bits[0..] == bits;
  }

  lemma FailedMoves(g: Given, d: DecoderState, bits: seq<bool>, room: nat, next: DecoderState, left: seq<bool>,
                    e: DecodeError)
    requires Moves(g, d, bits, room, d, bits, Stops(Failed(e)))
    ensures Moves(g, d, bits, room, next, left, Stops(Failed(e)))
  {
    hide Decode, Sound, Admissible;
  }

  lemma MovesSound(g: Given, d: DecoderState, bits: seq<bool>, room: nat, next: DecoderState, left: seq<bool>)
    requires Moves(g, d, bits, room, next, left, Goes)
    ensures Sound(next) && d.flat <= next.flat && |next.flat| - |d.flat| <= room
  {
    hide Decode, Sound, Admissible;
  }

  /** Decodes a stream that arrives in pieces, each call with the bytes the last one did not consume and new
      ones. Unless the last call waits for room, output and outcome are those of one call with all the bytes;
      once the stream has ended, every byte that belongs to it, and none behind it, has been consumed. */
  method DecodeInPieces(given: Given, pieces: seq<Piece>) returns (status: DecoderStatus, output: seq<Byte>, calls: nat,
                                                                   unread: seq<Byte>)
    requires Admissible(given.parser)
    ensures calls <= |pieces| && (calls < |pieces| ==> status.Done? || status.Failed?)
    ensures Sound(Initial()) && status == DecodePieces(given, Initial(), [], pieces[..calls]).status
    ensures !status.Failed? ==> output == DecodePieces(given, Initial(), [], pieces[..calls]).state.flat
    ensures calls > 0 && !status.NeedOutput? ==>
              var whole := Decode(given, Initial(), BitsOf(AllBytes(pieces[..calls])), TotalRoom(pieces[..calls]));
              && whole.status == status && (!status.Failed? ==> whole.state.flat == output)
              && (status.Done? ==> whole.rest == BitsOf(unread))
  {
    hide Admissible, Sound, Decode, BitsOf, BitReader.Ahead, BitReader.Valid, Lsb, OnBoundary, BitsWanted, BeforeWindow;
    var decoder := new Decoder(given);
    status, output, calls, unread := NeedInput, [], 0, [];
    StartsEmpty(decoder.reader);
    assert pieces[..0] == [];
    while calls < |pieces| && !status.Done? && !status.Failed?
      invariant calls <= |pieces| && Sound(Initial())
      invariant status == DecodePieces(given, Initial(), [], pieces[..calls]).status
      invariant !status.Failed? ==>
                  && decoder.Valid() && fresh(decoder.Repr) && decoder.given == given && output == decoder.View().flat
                  && decoder.View() == DecodePieces(given, Initial(), [], pieces[..calls]).state
                  && decoder.reader.Ahead(unread, 0) == DecodePieces(given, Initial(), [], pieces[..calls]).rest
      invariant status.Done? ==> DecodePieces(given, Initial(), [], pieces[..calls]).rest == BitsOf(unread)
    {
      var piece := pieces[calls];
      assert pieces[..calls + 1] == pieces[..calls] + [piece];
      OnePieceMore(given, Initial(), [], pieces[..calls], piece);
      AheadGrows(decoder.reader, unread, piece.input);
      var input := unread + piece.input;
      var consumed, more;
      status, consumed, more := decoder.Process(input, piece.room);
      output := output + more;
      unread := input[consumed..];
      AheadFrom(decoder.reader, input, consumed);
      calls := calls + 1;
    }
    if calls > 0 && !status.NeedOutput? {
      PiecesAgree(given, Initial(), pieces[..calls], TotalRoom(pieces[..calls]));
    }
  }

  lemma StartsEmpty(reader: BitReader)
    requires reader.Valid() && reader.buffered == 0
    ensures reader.Ahead([], 0) == [] && Sound(Initial())
  {
    InitialIsSound();
    NoWord(reader.buffer);
  }

  lemma AheadGrows(reader: BitReader, unread: seq<Byte>, more: seq<Byte>)
    ensures reader.Ahead(unread + more, 0) == reader.Ahead(unread, 0) + BitsOf(more)
  {
    hide BitsOf, Lsb;
    BitsOfAppend(unread, more);
    assert (unread + more)[0..] == unread + more && unread[0..] == unread;
  }

  lemma AheadFrom(reader: BitReader, input: seq<Byte>, consumed: nat)
    requires consumed <= |input|
    ensures reader.Ahead(input[consumed..], 0) == reader.Ahead(input, consumed)
  {
    assert input[consumed..][0..] == input[consumed..];
  }
}
