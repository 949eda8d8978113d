/** What the decoder does at once (`src/decode/decoder.rs`): the commands of a metablock, a stretch of raw bytes or of
    metadata; each is a run of the machine's single steps. */
module DecoderRounds {
  import opened Arithmetic
  import opened Bytes
  import opened BitStream
  import opened BitPacking
  import B = BlockMachine
  import opened DecoderMachine
  import opened DecoderRuns
  import opened Outcomes

  datatype RoundOutcome = Goes | Stops(status: DecoderStatus)

  /** Bits or steps without bits have become fewer. */
  ghost predicate Lower(d: DecoderState, bits: seq<bool>, next: DecoderState, left: seq<bool>)
  {
    || |left| < |bits|
    || (|left| == |bits| && (Ahead(next) < Ahead(d) || (Ahead(next) == Ahead(d) && DecoderRank(next) < DecoderRank(d))))
  }

  /** What one round has to do with the run from where it started. */
  ghost predicate Moves(g: Given, d: DecoderState, bits: seq<bool>, room: nat, next: DecoderState, left: seq<bool>,
                        o: RoundOutcome)
  {
    && Admissible(g.parser) && Sound(d)
    && match o
       case Goes =>
         && Sound(next) && d.flat <= next.flat && |next.flat| - |d.flat| <= room && Lower(d, bits, next, left)
         && Decode(g, d, bits, room) == Decode(g, next, left, room - (|next.flat| - |d.flat|))
       case Stops(Failed(e)) => Decode(g, d, bits, room).status == Failed(e)
       case Stops(status) => Sound(next) && Decode(g, d, bits, room) == DecoderStop(next, left, status)
  }

  /** A single step. */
  lemma StepMoves(g: Given, d: DecoderState, bits: seq<bool>, room: nat)
    requires Admissible(g.parser) && Sound(d) && CanAdvance(g, d, |bits|, room)
    ensures match NextState(g, d, bits)
            case Ok(next) => Taken(g, d, |bits|) <= |bits| &&
                Moves(g, d, bits, room, next, bits[Taken(g, d, |bits|)..], Goes)
            case Err(e) => Moves(g, d, bits, room, d, bits, Stops(Failed(e)))
  {
    hide Sound, Admissible, CanAdvance, Aligns, BitsWanted, WaitsForRoom, NextState, Taken, Ahead, DecoderRank;
    StepOkMeans(g, d, bits, room);
    if NextState(g, d, bits).Ok? {
      hide Decode;
      var next, n := AdvancesAlike(g, d, bits, room, [], room);
      StepWrites(g, d, bits, room, next);
    }
  }

  lemma StepWrites(g: Given, d: DecoderState, bits: seq<bool>, room: nat, next: DecoderState)
    requires Sound(d) && CanAdvance(g, d, |bits|, room) && NextState(g, d, bits) == Ok(next)
    ensures d.flat <= next.flat && |next.flat| - |d.flat| <= room &&
            RoomAfter(room, d, next) == room - (|next.flat| - |d.flat|)
  {
    TakenWithin(g, d, |bits|);
    hide Sound, Aligns, BitsWanted, WaitsForRoom, Advance;
    AdvanceWrites(g, d, bits[..Taken(g, d, |bits|)]);
  }

  /** Nothing can be done until there is more input or room. */
  lemma WaitMoves(g: Given, d: DecoderState, bits: seq<bool>, room: nat)
    requires Admissible(g.parser) && Sound(d) && !CanAdvance(g, d, |bits|, room)
    ensures Moves(g, d, bits, room, d, bits, Stops(Waiting(d, room)))
  {
    hide Sound, Admissible, CanAdvance, NextState;
  }

  /** The decoder with its metablock's machine in another state. */
  function WithBlock(d: DecoderState, s: B.State): DecoderState
    requires d.phase.CompressedData?
  {
    d.(phase := CompressedData(d.phase.isLast, d.phase.codes, s), ring := s.ring, flat := s.flat)
  }

  /** A call of the metablock's machine stops for these reasons. */
  ghost predicate BlockStuck(h: B.Header, stop: B.Stop, room: nat)
  {
    match stop.status
    case Done => stop.state.phase.Finished?
    case NeedOutput => !stop.state.phase.Finished? && B.NeedsRoom(stop.state) && room == 0
    case NeedInput =>
      !stop.state.phase.Finished? && !(B.NeedsRoom(stop.state) && room == 0) &&
        |stop.rest| < B.BitsNeeded(h, stop.state)
    case Failed(e) =>
      && !stop.state.phase.Finished? && !(B.NeedsRoom(stop.state) && room == 0)
      && B.BitsNeeded(h, stop.state) <= |stop.rest|
      && B.Step(h, stop.state, stop.rest[..B.BitsNeeded(h, stop.state)]) == Err(e)
  }

  /** What a run of the metablock's machine leaves, and why it stops; it takes the bits of its first step if
      it takes that step at all. */
  lemma {:induction false} BlockStops(h: B.Header, s: B.State, input: seq<bool>, room: nat)
    requires B.Sane(h, s)
    ensures var stop := B.Run(h, s, input, room);
            && |stop.rest| <= |input| && stop.rest == input[|input| - |stop.rest|..]
            && s.flat <= stop.state.flat && |stop.state.flat| <= |s.flat| + room
            && BlockStuck(h, stop, room - (|stop.state.flat| - |s.flat|))
            && (B.CanStep(h, s, input, room) ==> |stop.rest| + B.BitsNeeded(h, s) <= |input|)
            && (!B.CanStep(h, s, input, room) ==> stop.state == s && stop.rest == input)
            && (s.phase.Finished? || stop.state == s || |stop.rest| + B.BitsNeeded(h, s) <= |input|)
            && (stop.status.Done? && stop.state == s ==> s.phase.Finished?)
    decreases |input| + s.remaining, B.Rank(h, s)
  {
    hide *;
    B.RunWrites(h, s, input, room);
    if B.CanStep(h, s, input, room) {
      var t, n := B.TakesStep(h, s, input, room, [], room);
      BlockStops(h, t, input[n..], B.Room(room, s, t));
      var u := B.Run(h, t, input[n..], B.Room(room, s, t)).state;
      assert |t.flat| <= |u.flat| <= |t.flat| + B.Room(room, s, t);
      B.RoomsAdd(s, t, u, room, room);
      DoneIsFinished(h, B.Run(h, s, input, room), room - (|u.flat| - |s.flat|));
    } else {
      StuckHere(h, s, input, room);
      DoneIsFinished(h, B.Run(h, s, input, room), room);
    }
  }

  lemma StuckHere(h: B.Header, s: B.State, input: seq<bool>, room: nat)
    requires B.Sane(h, s) && !B.CanStep(h, s, input, room)
    ensures var stop := B.Run(h, s, input, room); stop.state == s && stop.rest == input && BlockStuck(h, stop, room)
  {
    hide B.Sane, B.Step, B.BitsNeeded, B.NeedsRoom;
  }

  /** The commands of a metablock run on as the decoder's steps. */
  lemma {:induction false} DataRuns(g: Given, d: DecoderState, input: seq<bool>, room: nat)
    requires Admissible(g.parser) && Sound(d) && d.phase.CompressedData?
    ensures var stop := B.Run(d.phase.codes, d.phase.block, input, room);
            var next := WithBlock(d, stop.state);
            && Sound(next) && d.flat <= next.flat && |next.flat| - |d.flat| <= room
            && Decode(g, d, input, room) == Decode(g, next, stop.rest, room - (|next.flat| - |d.flat|))
    decreases |input| + d.phase.block.remaining, B.Rank(d.phase.codes, d.phase.block)
  {
    hide *;
    var h, s := d.phase.codes, d.phase.block;
    SoundBlock(d);
    B.RunWrites(h, s, input, room);
    if B.CanStep(h, s, input, room) {
      var t, n := B.TakesStep(h, s, input, room, [], room);
      DataStep(g, d, input, room, t, n);
      DataRuns(g, WithBlock(d, t), input[n..], B.Room(room, s, t));
      var u := B.Run(h, t, input[n..], B.Room(room, s, t)).state;
      B.RunWrites(h, t, input[n..], B.Room(room, s, t));
      assert |t.flat| <= |u.flat| <= |t.flat| + B.Room(room, s, t);
      B.RoomsAdd(s, t, u, room, room);
      WithBlockTwice(d, t, u);
    } else {
      B.CannotStep(h, s, input, room);
      WithBlockSame(d);
    }
  }

  lemma SoundBlock(d: DecoderState)
    requires Sound(d) && d.phase.CompressedData?
    ensures B.Sane(d.phase.codes, d.phase.block) && d.phase.block.flat == d.flat && d.phase.block.ring == d.ring
    ensures d.phase.codes.windowSize == WindowSize(d.windowBits)
  {
    hide B.Sane;
  }

  /** The reads of a metablock's data are short. */
  lemma DataWantsFewBits(g: Given, d: DecoderState)
    requires Sound(d) && d.phase.CompressedData?
    ensures BitsWanted(g, d) <= 24
    ensures BitsWanted(g, d) == if d.phase.block.phase.Finished? then 0 else B.BitsNeeded(d.phase.codes, d.phase.block)
  {
    B.NeedsFewBits(d.phase.codes, d.phase.block);
    hide B.Sane, B.BitsNeeded;
  }

  lemma WithBlockTwice(d: DecoderState, t: B.State, u: B.State)
    requires d.phase.CompressedData?
    ensures WithBlock(d, t).phase.CompressedData? && WithBlock(WithBlock(d, t), u) == WithBlock(d, u) &&
            WithBlock(d, t).flat == t.flat
    ensures WithBlock(d, t).phase.codes == d.phase.codes && WithBlock(d, t).phase.block == t &&
            WithBlock(d, u).flat == u.flat
  {
  }

  lemma WithBlockSame(d: DecoderState)
    requires d.phase.CompressedData? && d.phase.block.flat == d.flat && d.phase.block.ring == d.ring
    ensures WithBlock(d, d.phase.block) == d
  {
  }

  /** One step of the commands is one step of the decoder. */
  lemma DataStep(g: Given, d: DecoderState, input: seq<bool>, room: nat, t: B.State, n: nat)
    requires Admissible(g.parser) && Sound(d) && d.phase.CompressedData? &&
             B.CanStep(d.phase.codes, d.phase.block, input, room)
    requires n == B.BitsNeeded(d.phase.codes, d.phase.block) <= |input| &&
             B.Step(d.phase.codes, d.phase.block, input[..n]) == Ok(t)
    requires B.Sane(d.phase.codes, t)
    requires |d.phase.block.flat| <= |t.flat| <= |d.phase.block.flat| + room
    ensures WithBlock(d, t).phase == CompressedData(d.phase.isLast, d.phase.codes, t) && Sound(WithBlock(d, t)) &&
            WithBlock(d, t).flat == t.flat
    ensures Decode(g, d, input, room) == Decode(g, WithBlock(d, t), input[n..], B.Room(room, d.phase.block, t))
  {
    hide Decode, NextState, B.Sane, B.Step, B.BitsNeeded, B.NeedsRoom, Admissible, Taken, BitsWanted, CanAdvance;
    DataStepIs(g, d, input, room, t, n);
    DecodeUnfolds(g, d, input, room, WithBlock(d, t));
  }

  lemma DataStepIs(g: Given, d: DecoderState, input: seq<bool>, room: nat, t: B.State, n: nat)
    requires d.phase.CompressedData? && B.CanStep(d.phase.codes, d.phase.block, input, room)
    requires n == B.BitsNeeded(d.phase.codes, d.phase.block) <= |input| &&
             B.Step(d.phase.codes, d.phase.block, input[..n]) == Ok(t)
    ensures CanAdvance(g, d, |input|, room) && Taken(g, d, |input|) == n &&
            NextState(g, d, input) == Ok(WithBlock(d, t))
  {
    hide B.Step, B.BitsNeeded, B.NeedsRoom, B.Sane;
  }

  /** Where the commands stop for want of input or room, or with an error, the decoder stops. */
  lemma DataWaits(g: Given, d: DecoderState, rest: seq<bool>, room: nat, status: B.Status)
    requires Admissible(g.parser) && Sound(d) && d.phase.CompressedData? && !status.Done?
    requires BlockStuck(d.phase.codes, B.Stop(d.phase.block, rest, status), room)
    ensures status.NeedInput? ==>
            Decode(g, d, rest, room) == DecoderStop(d, rest, NeedInput) && |rest| < BitsWanted(g, d)
    ensures status.NeedOutput? ==> Decode(g, d, rest, room) == DecoderStop(d, rest, NeedOutput)
    ensures status.Failed? ==> Decode(g, d, rest, room).status == Failed(BadData(status.error))
  {
    hide B.Step, B.BitsNeeded, B.NeedsRoom, Admissible, Sound;
  }

  /** A stretch of raw bytes is copied byte by byte. */
  lemma {:induction false} RawRun(g: Given, d: DecoderState, bytes: seq<Byte>, rest: seq<bool>, room: nat)
    requires Admissible(g.parser) && Sound(d) && d.phase.Uncompressed? && |bytes| <= d.phase.remaining &&
             |bytes| <= room
    ensures var next := d.(flat := d.flat + bytes, phase := Uncompressed(d.phase.remaining - |bytes|));
            Sound(next) && Decode(g, d, BitsOf(bytes) + rest, room) == Decode(g, next, rest, room - |bytes|)
    decreases |bytes|
  {
    hide Decode, Admissible, BitsOf, Sound;
    if bytes == [] {
      NoBytes();
      assert [] + rest == rest && d.flat + [] == d.flat;
      assert d.(flat := d.flat + bytes, phase := Uncompressed(d.phase.remaining - |bytes|)) == d;
    } else {
      var b := bytes[0];
      BitsOfAppend([b], bytes[1..]);
      assert bytes == [b] + bytes[1..];
      assert BitsOf([b]) + BitsOf(bytes[1..]) + rest == BitsOf([b]) + (BitsOf(bytes[1..]) + rest);
      RawStep(g, d, b, BitsOf(bytes[1..]) + rest, room);
      var next := d.(flat := d.flat + [b], phase := Uncompressed(d.phase.remaining - 1));
      RawRun(g, next, bytes[1..], rest, room - 1);
      assert d.flat + [b] + bytes[1..] == d.flat + bytes;
    }
  }

  lemma RawStep(g: Given, d: DecoderState, b: Byte, rest: seq<bool>, room: nat)
    requires Admissible(g.parser) && Sound(d) && d.phase.Uncompressed? && d.phase.remaining > 0 && room > 0
    ensures var next := d.(flat := d.flat + [b], phase := Uncompressed(d.phase.remaining - 1));
            Sound(next) && Decode(g, d, BitsOf([b]) + rest, room) == Decode(g, next, rest, room - 1)
  {
    var next := d.(flat := d.flat + [b], phase := Uncompressed(d.phase.remaining - 1));
    var input := BitsOf([b]) + rest;
    OneByte(b);
    Pow2Of8();
    hide Pow2, Lsb;
    assert input[..8] == Lsb(b, 8) && input[8..] == rest;
    ValueOfLsb(b, 8);
    assert NextState(g, d, input) == Ok(next);
    hide Decode, NextState, Admissible, Sound;
    DecodeUnfolds(g, d, input, room, next);
  }

  /** Metadata is skipped byte by byte. */
  lemma {:induction false} SkipRun(g: Given, d: DecoderState, bytes: seq<Byte>, rest: seq<bool>, room: nat)
    requires Admissible(g.parser) && Sound(d) && d.phase.Metadata? && |bytes| <= d.phase.remaining
    ensures var next := d.(phase := Metadata(d.phase.remaining - |bytes|, d.phase.isLast));
            Sound(next) && Decode(g, d, BitsOf(bytes) + rest, room) == Decode(g, next, rest, room)
    decreases |bytes|
  {
    hide Decode, Admissible, BitsOf, Sound;
    if bytes == [] {
      NoBytes();
      assert [] + rest == rest;
      assert d.(phase := Metadata(d.phase.remaining - |bytes|, d.phase.isLast)) == d;
    } else {
      var b := bytes[0];
      BitsOfAppend([b], bytes[1..]);
      assert bytes == [b] + bytes[1..];
      assert BitsOf([b]) + BitsOf(bytes[1..]) + rest == BitsOf([b]) + (BitsOf(bytes[1..]) + rest);
      SkipStep(g, d, b, BitsOf(bytes[1..]) + rest, room);
      SkipRun(g, d.(phase := Metadata(d.phase.remaining - 1, d.phase.isLast)), bytes[1..], rest, room);
    }
  }

  lemma SkipStep(g: Given, d: DecoderState, b: Byte, rest: seq<bool>, room: nat)
    requires Admissible(g.parser) && Sound(d) && d.phase.Metadata? && d.phase.remaining > 0
    ensures var next := d.(phase := Metadata(d.phase.remaining - 1, d.phase.isLast));
            Sound(next) && Decode(g, d, BitsOf([b]) + rest, room) == Decode(g, next, rest, room)
  {
    var next := d.(phase := Metadata(d.phase.remaining - 1, d.phase.isLast));
    var input := BitsOf([b]) + rest;
    OneByte(b);
    assert input[8..] == rest;
    assert NextState(g, d, input) == Ok(next);
    hide Decode, NextState, Admissible, Sound, BitsOf;
    DecodeUnfolds(g, d, input, room, next);
  }

  /** The commands of a metablock as a round: they stop, or they are through and the metablock ends. */
  lemma DataMoves(g: Given, d: DecoderState, bits: seq<bool>, room: nat)
    requires Admissible(g.parser) && Sound(d) && d.phase.CompressedData?
    ensures var stop := B.Run(d.phase.codes, d.phase.block, bits, room);
            var next := WithBlock(d, stop.state);
            && Sound(next) && d.flat <= next.flat && |next.flat| - |d.flat| <= room && |stop.rest| <= |bits|
            && match stop.status
               case Failed(e) => Moves(g, d, bits, room, d, bits, Stops(Failed(BadData(e))))
               case NeedInput => Moves(g, d, bits, room, next, stop.rest, Stops(NeedInput)) &&
                   |stop.rest| < BitsWanted(g, next)
               case NeedOutput => Moves(g, d, bits, room, next, stop.rest, Stops(NeedOutput))
               case Done => next.phase.block.phase.Finished? && DataEnds(g, d, bits, room, next, stop.rest)
  {
    hide *;
    SoundBlock(d);
    var stop := B.Run(d.phase.codes, d.phase.block, bits, room);
    DataRuns(g, d, bits, room);
    BlockStops(d.phase.codes, d.phase.block, bits, room);
    WithBlockTwice(d, stop.state, stop.state);
    var next := WithBlock(d, stop.state);
    var left := room - (|next.flat| - |d.flat|);
    if stop.status.Done? {
      DoneIsFinished(d.phase.codes, stop, left);
      EndMoves(g, d, bits, room, next, stop.rest);
    } else {
      DataWaits(g, next, stop.rest, left, stop.status);
      StopMoves(g, d, bits, room, next, stop.rest, stop.status);
    }
  }

  lemma DoneIsFinished(h: B.Header, stop: B.Stop, room: nat)
    requires BlockStuck(h, stop, room)
    ensures stop.status.Done? ==> stop.state.phase.Finished?
  {
  }

  lemma StopMoves(g: Given, d: DecoderState, bits: seq<bool>, room: nat, next: DecoderState, rest: seq<bool>,
                  status: B.Status)
    requires Admissible(g.parser) && Sound(d) && Sound(next) && d.flat <= next.flat && |next.flat| - |d.flat| <= room
    requires Decode(g, d, bits, room) == Decode(g, next, rest, room - (|next.flat| - |d.flat|))
    requires status.NeedInput? ==>
             Decode(g, next, rest, room - (|next.flat| - |d.flat|)) == DecoderStop(next, rest, NeedInput)
    requires status.NeedOutput? ==>
             Decode(g, next, rest, room - (|next.flat| - |d.flat|)) == DecoderStop(next, rest, NeedOutput)
    requires status.Failed? ==>
             Decode(g, next, rest, room - (|next.flat| - |d.flat|)).status == Failed(BadData(status.error))
    ensures status.NeedInput? ==> Moves(g, d, bits, room, next, rest, Stops(NeedInput))
    ensures status.NeedOutput? ==> Moves(g, d, bits, room, next, rest, Stops(NeedOutput))
    ensures status.Failed? ==> Moves(g, d, bits, room, d, bits, Stops(Failed(BadData(status.error))))
  {
    hide Decode, Sound, Admissible;
  }

  /** The end of a metablock's data, and what comes after it. */
  ghost predicate DataEnds(g: Given, d: DecoderState, bits: seq<bool>, room: nat, ended: DecoderState, rest: seq<bool>)
    requires ended.phase.CompressedData? && ended.phase.block.phase.Finished?
  {
    var n := Taken(g, ended, |rest|);
    n <= |rest| &&
    match NextState(g, ended, rest)
    case Ok(next) => Moves(g, d, bits, room, next, rest[n..], Goes)
    case Err(e) => Moves(g, d, bits, room, d, bits, Stops(Failed(e)))
  }

  lemma EndMoves(g: Given, d: DecoderState, bits: seq<bool>, room: nat, ended: DecoderState, rest: seq<bool>)
    requires Admissible(g.parser) && Sound(d) && d.phase.CompressedData? && Sound(ended) && ended.phase.CompressedData?
    requires ended.phase.block.phase.Finished? && d.flat <= ended.flat && |ended.flat| - |d.flat| <= room &&
             |rest| <= |bits|
    requires Decode(g, d, bits, room) == Decode(g, ended, rest, room - (|ended.flat| - |d.flat|))
    ensures DataEnds(g, d, bits, room, ended, rest)
  {
    hide Decode, Sound, Admissible, CanAdvance, AllZero, NextState, Taken, WithBlock;
    var left: nat := room - (|ended.flat| - |d.flat|);
    CanEnd(g, ended, |rest|, left);
    StepMoves(g, ended, rest, left);
    if NextState(g, ended, rest).Ok? {
      AfterEnd(g, ended, rest);
    }
  }

  lemma CanEnd(g: Given, ended: DecoderState, available: nat, room: nat)
    requires ended.phase.CompressedData? && ended.phase.block.phase.Finished?
    ensures CanAdvance(g, ended, available, room) && Taken(g, ended, available) <= available
    ensures !ended.phase.Finished? && (Aligns(ended) || BitsWanted(g, ended) <= available)
  {
  }

  lemma AfterEnd(g: Given, ended: DecoderState, rest: seq<bool>)
    requires ended.phase.CompressedData? && ended.phase.block.phase.Finished?
    requires (Aligns(ended) || BitsWanted(g, ended) <= |rest|) && NextState(g, ended, rest).Ok?
    ensures var next := NextState(g, ended, rest).value; next.flat == ended.flat && Ahead(next) == 0
    ensures NextState(g, ended, rest) == Ok(ended.(phase := if ended.phase.isLast then Finished
                                                   else MetaBlockHeader(Fresh())))
  {
    hide AllZero;
  }

  /** A stretch of raw bytes as a round. */
  lemma RawMoves(g: Given, d: DecoderState, bytes: seq<Byte>, rest: seq<bool>, room: nat)
    requires Admissible(g.parser) && Sound(d) && d.phase.Uncompressed? && 0 < |bytes| <= d.phase.remaining &&
             |bytes| <= room
    ensures Moves(g, d, BitsOf(bytes) + rest, room, d.(flat := d.flat + bytes,
                                                       phase := Uncompressed(d.phase.remaining - |bytes|)), rest, Goes)
  {
    hide *;
    RawRun(g, d, bytes, rest, room);
    TakenMoves(g, d, BitsOf(bytes) + rest, room, d.(flat := d.flat + bytes,
                                                    phase := Uncompressed(d.phase.remaining - |bytes|)), rest);
  }

  lemma TakenMoves(g: Given, d: DecoderState, bits: seq<bool>, room: nat, next: DecoderState, left: seq<bool>)
    requires Admissible(g.parser) && Sound(d) && Sound(next) && d.flat <= next.flat && |next.flat| - |d.flat| <= room &&
             |left| < |bits|
    requires Decode(g, d, bits, room) == Decode(g, next, left, room - (|next.flat| - |d.flat|))
    ensures Moves(g, d, bits, room, next, left, Goes)
  {
    hide Decode, Sound, Admissible, Ahead, DecoderRank;
  }

  /** Skipped metadata as a round. */
  lemma SkipMoves(g: Given, d: DecoderState, bytes: seq<Byte>, rest: seq<bool>, room: nat)
    requires Admissible(g.parser) && Sound(d) && d.phase.Metadata? && 0 < |bytes| <= d.phase.remaining
    ensures Moves(g, d, BitsOf(bytes) + rest, room, d.(phase := Metadata(d.phase.remaining - |bytes|, d.phase.isLast)),
                  rest, Goes)
  {
    hide *;
    SkipRun(g, d, bytes, rest, room);
    TakenMoves(g, d, BitsOf(bytes) + rest, room, d.(phase := Metadata(d.phase.remaining - |bytes|, d.phase.isLast)),
               rest);
  }
}
