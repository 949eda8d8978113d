/** Whole decodings (`src/decode/decoder.rs`): every call stops, and however the compressed bytes and the room for
    output are sliced, the calls amount to one run, which ends on a byte boundary. */
module DecoderRuns {
  import opened Arithmetic
  import opened Bytes
  import opened BitPacking
  import opened BlockStates
  import B = BlockMachine
  import opened DecoderMachine
  import opened Outcomes

  datatype DecoderStatus = NeedInput | NeedOutput | Done | Failed(error: DecodeError)

  /** Where a call stops: the state, the bits it leaves, and why. */
  datatype DecoderStop = DecoderStop(state: DecoderState, rest: seq<bool>, status: DecoderStatus)

  function RoomAfter(room: nat, d: DecoderState, next: DecoderState): nat
  {
    var written := |Output(next)| - |Output(d)|;
    if written <= 0 then room else if written <= room then room - written else 0
  }

  /** There is room, and there are bits, for the next step. */
  predicate CanAdvance(g: Given, d: DecoderState, available: nat, room: nat)
  {
    !d.phase.Finished? && !(WaitsForRoom(d) && room == 0) && (Aligns(d) || BitsWanted(g, d) <= available)
  }

  /** Why the next step has to wait. */
  function Waiting(d: DecoderState, room: nat): DecoderStatus
  {
    if d.phase.Finished? then Done else if WaitsForRoom(d) && room == 0 then NeedOutput else NeedInput
  }

  function NextState(g: Given, d: DecoderState, input: seq<bool>): Result<DecoderState, DecodeError>
    requires !d.phase.Finished? && (Aligns(d) || BitsWanted(g, d) <= |input|)
  {
    Advance(g, d, input[..Taken(g, d, |input|)])
  }

  function StateKept(g: Given, d: DecoderState, input: seq<bool>): (next: DecoderState)
    requires Admissible(g.parser) && Sound(d) && !d.phase.Finished? && (Aligns(d) || BitsWanted(g, d) <= |input|)
    requires NextState(g, d, input).Ok?
    ensures next == NextState(g, d, input).value && Sound(next) && Closer(d, Taken(g, d, |input|), next)
  {
    hide Advance, Sound, Closer, Aligns, BitsWanted, Admissible;
    AdvanceKeeps(g, d, input[..Taken(g, d, |input|)]);
    NextState(g, d, input).value
  }

  /** Steps until bits or room run out, an error, or the end of the stream. It always stops. */
  function Decode(g: Given, d: DecoderState, input: seq<bool>, room: nat): (stop: DecoderStop)
    requires Admissible(g.parser) && Sound(d)
    ensures Sound(stop.state)
    decreases |input|, Ahead(d), DecoderRank(d)
  {
    if !CanAdvance(g, d, |input|, room) then DecoderStop(d, input, Waiting(d, room))
    else
      match NextState(g, d, input)
      case Err(e) => DecoderStop(d, input, Failed(e))
      case Ok(next) =>
        assert next == StateKept(g, d, input);
        Decode(g, next, input[Taken(g, d, |input|)..], RoomAfter(room, d, next))
  }

  /** A step writes at most one byte, and only if it waited for room; what is written stays. */
  lemma AdvanceWrites(g: Given, d: DecoderState, bits: seq<bool>)
    requires Sound(d) && !d.phase.Finished? && (Aligns(d) || |bits| == BitsWanted(g, d)) && Advance(g, d, bits).Ok?
    ensures var next := Advance(g, d, bits).value;
            Output(d) <= Output(next) && |Output(next)| <= |Output(d)| + if WaitsForRoom(d) then 1 else 0
  {
    match d.phase {
      case CompressedData(isLast, codes, s) =>
        hide B.BitsNeeded, B.Step, AllZero;
        if !s.phase.Finished? {
          B.StepWrites(codes, s, bits);
        }
      case _ =>
        hide Pow2, AllZero, StepHeader, StepAlign, StepWindow;
    }
  }

  /** The step taken on part of the input is the step taken on all of it: more input comes in whole bytes,
      so the byte boundary is where it was. */
  lemma AdvancesAlike(g: Given, d: DecoderState, input: seq<bool>, room: nat, x: seq<bool>, more: nat)
    returns (next: DecoderState, n: nat)
    requires Admissible(g.parser) && Sound(d) && room <= more && |x| % 8 == 0
    requires CanAdvance(g, d, |input|, room) && NextState(g, d, input).Ok?
    ensures n == Taken(g, d, |input|) <= |input| && NextState(g, d, input) == Ok(next) && Sound(next)
    ensures |Output(d)| <= |Output(next)| <= |Output(d)| + room
    ensures Decode(g, d, input, room) == Decode(g, next, input[n..], RoomAfter(room, d, next))
    ensures Decode(g, d, input + x, more) == Decode(g, next, input[n..] + x, RoomAfter(more, d, next))
    ensures |input[n..]| < |input| || Ahead(next) < Ahead(d) ||
            (Ahead(next) == Ahead(d) && DecoderRank(next) < DecoderRank(d))
  {
    n := Taken(g, d, |input|);
    assert Taken(g, d, |input + x|) == n;
    B.Unsplit(input, x, n);
    hide Advance, Sound, Aligns, BitsWanted, Admissible, WaitsForRoom, Ahead, DecoderRank, Output;
    AdvanceWrites(g, d, input[..n]);
    next := StateKept(g, d, input);
    assert NextState(g, d, input + x) == Ok(next);
    hide Decode;
    DecodeUnfolds(g, d, input, room, next);
    DecodeUnfolds(g, d, input + x, more, next);
  }

  lemma DecodeUnfolds(g: Given, d: DecoderState, input: seq<bool>, room: nat, next: DecoderState)
    requires Admissible(g.parser) && Sound(d) && CanAdvance(g, d, |input|, room) && NextState(g, d, input) == Ok(next)
    ensures Sound(next) && Decode(g, d, input, room) == Decode(g, next, input[Taken(g, d, |input|)..],
                                                               RoomAfter(room, d, next))
  {
    hide NextState, Sound, Ahead, DecoderRank, BitsWanted, WaitsForRoom, Admissible, Aligns;
    assert next == StateKept(g, d, input);
  }

  lemma DecodeStays(g: Given, d: DecoderState, input: seq<bool>, room: nat)
    requires Admissible(g.parser) && Sound(d) && !(CanAdvance(g, d, |input|, room) && NextState(g, d, input).Ok?)
    ensures Decode(g, d, input, room).state == d && Decode(g, d, input, room).rest == input
  {
    hide NextState, Sound, Admissible;
  }

  /** The decoder does not notice where its input or output was cut: with more of both at once it takes the
      same steps, and goes on from where it would have stopped. */
  lemma {:induction false} DecodeContinues(g: Given, d: DecoderState, input: seq<bool>, room: nat, x: seq<bool>,
                                           more: nat)
    requires Admissible(g.parser) && Sound(d) && room <= more && |x| % 8 == 0
    ensures var stop := Decode(g, d, input, room);
            && |Output(d)| <= |Output(stop.state)| <= |Output(d)| + room
            && Decode(g, d, input + x, more) == Decode(g, stop.state, stop.rest + x,
                                                       more - (|Output(stop.state)| - |Output(d)|))
    decreases |input|, Ahead(d), DecoderRank(d)
  {
    hide *;
    if StepOk(g, d, input, room) {
      StepOkMeans(g, d, input, room);
      var next, n := AdvancesAlike(g, d, input, room, x, more);
      RoomsOrdered(room, more, d, next);
      DecodeContinues(g, next, input[n..], RoomAfter(room, d, next), x, RoomAfter(more, d, next));
      RoomsAdd(d, next, Decode(g, d, input, room).state, room, more);
    } else {
      StepOkMeans(g, d, input, room);
      DecodeStays(g, d, input, room);
    }
  }

  predicate StepOk(g: Given, d: DecoderState, input: seq<bool>, room: nat)
  {
    CanAdvance(g, d, |input|, room) && NextState(g, d, input).Ok?
  }

  lemma StepOkMeans(g: Given, d: DecoderState, input: seq<bool>, room: nat)
    ensures CanAdvance(g, d, |input|, room) ==> !d.phase.Finished? && (Aligns(d) || BitsWanted(g, d) <= |input|)
    ensures StepOk(g, d, input, room) <==> CanAdvance(g, d, |input|, room) && NextState(g, d, input).Ok?
  {
  }

  lemma RoomsOrdered(room: nat, more: nat, d: DecoderState, next: DecoderState)
    requires room <= more
    ensures RoomAfter(room, d, next) <= RoomAfter(more, d, next)
  {
    hide Output;
  }

  lemma RoomsAdd(d: DecoderState, next: DecoderState, last: DecoderState, room: nat, more: nat)
    requires room <= more && |Output(d)| <= |Output(next)| <= |Output(d)| + room
    requires |Output(next)| <= |Output(last)| <= |Output(next)| + RoomAfter(room, d, next)
    ensures |Output(d)| <= |Output(last)| <= |Output(d)| + room
    ensures RoomAfter(more, d, next) - (|Output(last)| - |Output(next)|) == more - (|Output(last)| - |Output(d)|)
  {
    hide Output;
  }

  /** A call's share of the compressed bytes and of the output. */
  datatype Piece = Piece(input: seq<Byte>, room: nat)

  /** Call after call, each with the bits the last one left and new bytes. */
  function DecodePieces(g: Given, d: DecoderState, rest: seq<bool>, pieces: seq<Piece>): (stop: DecoderStop)
    requires Admissible(g.parser) && Sound(d)
    ensures Sound(stop.state)
    decreases |pieces|
  {
    if pieces == [] then DecoderStop(d, rest, NeedInput)
    else
      var stop := Decode(g, d, rest + BitsOf(pieces[0].input), pieces[0].room);
      if |pieces| == 1 then stop else DecodePieces(g, stop.state, stop.rest, pieces[1..])
  }

  /** One call more. */
  lemma {:induction false} OnePieceMore(g: Given, d: DecoderState, rest: seq<bool>, pieces: seq<Piece>, piece: Piece)
    requires Admissible(g.parser) && Sound(d)
    ensures var stop := DecodePieces(g, d, rest, pieces);
            DecodePieces(g, d, rest, pieces + [piece]) == Decode(g, stop.state, stop.rest + BitsOf(piece.input),
                                                                 piece.room)
    decreases |pieces|
  {
    hide Decode, Sound, Admissible, BitsOf;
    if pieces == [] {
      assert [] + [piece] == [piece];
    } else {
      var all := pieces + [piece];
      assert all[0] == pieces[0] && all[1..] == pieces[1..] + [piece];
      var stop := Decode(g, d, rest + BitsOf(pieces[0].input), pieces[0].room);
      OnePieceMore(g, stop.state, stop.rest, pieces[1..], piece);
      if |pieces| == 1 {
        assert pieces[1..] == [];
      }
    }
  }

  function AllBytes(pieces: seq<Piece>): seq<Byte>
  {
    if pieces == [] then [] else pieces[0].input + AllBytes(pieces[1..])
  }

  function TotalRoom(pieces: seq<Piece>): nat
  {
    if pieces == [] then 0 else pieces[0].room + TotalRoom(pieces[1..])
  }

  /** Where the calls stop, the one run over all the bytes passes through, with the same bits unread. */
  lemma {:induction false} PiecesContinue(g: Given, d: DecoderState, rest: seq<bool>, pieces: seq<Piece>, room: nat)
    requires Admissible(g.parser) && Sound(d) && TotalRoom(pieces) <= room
    ensures var stop := DecodePieces(g, d, rest, pieces);
            && |Output(d)| <= |Output(stop.state)| <= |Output(d)| + room
            && Decode(g, d, rest + BitsOf(AllBytes(pieces)), room) ==
               Decode(g, stop.state, stop.rest, room - (|Output(stop.state)| - |Output(d)|))
    decreases |pieces|
  {
    hide Decode, Sound, Admissible, BitsOf, Output;
    if pieces == [] {
      NoBytes();
      assert rest + [] == rest;
    } else {
      var first, later := pieces[0], pieces[1..];
      var stop := Decode(g, d, rest + BitsOf(first.input), first.room);
      BitsOfAppend(first.input, AllBytes(later));
      assert rest + BitsOf(AllBytes(pieces)) == rest + BitsOf(first.input) + BitsOf(AllBytes(later));
      DecodeContinues(g, d, rest + BitsOf(first.input), first.room, BitsOf(AllBytes(later)), room);
      WritesWithin(g, d, rest + BitsOf(first.input), first.room);
      if |pieces| == 1 {
        NoBytes();
        assert stop.rest + [] == stop.rest;
      } else {
        PiecesContinue(g, stop.state, stop.rest, later, room - (|Output(stop.state)| - |Output(d)|));
      }
    }
  }

  lemma WritesWithin(g: Given, d: DecoderState, input: seq<bool>, room: nat)
    requires Admissible(g.parser) && Sound(d)
    ensures |Output(d)| <= |Output(Decode(g, d, input, room).state)| <= |Output(d)| + room
  {
    hide *;
    DecodeContinues(g, d, input, room, [], room);
  }

  /** A call that ends for good would end again at once. */
  ghost predicate Settled(g: Given, stop: DecoderStop)
  {
    match stop.status
    case Done => stop.state.phase.Finished?
    case Failed(e) =>
      && !stop.state.phase.Finished? && !WaitsForRoom(stop.state)
      && (Aligns(stop.state) || BitsWanted(g, stop.state) <= |stop.rest|)
      && NextState(g, stop.state, stop.rest) == Err(e)
    case _ => true
  }

  /** Nothing fails while waiting for room. */
  lemma FailsWithoutRoom(g: Given, d: DecoderState, bits: seq<bool>)
    requires Sound(d) && !d.phase.Finished? && (Aligns(d) || |bits| == BitsWanted(g, d)) && Advance(g, d, bits).Err?
    ensures !WaitsForRoom(d)
  {
    match d.phase {
      case CompressedData(_, codes, s) =>
        hide B.BitsNeeded, B.Step, B.Sane, B.NeedsRoom, AllZero;
        if !s.phase.Finished? {
          B.ErrorsNeedNoRoom(codes, s, bits);
        }
      case _ =>
        hide Pow2;
    }
  }

  lemma {:induction false} DecodeSettles(g: Given, d: DecoderState, input: seq<bool>, room: nat)
    requires Admissible(g.parser) && Sound(d)
    ensures Settled(g, Decode(g, d, input, room))
    decreases |input|, Ahead(d), DecoderRank(d)
  {
    if StepOk(g, d, input, room) {
      var next := StateKept(g, d, input);
      hide NextState, Sound, Ahead, DecoderRank, BitsWanted, WaitsForRoom, Admissible, Aligns, Settled;
      DecodeSettles(g, next, input[Taken(g, d, |input|)..], RoomAfter(room, d, next));
    } else if CanAdvance(g, d, |input|, room) {
      FailsWithoutRoom(g, d, input[..Taken(g, d, |input|)]);
      hide Advance, Sound, BitsWanted, WaitsForRoom, Admissible, Aligns;
    } else {
      hide NextState, Sound, BitsWanted, WaitsForRoom, Admissible, Aligns;
    }
  }

  lemma {:induction false} PiecesSettle(g: Given, d: DecoderState, rest: seq<bool>, pieces: seq<Piece>)
    requires Admissible(g.parser) && Sound(d)
    ensures Settled(g, DecodePieces(g, d, rest, pieces))
    decreases |pieces|
  {
    hide Decode, Sound, Admissible, NextState, BitsWanted, WaitsForRoom, Aligns;
    if pieces != [] {
      DecodeSettles(g, d, rest + BitsOf(pieces[0].input), pieces[0].room);
      if |pieces| > 1 {
        var stop := Decode(g, d, rest + BitsOf(pieces[0].input), pieces[0].room);
        PiecesSettle(g, stop.state, stop.rest, pieces[1..]);
      }
    }
  }

  lemma StaysSettled(g: Given, stop: DecoderStop, room: nat)
    requires Admissible(g.parser) && Sound(stop.state) && Settled(g, stop) && (stop.status.Done? || stop.status.Failed?)
    ensures Decode(g, stop.state, stop.rest, room) == stop
  {
    hide NextState, Sound, BitsWanted, WaitsForRoom, Admissible, Aligns;
  }

  /** Raw bytes are copied and skipped, and the stream ends, on a byte boundary. */
  predicate OnBoundary(d: DecoderState, available: nat)
  {
    (d.phase.Uncompressed? || d.phase.Metadata? || d.phase.Finished?) ==> available % 8 == 0
  }

  lemma AdvanceToBoundary(g: Given, d: DecoderState, available: nat, bits: seq<bool>)
    requires !d.phase.Finished? && OnBoundary(d, available) && |bits| == Taken(g, d, available) <= available
    requires Advance(g, d, bits).Ok?
    ensures OnBoundary(Advance(g, d, bits).value, available - |bits|)
  {
    hide Pow2, B.Step, B.BitsNeeded, AllZero;
  }

  /** Why a call stops: the next step fails, or has to wait with the room that is left. */
  ghost predicate Stuck(g: Given, stop: DecoderStop, room: nat)
  {
    stop.status.Failed? || (!CanAdvance(g, stop.state, |stop.rest|, room) && stop.status == Waiting(stop.state, room))
  }

  /** Where a call stops: what it leaves is the end of its input, still on the boundary where bytes are raw. */
  lemma {:induction false} DecodeStops(g: Given, d: DecoderState, input: seq<bool>, room: nat)
    requires Admissible(g.parser) && Sound(d) && OnBoundary(d, |input|)
    ensures var stop := Decode(g, d, input, room);
            && |stop.rest| <= |input| && stop.rest == input[|input| - |stop.rest|..]
            && OnBoundary(stop.state, |stop.rest|)
            && |Output(d)| <= |Output(stop.state)| <= |Output(d)| + room
            && Stuck(g, stop, room - (|Output(stop.state)| - |Output(d)|))
    decreases |input|, Ahead(d), DecoderRank(d)
  {
    hide *;
    WritesWithin(g, d, input, room);
    StepOkMeans(g, d, input, room);
    if StepOk(g, d, input, room) {
      var next, n := AdvancesAlike(g, d, input, room, [], room);
      StepsToBoundary(g, d, input, room, next, n);
      DecodeStops(g, next, input[n..], RoomAfter(room, d, next));
      RoomsAdd(d, next, Decode(g, d, input, room).state, room, room);
    } else {
      StopsHere(g, d, input, room);
    }
  }

  lemma StepsToBoundary(g: Given, d: DecoderState, input: seq<bool>, room: nat, next: DecoderState, n: nat)
    requires StepOk(g, d, input, room) && NextState(g, d, input) == Ok(next) && n == Taken(g, d, |input|) <= |input|
    requires OnBoundary(d, |input|)
    ensures OnBoundary(next, |input[n..]|)
  {
    hide OnBoundary, Advance, BitsWanted, Aligns, WaitsForRoom;
    AdvanceToBoundary(g, d, |input|, input[..n]);
  }

  lemma StopsHere(g: Given, d: DecoderState, input: seq<bool>, room: nat)
    requires Admissible(g.parser) && Sound(d) && !StepOk(g, d, input, room)
    ensures var stop := Decode(g, d, input, room); stop.state == d && stop.rest == input && Stuck(g, stop, room)
  {
    hide NextState, Sound, Admissible, BitsWanted, Aligns, WaitsForRoom;
  }

  /** A call that waits for input waits for it with any room; one that waits for output has none. */
  lemma WaitsFor(g: Given, stop: DecoderStop, room: nat, more: nat)
    requires Admissible(g.parser) && Sound(stop.state) && Stuck(g, stop, room) && room <= more
    ensures stop.status.NeedInput? ==> Decode(g, stop.state, stop.rest, more) == stop
    ensures stop.status.NeedOutput? ==> room == 0 && !stop.state.phase.Finished?
  {
    hide Sound, Admissible, Advance, BitsWanted, WaitsForRoom, Aligns;
  }

  lemma {:induction false} RoomOfParts(a: seq<Piece>, b: seq<Piece>)
    ensures TotalRoom(a + b) == TotalRoom(a) + TotalRoom(b)
  {
    if a == [] {
      assert [] + b == b;
    } else {
      RoomOfParts(a[1..], b);
      assert (a + b)[1..] == a[1..] + b;
    }
  }

  /** Output that has been written stays. */
  lemma {:induction false} DecodeKeepsOutput(g: Given, d: DecoderState, input: seq<bool>, room: nat)
    requires Admissible(g.parser) && Sound(d)
    ensures Output(d) <= Output(Decode(g, d, input, room).state)
    decreases |input|, Ahead(d), DecoderRank(d)
  {
    if StepOk(g, d, input, room) {
      AdvanceWrites(g, d, input[..Taken(g, d, |input|)]);
      var next := StateKept(g, d, input);
      hide Advance, Sound, Ahead, DecoderRank, BitsWanted, WaitsForRoom, Admissible, Aligns, Output;
      DecodeKeepsOutput(g, next, input[Taken(g, d, |input|)..], RoomAfter(room, d, next));
    } else {
      hide NextState, Sound, Admissible;
    }
  }

  /** A run to the end of the stream puts out all that was owed when it began. */
  lemma {:induction false} DecodeOwes(g: Given, d: DecoderState, input: seq<bool>, room: nat)
    requires Admissible(g.parser) && Sound(d) && Decode(g, d, input, room).status.Done?
    ensures |Output(Decode(g, d, input, room).state)| >= |Output(d)| + Owed(d)
    decreases |input|, Ahead(d), DecoderRank(d)
  {
    if StepOk(g, d, input, room) {
      AdvanceOwes(g, d, input[..Taken(g, d, |input|)]);
      var next := StateKept(g, d, input);
      hide Advance, Sound, Ahead, DecoderRank, BitsWanted, WaitsForRoom, Admissible, Aligns, Output, Owed;
      DecodeOwes(g, next, input[Taken(g, d, |input|)..], RoomAfter(room, d, next));
    } else {
      hide NextState, Sound, Admissible, Output;
      assert d.phase.Finished? && Owed(d) == 0;
    }
  }

  /** Where calls stop: what they leave is on the boundary where bytes are raw, what they put out stays, and the
      last one stops for a stated reason. */
  lemma {:induction false} PiecesStop(g: Given, d: DecoderState, pieces: seq<Piece>)
    requires Admissible(g.parser) && Sound(d)
    ensures var stop := DecodePieces(g, d, [], pieces);
            && OnBoundary(stop.state, |stop.rest|) && Output(d) <= Output(stop.state)
            && (pieces != [] ==>
                  var last, before := pieces[|pieces| - 1], DecodePieces(g, d, [], pieces[..|pieces| - 1]).state;
                  && |Output(before)| <= |Output(stop.state)| <= |Output(before)| + last.room
                  && Stuck(g, stop, last.room - (|Output(stop.state)| - |Output(before)|)))
    decreases |pieces|
  {
    hide *;
    if pieces == [] {
      NoPieces(g, d);
      EmptyOnBoundary(d);
    } else {
      var front, last := pieces[..|pieces| - 1], pieces[|pieces| - 1];
      var before := DecodePieces(g, d, [], front);
      assert pieces == front + [last];
      PiecesStop(g, d, front);
      OnePieceMore(g, d, [], front, last);
      var bits := before.rest + BitsOf(last.input);
      SameBoundary(before.state, |before.rest|, |bits|);
      DecodeStops(g, before.state, bits, last.room);
      DecodeKeepsOutput(g, before.state, bits, last.room);
    }
  }

  lemma EmptyOnBoundary(d: DecoderState)
    ensures OnBoundary(d, 0)
  {
  }

  lemma NoPieces(g: Given, d: DecoderState)
    requires Admissible(g.parser) && Sound(d)
    ensures DecodePieces(g, d, [], []) == DecoderStop(d, [], NeedInput)
  {
    hide Admissible, Sound;
  }

  /** So if the last call wants more input, one call on all of it, with any room the calls had or more, stops in
      the same place and wants more too. */
  lemma PiecesWait(g: Given, d: DecoderState, pieces: seq<Piece>, room: nat)
    requires Admissible(g.parser) && Sound(d) && pieces != [] && TotalRoom(pieces) <= room
    requires DecodePieces(g, d, [], pieces).status.NeedInput?
    ensures Decode(g, d, BitsOf(AllBytes(pieces)), room) == DecodePieces(g, d, [], pieces)
  {
    hide *;
    var stop, front, last := DecodePieces(g, d, [], pieces), pieces[..|pieces| - 1], pieces[|pieces| - 1];
    PiecesStop(g, d, pieces);
    PiecesContinue(g, d, [], pieces, room);
    PiecesContinue(g, d, [], front, TotalRoom(front));
    RoomOfParts(front, [last]);
    RoomOfOne(last);
    assert pieces == front + [last] && [] + BitsOf(AllBytes(pieces)) == BitsOf(AllBytes(pieces));
    var before := DecodePieces(g, d, [], front).state;
    WaitsFor(g, stop, last.room - (|Output(stop.state)| - |Output(before)|),
             room - (|Output(stop.state)| - |Output(d)|));
  }

  lemma RoomOfOne(piece: Piece)
    ensures TotalRoom([piece]) == piece.room
  {
    assert [piece][1..] == [];
  }

  /** However input and output were sliced: once the stream has ended or failed, or the last call wants more input,
      the outcome, the bytes and the bits left unread are those of one call with all of the input. */
  lemma PiecesAgree(g: Given, d: DecoderState, pieces: seq<Piece>, room: nat)
    requires Admissible(g.parser) && Sound(d) && pieces != [] && TotalRoom(pieces) <= room
    requires !DecodePieces(g, d, [], pieces).status.NeedOutput?
    ensures Decode(g, d, BitsOf(AllBytes(pieces)), room) == DecodePieces(g, d, [], pieces)
  {
    hide *;
    var stop := DecodePieces(g, d, [], pieces);
    if stop.status.NeedInput? {
      PiecesWait(g, d, pieces, room);
    } else {
      PiecesContinue(g, d, [], pieces, room);
      PiecesSettle(g, d, [], pieces);
      assert [] + BitsOf(AllBytes(pieces)) == BitsOf(AllBytes(pieces));
      StaysSettled(g, stop, room - (|Output(stop.state)| - |Output(d)|));
    }
  }

  /** So two slicings of the same bytes agree. */
  lemma SlicingsAgree(g: Given, d: DecoderState, a: seq<Piece>, b: seq<Piece>)
    requires Admissible(g.parser) && Sound(d) && a != [] && b != [] && AllBytes(a) == AllBytes(b)
    requires !DecodePieces(g, d, [], a).status.NeedOutput? && !DecodePieces(g, d, [], b).status.NeedOutput?
    ensures DecodePieces(g, d, [], a) == DecodePieces(g, d, [], b)
  {
    hide *;
    var room := TotalRoom(a) + TotalRoom(b);
    PiecesAgree(g, d, a, room);
    PiecesAgree(g, d, b, room);
  }

  /** If one call ends the stream, so do calls that are given the same bytes, as soon as the last of them has room
      for what is still to be put out; with less they wait for room, never for input. */
  lemma PiecesEnd(g: Given, d: DecoderState, pieces: seq<Piece>, room: nat)
    requires Admissible(g.parser) && Sound(d) && pieces != [] && TotalRoom(pieces) <= room
    requires Decode(g, d, BitsOf(AllBytes(pieces)), room).status.Done?
    ensures var stop, whole := DecodePieces(g, d, [], pieces), Decode(g, d, BitsOf(AllBytes(pieces)), room);
            var last, before := pieces[|pieces| - 1], DecodePieces(g, d, [], pieces[..|pieces| - 1]).state;
            && (stop.status.Done? || stop.status.NeedOutput?) && Output(stop.state) <= Output(whole.state)
            && (stop.status.Done? ==> stop == whole)
            && (stop.status.Done? <==> |Output(whole.state)| <= |Output(before)| + last.room)
  {
    hide *;
    var stop, whole := DecodePieces(g, d, [], pieces), Decode(g, d, BitsOf(AllBytes(pieces)), room);
    var last, before := pieces[|pieces| - 1], DecodePieces(g, d, [], pieces[..|pieces| - 1]).state;
    PiecesStop(g, d, pieces);
    PiecesContinue(g, d, [], pieces, room);
    assert [] + BitsOf(AllBytes(pieces)) == BitsOf(AllBytes(pieces));
    var left := room - (|Output(stop.state)| - |Output(d)|);
    DecodeKeepsOutput(g, stop.state, stop.rest, left);
    if stop.status.NeedInput? {
      PiecesWait(g, d, pieces, room);
      assert false;
    } else if stop.status.NeedOutput? {
      DecodeOwes(g, stop.state, stop.rest, left);
      RoomIsOwed(g, stop, last.room - (|Output(stop.state)| - |Output(before)|));
    } else {
      PiecesAgree(g, d, pieces, room);
    }
  }

  /** Who waits for room has none, and owes a byte. */
  lemma RoomIsOwed(g: Given, stop: DecoderStop, room: nat)
    requires Sound(stop.state) && Stuck(g, stop, room) && stop.status.NeedOutput?
    ensures room == 0 && Owed(stop.state) > 0
  {
    hide BitsWanted, Aligns;
    match stop.state.phase {
      case CompressedData(_, codes, s) =>
        hide B.Reach;
        assert B.SanePhase(codes, s);
      case _ =>
    }
  }

  /** The bytes that a finished run has read. */
  function Consumed(bytes: seq<Byte>, stop: DecoderStop): nat
  {
    if |stop.rest| <= 8 * |bytes| then |bytes| - |stop.rest| / 8 else 0
  }

  lemma WholeBytesLeft(bytes: seq<Byte>, rest: seq<bool>)
    requires |rest| <= 8 * |bytes| && |rest| % 8 == 0 && rest == BitsOf(bytes)[8 * |bytes| - |rest|..]
    ensures var n := |bytes| - |rest| / 8; n <= |bytes| && rest == BitsOf(bytes[n..])
  {
    hide BitsOf;
    var n := |bytes| - |rest| / 8;
    BitsOfAppend(bytes[..n], bytes[n..]);
    assert bytes == bytes[..n] + bytes[n..];
  }

  /** A run that ends has read whole bytes, and exactly as many as the stream has: with those alone it ends
      the same, and with any fewer it does not end. */
  lemma ReadsExactly(g: Given, bytes: seq<Byte>, room: nat)
    requires Admissible(g.parser) && Sound(Initial()) && Decode(g, Initial(), BitsOf(bytes), room).status.Done?
    ensures var stop := Decode(g, Initial(), BitsOf(bytes), room);
            var n := Consumed(bytes, stop);
            && n <= |bytes| && stop.rest == BitsOf(bytes[n..])
            && Decode(g, Initial(), BitsOf(bytes[..n]), room) == DecoderStop(stop.state, [], Done)
            && forall m :: 0 <= m < n ==> !Decode(g, Initial(), BitsOf(bytes[..m]), room).status.Done?
  {
    var stop := Decode(g, Initial(), BitsOf(bytes), room);
    DecodeSettles(g, Initial(), BitsOf(bytes), room);
    hide *;
    InitialOnBoundary(8 * |bytes|);
    DecodeStops(g, Initial(), BitsOf(bytes), room);
    DoneOnBoundary(g, stop);
    WholeBytesLeft(bytes, stop.rest);
    ConsumedIs(bytes, stop);
    var n := Consumed(bytes, stop);
    PrefixEnds(g, bytes, room, n);
    forall m | 0 <= m < n
      ensures !Decode(g, Initial(), BitsOf(bytes[..m]), room).status.Done?
    {
      if Decode(g, Initial(), BitsOf(bytes[..m]), room).status.Done? {
        DoneEarlier(g, bytes, room, m);
        assert false;
      }
    }
  }

  lemma InitialOnBoundary(available: nat)
    ensures OnBoundary(Initial(), available)
  {
  }

  lemma DoneOnBoundary(g: Given, stop: DecoderStop)
    requires Settled(g, stop) && stop.status.Done? && OnBoundary(stop.state, |stop.rest|)
    ensures |stop.rest| % 8 == 0
  {
  }

  lemma ConsumedIs(bytes: seq<Byte>, stop: DecoderStop)
    requires |stop.rest| <= 8 * |bytes| && |stop.rest| % 8 == 0
    ensures 8 * Consumed(bytes, stop) + |stop.rest| == 8 * |bytes| &&
            Consumed(bytes, stop) == |bytes| - |stop.rest| / 8 <= |bytes|
  {
  }

  /** Ending on part of the bytes leaves at least the others. */
  lemma DoneEarlier(g: Given, bytes: seq<Byte>, room: nat, m: nat)
    requires Admissible(g.parser) && Sound(Initial()) && m <= |bytes|
    requires Decode(g, Initial(), BitsOf(bytes[..m]), room).status.Done?
    ensures var stop := Decode(g, Initial(), BitsOf(bytes), room); |stop.rest| >= 8 * (|bytes| - m)
  {
    hide *;
    var part, x := Decode(g, Initial(), BitsOf(bytes[..m]), room), BitsOf(bytes[m..]);
    BitsOfAppend(bytes[..m], bytes[m..]);
    assert bytes == bytes[..m] + bytes[m..];
    DecodeContinues(g, Initial(), BitsOf(bytes[..m]), room, x, room);
    DecodeSettles(g, Initial(), BitsOf(bytes[..m]), room);
    StaysDone(g, part, x, room - (|Output(part.state)| - |Output(Initial())|));
  }

  lemma StaysDone(g: Given, stop: DecoderStop, x: seq<bool>, room: nat)
    requires Admissible(g.parser) && Sound(stop.state) && Settled(g, stop) && stop.status.Done?
    ensures Decode(g, stop.state, stop.rest + x, room) == DecoderStop(stop.state, stop.rest + x, Done)
  {
    hide NextState, Sound, Admissible;
  }

  /** The bytes that have been read are enough. */
  lemma PrefixEnds(g: Given, bytes: seq<Byte>, room: nat, n: nat)
    requires Admissible(g.parser) && Sound(Initial()) && n <= |bytes|
    requires var stop := Decode(g, Initial(), BitsOf(bytes), room); stop.status.Done? && stop.rest == BitsOf(bytes[n..])
    ensures Decode(g, Initial(), BitsOf(bytes[..n]), room) ==
            DecoderStop(Decode(g, Initial(), BitsOf(bytes), room).state, [], Done)
  {
    hide *;
    var whole, part, x := Decode(g, Initial(), BitsOf(bytes), room), Decode(g, Initial(), BitsOf(bytes[..n]), room),
        BitsOf(bytes[n..]);
    BitsOfAppend(bytes[..n], bytes[n..]);
    assert bytes == bytes[..n] + bytes[n..];
    DecodeContinues(g, Initial(), BitsOf(bytes[..n]), room, x, room);
    InitialOnBoundary(8 * n);
    DecodeStops(g, Initial(), BitsOf(bytes[..n]), room);
    DecodeSettles(g, Initial(), BitsOf(bytes[..n]), room);
    var left := room - (|Output(part.state)| - |Output(Initial())|);
    OnlyDoneLeavesAll(g, part, x, left);
    StaysDone(g, part, x, left);
    assert part.rest + x == x ==> part.rest == [] by {
      if part.rest + x == x {
        assert |part.rest| + |x| == |x|;
      }
    }
  }

  /** A run that stopped early and then ends without touching what came later had ended already. */
  lemma OnlyDoneLeavesAll(g: Given, part: DecoderStop, x: seq<bool>, room: nat)
    requires Admissible(g.parser) && Sound(part.state) && Settled(g, part) && Stuck(g, part, room) &&
             OnBoundary(part.state, |part.rest|)
    requires |x| % 8 == 0
    requires var stop := Decode(g, part.state, part.rest + x, room); stop.status.Done? && stop.rest == x
    ensures part.status.Done?
  {
    if part.status.Failed? {
      FailsStill(g, part, x, room);
    } else if part.status.NeedOutput? {
      WaitsStill(g, part, x, room);
    } else if part.status.NeedInput? {
      assert !Aligns(part.state) && |part.rest| < BitsWanted(g, part.state);
      TakesLater(g, part.state, part.rest, x, room);
    }
  }

  lemma FailsStill(g: Given, part: DecoderStop, x: seq<bool>, room: nat)
    requires Admissible(g.parser) && Sound(part.state) && Settled(g, part) && part.status.Failed? && |x| % 8 == 0
    ensures Decode(g, part.state, part.rest + x, room).status.Failed?
  {
    hide Advance, Sound, BitsWanted, WaitsForRoom, Admissible, Aligns, Taken;
    SameTaken(g, part.state, |part.rest|, |part.rest + x|);
    TakenWithin(g, part.state, |part.rest|);
    B.Unsplit(part.rest, x, Taken(g, part.state, |part.rest|));
    assert NextState(g, part.state, part.rest + x) == NextState(g, part.state, part.rest);
  }

  lemma SameTaken(g: Given, d: DecoderState, a: nat, b: nat)
    requires a % 8 == b % 8
    ensures Taken(g, d, a) == Taken(g, d, b)
  {
  }

  lemma TakenWithin(g: Given, d: DecoderState, available: nat)
    requires Aligns(d) || BitsWanted(g, d) <= available
    ensures Taken(g, d, available) <= available
  {
  }

  lemma WaitsStill(g: Given, part: DecoderStop, x: seq<bool>, room: nat)
    requires Admissible(g.parser) && Sound(part.state) && Stuck(g, part, room) && part.status.NeedOutput?
    ensures Decode(g, part.state, part.rest + x, room).status.NeedOutput?
  {
    hide NextState, Sound, Admissible, Aligns, BitsWanted;
  }

  /** A step that needed more than there was takes some of what came later. */
  lemma TakesLater(g: Given, d: DecoderState, rest: seq<bool>, x: seq<bool>, room: nat)
    requires Admissible(g.parser) && Sound(d) && OnBoundary(d, |rest|) && !Aligns(d) && |rest| < BitsWanted(g, d) &&
             |x| % 8 == 0
    requires Decode(g, d, rest + x, room).status.Done?
    ensures |Decode(g, d, rest + x, room).rest| < |x|
  {
    hide *;
    StepOkMeans(g, d, rest + x, room);
    if StepOk(g, d, rest + x, room) {
      var next, n := AdvancesAlike(g, d, rest + x, room, [], room);
      TakenIs(g, d, |rest + x|);
      SameBoundary(d, |rest|, |rest + x|);
      StepsToBoundary(g, d, rest + x, room, next, n);
      DecodeStops(g, next, (rest + x)[n..], RoomAfter(room, d, next));
    } else {
      StopsHere(g, d, rest + x, room);
      NotDoneHere(g, d, rest + x, room);
    }
  }

  lemma TakenIs(g: Given, d: DecoderState, available: nat)
    ensures !Aligns(d) ==> Taken(g, d, available) == BitsWanted(g, d)
  {
  }

  lemma SameBoundary(d: DecoderState, a: nat, b: nat)
    requires OnBoundary(d, a) && a % 8 == b % 8
    ensures OnBoundary(d, b)
  {
  }

  lemma NotDoneHere(g: Given, d: DecoderState, input: seq<bool>, room: nat)
    requires Admissible(g.parser) && Sound(d) && !StepOk(g, d, input, room) && BitsWanted(g, d) > 0
    ensures !Decode(g, d, input, room).status.Done?
  {
    hide NextState, Sound, Admissible;
  }
}
