/** Greedy streams in full (`src/encode/greedy.rs`, `src/encode/stream.rs`, `src/encode/mod.rs`): whatever the input is
    encoded to, in one call or incrementally, compressed or stored, decodes to the input however it is cut up. */
module GreedyRoundTrip {
  import opened Bytes
  import opened BitStream
  import opened BitPacking
  import opened Distances
  import opened MetablockHeaders
  import opened CommandEmission
  import opened MetablockStart
  import opened DecoderMachine
  import opened DecoderRuns
  import opened MetablockReading
  import opened StreamRoundTrip
  import opened MatchFinder
  import opened GreedyParse
  import opened GreedyEmission
  import opened StreamDecoder
  import opened Decompression
  import opened Outcomes

  /** Every chunk has a length a metablock can have. */
  predicate Proper(chunks: seq<Chunk>)
  {
    forall i :: 0 <= i < |chunks| ==> ProperChunk(chunks[i], ChunkStart(chunks, i))
  }

  /** The stream up to a chunk. */
  function Written(header: seq<bool>, chunks: seq<Chunk>, n: nat): seq<bool>
    requires n <= |chunks| && Proper(chunks)
  {
    if n == 0 then header
    else WithChunk(Written(header, chunks, n - 1), chunks[n - 1], ChunkStart(chunks, n - 1), n == |chunks|)
  }

  /** Behind a stored chunk an empty metablock says that it was the last. */
  predicate NeedsEnd(chunks: seq<Chunk>)
  {
    chunks == [] || chunks[|chunks| - 1].form.Stored?
  }

  function ChunkStream(header: seq<bool>, chunks: seq<Chunk>): (r: seq<bool>)
    requires Proper(chunks)
    ensures |r| % 8 == 0
  {
    Aligned(Written(header, chunks, |chunks|) + if NeedsEnd(chunks) then FinalEmpty() else [])
  }

  lemma ConveysProper(chunks: seq<Chunk>, env: Env, input: seq<Byte>, rings: seq<Ring>)
    requires ConveysChunks(chunks, env, input, rings)
    ensures Proper(chunks)
  {
    hide DecodesTo, DecodableCodes, IsStart, CompressedForm, StoredBits;
    forall i | 0 <= i < |chunks|
      ensures ProperChunk(chunks[i], ChunkStart(chunks, i))
    {
      assert Conveyed(chunks[i], ChunkStart(chunks, i), env, input, rings[i], rings[i + 1]);
    }
  }

  /** One chunk further in the stream. */
  lemma FollowsChunk(g: Given, written: seq<bool>, windowBits: nat, env: Env, input: seq<Byte>, chunk: Chunk,
                     start: nat,
                   ring: Ring, after: Ring, isLast: bool)
    requires ProperChunk(chunk, start) && Conveyed(chunk, start, env, input, ring, after)
    requires g.words == env.words && WindowSize(windowBits) == env.window && Understands(g.parser)
    requires Follows(g, written, Between(windowBits, ring, input[..start]))
    ensures var all := WithChunk(written, chunk, start, isLast);
            if isLast && chunk.form.Compressed? then Follows(g, Aligned(all),
                                                             Ended(windowBits, after, input[..chunk.end]))
            else Follows(g, all, Between(windowBits, after, input[..chunk.end]))
  {
    hide Follows, DecodesTo, DecodableCodes, IsStart, Understood, WithStored, CompressedForm, WindowSize, StoredBits,
         Padding;
    var seen := input[..chunk.end];
    assert seen[..start] == input[..start] == [] + seen[..start];
    match chunk.form {
      case Compressed(codes, front, bits) =>
        assert Understood(g.parser, codes, front);
        FollowsCompressed(g, front, written, windowBits, ring, codes, bits, [], seen, start, chunk.end, after, isLast);
        assert [] + seen[..chunk.end] == seen;
      case Stored(bytes) =>
        FollowsStored(g, written, windowBits, ring, input[..start], bytes);
        assert input[..start] + bytes == seen;
    }
  }

  /** Up to each chunk but a compressed last one, decoder and encoder are in the same place. */
  lemma {:induction false} ChunksFollow(g: Given, windowBits: nat, env: Env, input: seq<Byte>, chunks: seq<Chunk>,
                                      rings: seq<Ring>, n: nat)
    requires Admissible(g.parser) && 10 <= windowBits <= 24
    requires Proper(chunks) && ConveysChunks(chunks, env, input, rings) && rings[0] == InitialRing()
    requires g.words == env.words && WindowSize(windowBits) == env.window && Understands(g.parser)
    requires n <= |chunks| && (n < |chunks| || NeedsEnd(chunks)) && ChunkStart(chunks, n) <= |input|
    ensures Follows(g, Written(WindowHeader(windowBits), chunks, n),
                    Between(windowBits, rings[n], input[..ChunkStart(chunks, n)]))
  {
    hide Admissible, Follows, Conveyed, Understands, WindowSize, ProperChunk, WithChunk, WindowHeader;
    if n == 0 {
      FollowsStart(g, windowBits);
      assert input[..0] == [];
    } else {
      var start := ChunkStart(chunks, n - 1);
      EndsWithin(chunks[n - 1], start, env, input, rings[n - 1], rings[n]);
      ChunksFollow(g, windowBits, env, input, chunks, rings, n - 1);
      FollowsChunk(g, Written(WindowHeader(windowBits), chunks, n - 1), windowBits, env, input, chunks[n - 1], start,
                 rings[n - 1], rings[n], n == |chunks|);
    }
  }

  lemma EndsWithin(chunk: Chunk, start: nat, env: Env, input: seq<Byte>, ring: Ring, after: Ring)
    requires Conveyed(chunk, start, env, input, ring, after)
    ensures start <= |input| && chunk.end <= |input|
  {
    hide ConveysChunk, StoredBits;
  }

  /** The stream of the chunks an input was made into leads the decoder to its end, with the whole input. */
  lemma StreamFollows(g: Given, windowBits: nat, env: Env, input: seq<Byte>, chunks: seq<Chunk>, rings: seq<Ring>)
    requires Admissible(g.parser) && 10 <= windowBits <= 24
    requires Proper(chunks) && ConveysChunks(chunks, env, input, rings) && rings[0] == InitialRing()
    requires ChunkStart(chunks, |chunks|) == |input|
    requires g.words == env.words && WindowSize(windowBits) == env.window && Understands(g.parser)
    ensures Follows(g, ChunkStream(WindowHeader(windowBits), chunks), Ended(windowBits, rings[|chunks|], input))
  {
    hide *;
    var stream, n := ChunkStream(WindowHeader(windowBits), chunks), |chunks|;
    RingsCounted(chunks, env, input, rings);
    StreamForm(WindowHeader(windowBits), chunks);
    assert input[..|input|] == input;
    if NeedsEnd(chunks) {
      ChunksFollow(g, windowBits, env, input, chunks, rings, n);
      FollowsEnd(g, Written(WindowHeader(windowBits), chunks, n), windowBits, rings[n], input);
    } else {
      LastConveyed(chunks, env, input, rings);
      var start := ChunkStart(chunks, n - 1);
      ChunksFollow(g, windowBits, env, input, chunks, rings, n - 1);
      FollowsChunk(g, Written(WindowHeader(windowBits), chunks, n - 1), windowBits, env, input, chunks[n - 1], start,
                 rings[n - 1], rings[n], true);
    }
  }

  lemma RingsCounted(chunks: seq<Chunk>, env: Env, input: seq<Byte>, rings: seq<Ring>)
    requires ConveysChunks(chunks, env, input, rings)
    ensures |rings| == |chunks| + 1
  {
    hide Conveyed;
  }

  lemma LastConveyed(chunks: seq<Chunk>, env: Env, input: seq<Byte>, rings: seq<Ring>)
    requires ConveysChunks(chunks, env, input, rings) && Proper(chunks) && !NeedsEnd(chunks)
    ensures var n := |chunks|;
            && n > 0 && chunks[n - 1].form.Compressed? && ChunkStart(chunks, n - 1) <= |input|
            && ChunkStart(chunks, n) == chunks[n - 1].end
            && ProperChunk(chunks[n - 1], ChunkStart(chunks, n - 1)) && |rings| == n + 1
            && Conveyed(chunks[n - 1], ChunkStart(chunks, n - 1), env, input, rings[n - 1], rings[n])
  {
    hide ConveysChunk, StoredBits;
    assert Conveyed(chunks[|chunks| - 1], ChunkStart(chunks, |chunks| - 1), env, input, rings[|chunks| - 1],
                    rings[|chunks|]);
  }

  lemma StreamForm(header: seq<bool>, chunks: seq<Chunk>)
    requires Proper(chunks)
    ensures var n := |chunks|;
            ChunkStream(header, chunks) ==
            if NeedsEnd(chunks) then Aligned(Written(header, chunks, n) + FinalEmpty())
            else Aligned(WithChunk(Written(header, chunks, n - 1), chunks[n - 1], ChunkStart(chunks, n - 1), true))
    ensures |ChunkStream(header, chunks)| % 8 == 0
  {
    hide Proper, WithChunk, Padding;
    if !NeedsEnd(chunks) {
      assert Written(header, chunks, |chunks|) + [] == Written(header, chunks, |chunks|);
    }
  }

  /** A stream that decodes to an input in one call, as far as it has been given in pieces: no call fails, what is out
      is the start of the input, and none but the last byte ends the stream. */
  lemma SlicedDecodes(g: Given, pieces: seq<Piece>, more: seq<Byte>, end: DecoderState)
    requires Admissible(g.parser) && Sound(Initial())
    requires forall room: nat :: |end.flat| <= room ==>
               Decode(g, Initial(), BitsOf(AllBytes(pieces) + more), room) == DecoderStop(end, [], Done)
    ensures var stop := DecodePieces(g, Initial(), [], pieces);
            !stop.status.Failed? && stop.state.flat <= end.flat &&
              (stop.status.Done? ==> stop.state == end && more == [])
  {
    hide *;
    var stop := DecodePieces(g, Initial(), [], pieces);
    var bits, rest := BitsOf(AllBytes(pieces)), BitsOf(more);
    var room := TotalRoom(pieces) + |end.flat|;
    BitsOfAppend(AllBytes(pieces), more);
    assert BitsOf(AllBytes(pieces) + more) == bits + rest;
    assert Decode(g, Initial(), bits + rest, room) == DecoderStop(end, [], Done);
    NoOutputYet();
    OutOfPieces(g, pieces, more, end, room);
    if stop.status.Done? || stop.status.Failed? {
      NoneYet(g, pieces);
      PiecesAgree(g, Initial(), pieces, room);
      DecodeContinues(g, Initial(), bits, room, rest, room);
      DecodeSettles(g, Initial(), bits, room);
      var left := room - |Output(stop.state)|;
      if stop.status.Failed? {
        FailsStill(g, stop, rest, left);
      } else {
        StaysDone(g, stop, rest, left);
        assert |stop.rest + rest| == |stop.rest| + |rest|;
        assert |rest| == 8 * |more|;
      }
    }
  }

  /** What calls on part of a stream put out, the stream puts out first. */
  lemma OutOfPieces(g: Given, pieces: seq<Piece>, more: seq<Byte>, end: DecoderState, room: nat)
    requires Admissible(g.parser) && Sound(Initial()) && TotalRoom(pieces) <= room
    requires Decode(g, Initial(), BitsOf(AllBytes(pieces)) + BitsOf(more), room) == DecoderStop(end, [], Done)
    ensures DecodePieces(g, Initial(), [], pieces).state.flat <= end.flat
  {
    hide *;
    var stop, bits, rest := DecodePieces(g, Initial(), [], pieces), BitsOf(AllBytes(pieces)), BitsOf(more);
    NoOutputYet();
    PiecesContinue(g, Initial(), [], pieces, room);
    assert [] + bits == bits;
    var part := Decode(g, Initial(), bits, room);
    DecodeContinues(g, Initial(), bits, room, rest, room);
    DecodeKeepsOutput(g, stop.state, stop.rest, room - |Output(stop.state)|);
    DecodeKeepsOutput(g, part.state, part.rest + rest, room - |Output(part.state)|);
    OutputIs(stop.state);
    OutputIs(part.state);
    OutputIs(end);
  }

  lemma NoneYet(g: Given, pieces: seq<Piece>)
    requires Admissible(g.parser) && Sound(Initial())
    requires !DecodePieces(g, Initial(), [], pieces).status.NeedInput?
    ensures pieces != []
  {
    hide Sound, Admissible, Decode;
  }

  /** All of such a stream, in any pieces: the last call never wants more input. It ends the stream, and all of the
      input is out, exactly if it had room for what earlier calls left. */
  lemma SlicedEnds(g: Given, pieces: seq<Piece>, end: DecoderState)
    requires Admissible(g.parser) && Sound(Initial())
    requires forall room: nat :: |end.flat| <= room ==>
               Decode(g, Initial(), BitsOf(AllBytes(pieces)), room) == DecoderStop(end, [], Done)
    ensures pieces != []
    ensures var stop := DecodePieces(g, Initial(), [], pieces);
            var last, before := pieces[|pieces| - 1], DecodePieces(g, Initial(), [], pieces[..|pieces| - 1]).state;
            && (stop.status.Done? || stop.status.NeedOutput?)
            && (stop.status.Done? <==> |end.flat| <= |before.flat| + last.room)
  {
    hide *;
    var room := TotalRoom(pieces) + |end.flat|;
    assert Decode(g, Initial(), BitsOf(AllBytes(pieces)), room) == DecoderStop(end, [], Done);
    if pieces == [] {
      NothingEnds(g, room);
    }
    PiecesEnd(g, Initial(), pieces, room);
    OutputIs(end);
    OutputIs(DecodePieces(g, Initial(), [], pieces[..|pieces| - 1]).state);
  }

  lemma NothingEnds(g: Given, room: nat)
    requires Admissible(g.parser) && Sound(Initial())
    ensures !Decode(g, Initial(), BitsOf(AllBytes([])), room).status.Done?
  {
    hide Sound, Admissible;
  }

  /** Writes the stream of the chunks. */
  method WriteStream(windowBits: nat, chunks: seq<Chunk>) returns (stream: seq<Byte>)
    requires 10 <= windowBits <= 24 && Proper(chunks)
    ensures BitsOf(stream) == ChunkStream(WindowHeader(windowBits), chunks)
  {
    hide Lsb, Padding, BitsOf, WindowHeader, WithStored, CompressedHeader;
    var writer := new BitWriter();
    WriteWindowBits(writer, windowBits);
    assert [] + WindowHeader(windowBits) == WindowHeader(windowBits);
    for i := 0 to |chunks|
      invariant fresh(writer) && writer.Valid() && writer.Bits() == Written(WindowHeader(windowBits), chunks, i)
    {
      assert ProperChunk(chunks[i], ChunkStart(chunks, i));
      WriteChunk(writer, chunks[i], ChunkStart(chunks, i), i + 1 == |chunks|);
    }
    if NeedsEnd(chunks) {
      WriteFinalEmptyMetablock(writer);
    } else {
      assert writer.Bits() + [] == writer.Bits();
    }
    writer.AlignToByte();
    stream := writer.bytes;
    BitPacking.NoWord(writer.pending);
    assert writer.Bits() == BitsOf(stream);
  }

  /** A greedy stream of an input: its chunks in order, each in the form chosen for what the finder found, with the
      encoder's and the decoder's distances equal at every boundary. */
  ghost predicate GreedyStreamOf(stream: seq<Byte>, env: Env, windowBits: nat, input: seq<Byte>, direct: nat,
                                 postfix: nat)
  {
    exists chunks, rings, finders :: MadeOf(stream, env, windowBits, input, direct, postfix, chunks, rings, finders)
  }

  ghost predicate MadeOf(stream: seq<Byte>, env: Env, windowBits: nat, input: seq<Byte>, direct: nat, postfix: nat,
                         chunks: seq<Chunk>, rings: seq<Ring>, finders: seq<Finder>)
  {
    && ConveysChunks(chunks, env, input, rings) && rings[0] == InitialRing() && ChunkStart(chunks, |chunks|) == |input|
    && ChosenChunks(chunks, env, input, finders, direct, postfix)
    && 10 <= windowBits <= 24 && Proper(chunks) && BitsOf(stream) == ChunkStream(WindowHeader(windowBits), chunks)
  }

  /** Encodes an input. */
  method Compress(env: Env, windowBits: nat, input: seq<Byte>, direct: nat, postfix: nat) returns (stream: seq<Byte>)
    requires |input| <= NO_POSITION && DistancesFit(env, direct, postfix) && 10 <= windowBits <= 24
    ensures GreedyStreamOf(stream, env, windowBits, input, direct, postfix)
  {
    hide *;
    var chunks;
    ghost var rings, finders;
    chunks, rings, finders := EmitStream(env, input, direct, postfix);
    ConveysProper(chunks, env, input, rings);
    RingsCounted(chunks, env, input, rings);
    stream := WriteStream(windowBits, chunks);
    StreamIsMade(stream, env, windowBits, input, direct, postfix, chunks, rings, finders);
  }

  lemma StreamIsMade(stream: seq<Byte>, env: Env, windowBits: nat, input: seq<Byte>, direct: nat, postfix: nat,
                     chunks: seq<Chunk>, rings: seq<Ring>, finders: seq<Finder>)
    requires ConveysChunks(chunks, env, input, rings) && |rings| == |chunks| + 1 && rings[0] == InitialRing()
    requires ChunkStart(chunks, |chunks|) == |input| && ChosenChunks(chunks, env, input, finders, direct, postfix)
    requires 10 <= windowBits <= 24 && Proper(chunks)
    requires BitsOf(stream) == ChunkStream(WindowHeader(windowBits), chunks)
    ensures GreedyStreamOf(stream, env, windowBits, input, direct, postfix)
  {
    hide ConveysChunks, ChosenChunks, Proper, ChunkStream, InitialRing, BitsOf, WindowHeader;
    assert MadeOf(stream, env, windowBits, input, direct, postfix, chunks, rings, finders);
  }

  /** A greedy stream leads the decoder to its end, with the whole input. */
  lemma GreedyFollows(g: Given, stream: seq<Byte>, env: Env, windowBits: nat, input: seq<Byte>, direct: nat,
                      postfix: nat) returns (ring: Ring)
    requires GreedyStreamOf(stream, env, windowBits, input, direct, postfix)
    requires Admissible(g.parser) && Understands(g.parser) && g.words == env.words
    requires 10 <= windowBits <= 24 && env.window == WindowSize(windowBits)
    ensures Follows(g, BitsOf(stream), Ended(windowBits, ring, input))
  {
    hide ConveysChunks, ChosenChunks, Proper, ChunkStream, InitialRing, BitsOf, WindowHeader, Admissible, Understands,
         WindowSize, Follows;
    var chunks, rings, finders :| MadeOf(stream, env, windowBits, input, direct, postfix, chunks, rings, finders);
    RingsCounted(chunks, env, input, rings);
    StreamFollows(g, windowBits, env, input, chunks, rings);
    ring := rings[|chunks|];
  }

  /** Encodes an input, cuts the stream up, and decodes it piece by piece: what comes out is the start of the input,
      no call wants input that is not there, and the end is reached if the last piece has room for the input. */
  method EncodeThenDecode(env: Env, windowBits: nat, input: seq<Byte>, direct: nat, postfix: nat,
                          given: Given, cut: seq<Byte> -> seq<Piece>)
    returns (stream: seq<Byte>, status: DecoderStatus, output: seq<Byte>)
    requires |input| <= NO_POSITION && DistancesFit(env, direct, postfix) && 10 <= windowBits <= 24 &&
             env.window == WindowSize(windowBits)
    requires Admissible(given.parser) && given.words == env.words && Understands(given.parser)
    requires forall stream :: AllBytes(cut(stream)) == stream
    ensures GreedyStreamOf(stream, env, windowBits, input, direct, postfix)
    ensures (status.Done? || status.NeedOutput?) && output <= input && (status.Done? ==> output == input)
    ensures var pieces := cut(stream); pieces != [] && (|input| <= pieces[|pieces| - 1].room ==> status.Done?)
  {
    hide *;
    stream := Compress(env, windowBits, input, direct, postfix);
    var pieces := cut(stream);
    var calls, unread;
    status, output, calls, unread := DecodeInPieces(given, pieces);
    ghost var ring := GreedyFollows(given, stream, env, windowBits, input, direct, postfix);
    ghost var end := Ended(windowBits, ring, input);
    AllIsOut(windowBits, ring, input);
    WholeBytes(stream);
    forall room: nat | |end.flat| <= room
      ensures Decode(given, Initial(), BitsOf(stream), room) == DecoderStop(end, [], Done)
    {
      FollowsDecodes(given, BitsOf(stream), windowBits, ring, input, room);
    }
    assert pieces == pieces[..calls] + pieces[calls..];
    BytesSplit(pieces[..calls], pieces[calls..]);
    SlicedDecodes(given, pieces[..calls], AllBytes(pieces[calls..]), end);
    SlicedEnds(given, pieces, end);
    assert pieces[..|pieces|] == pieces;
  }

  lemma WholeBytes(stream: seq<Byte>)
    ensures |BitsOf(stream)| % 8 == 0
  {
  }

  /** Compresses an input and decompresses the result: the input comes back exactly if the limit allows it, and so it
      does whatever the limit. */
  method CompressThenDecompress(env: Env, windowBits: nat, input: seq<Byte>, direct: nat, postfix: nat,
                                given: Given, limit: nat)
    returns (stream: seq<Byte>, r: Result<seq<Byte>, PublicError>)
    requires |input| <= NO_POSITION && DistancesFit(env, direct, postfix) && 10 <= windowBits <= 24 &&
             env.window == WindowSize(windowBits)
    requires Admissible(given.parser) && given.words == env.words && Understands(given.parser)
    ensures GreedyStreamOf(stream, env, windowBits, input, direct, postfix) && r == Outcome(given, stream, limit)
    ensures forall bound: nat :: Outcome(given, stream, bound) == if |input| <= bound then Ok(input)
            else Err(OutputLimitExceeded(bound))
  {
    hide *;
    stream := Compress(env, windowBits, input, direct, postfix);
    ghost var ring := GreedyFollows(given, stream, env, windowBits, input, direct, postfix);
    forall bound: nat
      ensures Outcome(given, stream, bound) == if |input| <= bound then Ok(input) else Err(OutputLimitExceeded(bound))
    {
      LimitDecides(given, stream, windowBits, ring, input, bound);
    }
    r := Decompress(given, stream, limit);
  }

  lemma AllIsOut(windowBits: nat, ring: Ring, input: seq<Byte>)
    ensures Ended(windowBits, ring, input).flat == input
  {
  }

  lemma {:induction false} BytesSplit(a: seq<Piece>, b: seq<Piece>)
    ensures AllBytes(a + b) == AllBytes(a) + AllBytes(b)
  {
    if a == [] {
      assert [] + b == b;
    } else {
      hide AllBytes;
      BytesSplit(a[1..], b);
      assert (a + b)[0] == a[0] && (a + b)[1..] == a[1..] + b;
      FirstBytes(a);
      FirstBytes(a + b);
      InFront(a[0].input, AllBytes(a[1..]), AllBytes(b));
    }
  }

  lemma FirstBytes(a: seq<Piece>)
    requires a != []
    ensures AllBytes(a) == a[0].input + AllBytes(a[1..])
  {
  }

  lemma InFront(a: seq<Byte>, b: seq<Byte>, c: seq<Byte>)
    ensures a + (b + c) == a + b + c
  {
  }

  lemma NoOutputYet()
    ensures |Output(Initial())| == 0
  {
  }
}
