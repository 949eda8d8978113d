/** Whole metablocks in front of the decoder: compressed ones from their header to the end of their commands, stored
    ones, and the end of a stream (`src/encode/mod.rs` against `src/decode/decoder.rs`). The parser of a compressed
    metablock's header and trees is given; it is asked to read what the encoder writes there. */
module StreamRoundTrip {
  import opened Bytes
  import opened BitStream
  import opened BitPacking
  import opened Distances
  import opened MetablockHeaders
  import opened CommandStream
  import opened CommandEmission
  import opened MetablockStart
  import B = BlockMachine
  import opened DecoderMachine
  import opened DecoderRuns
  import opened DecoderRounds
  import opened MetablockReading
  import opened Decompression
  import opened Outcomes

  /** The parser reads whatever the encoder writes for some codes as trees for them, with one block type each. */
  ghost predicate Understands(parser: Parser)
  {
    forall codes, start :: IsStart(codes, start) ==> Understood(parser, codes, start)
  }

  ghost predicate Understood(parser: Parser, codes: Codes, start: seq<bool>)
  {
    exists trees :: Parses(parser, [], start, trees) && ReadsCodes(trees.header, codes)
  }

  /** The commands of a metablock that runs to its end. */
  lemma ReadsCommands(g: Given, d: DecoderState, offset: nat, bits: seq<bool>, final: B.State)
    requires Admissible(g.parser) && Sound(d) && d.phase.CompressedData?
    requires |d.flat| <= |final.flat|
    requires forall rest: seq<bool>, room: nat :: |final.flat| <= |d.flat| + room ==>
               B.Run(d.phase.codes, d.phase.block, bits + rest, room) == B.Stop(final, rest, B.Done)
    ensures Reads(g, d, offset, bits, WithBlock(d, final))
  {
    hide Decode, Sound, Admissible, B.Run;
    SoundBlock(d);
    var next := WithBlock(d, final);
    DataRuns(g, d, bits + [], |final.flat| - |d.flat|);
    forall x: seq<bool>, room: nat | |next.flat| <= |d.flat| + room
      ensures Onwards(g, d, bits, x, room) == Decode(g, next, x, |d.flat| + room - |next.flat|)
    {
      DataRuns(g, d, bits + x, room);
      assert B.Run(d.phase.codes, d.phase.block, bits + x, room) == B.Stop(final, x, B.Done);
    }
  }

  /** The body of a metablock, behind its trees. */
  lemma ReadsBodyBits(g: Given, windowBits: nat, ring: Ring, offset: nat, isLast: bool, trees: Trees, codes: Codes,
                      bits: seq<bool>,
                      before: seq<Byte>, input: seq<Byte>, start: nat, end: nat, after: Ring)
    requires start <= end <= |input| && DecodesTo(g.words, WindowSize(windowBits), before, codes, bits, input, start,
                                                  end, ring, after)
    requires ReadsCodes(trees.header, codes)
    requires var d := AtCommands(g, Between(windowBits, ring, Upto(before, input, start)), isLast, end - start,
                                 trees); Admissible(g.parser) && Sound(d)
    ensures var d := AtCommands(g, Between(windowBits, ring, Upto(before, input, start)), isLast, end - start, trees);
            Reads(g, d, offset, bits, WithBlock(d, EndState(d.phase.block, before, input, end, after)))
  {
    hide Decode, Sound, Admissible, B.Run, ReadsCodes, B.Sane, WindowSize;
    var d := AtCommands(g, Between(windowBits, ring, Upto(before, input, start)), isLast, end - start, trees);
    var s := d.phase.block;
    SoundBlock(d);
    SameCodes(g, windowBits, trees, codes);
    var final := EndState(s, before, input, end, after);
    forall rest: seq<bool>, room: nat | |final.flat| <= |d.flat| + room
      ensures B.Run(d.phase.codes, s, bits + rest, room) == B.Stop(final, rest, B.Done)
    {
      assert InStep(s, before, input, start, end, ring);
    }
    ReadsCommands(g, d, offset, bits, final);
  }

  lemma SameCodes(g: Given, windowBits: nat, trees: Trees, codes: Codes)
    requires ReadsCodes(trees.header, codes)
    ensures ReadsCodes(CodesOf(g, windowBits, trees), codes)
  {
  }

  /** The decoder at the end of a compressed metablock, yet to see whether the stream goes on. */
  function AtEnd(g: Given, windowBits: nat, ring: Ring, before: seq<Byte>, input: seq<Byte>, start: nat, end: nat,
                 isLast: bool, trees: Trees, after: Ring): DecoderState
    requires start <= end <= |input|
  {
    var d := AtCommands(g, Between(windowBits, ring, Upto(before, input, start)), isLast, end - start, trees);
    WithBlock(d, EndState(d.phase.block, before, input, end, after))
  }

  /** A compressed metablock, from its first bit to its last. */
  lemma ReadsCompressed(g: Given, front: seq<bool>, windowBits: nat, ring: Ring, offset: nat, isLast: bool,
                        trees: Trees, codes: Codes,
                        bits: seq<bool>, before: seq<Byte>, input: seq<Byte>, start: nat, end: nat, after: Ring)
    requires start < end <= start + MAX_META_BLOCK_SIZE && end <= |input| && Admissible(g.parser) &&
             Sound(Between(windowBits, ring, Upto(before, input, start)))
    requires DecodesTo(g.words, WindowSize(windowBits), before, codes, bits, input, start, end, ring, after)
    requires Parses(g.parser, [], front, trees) && ReadsCodes(trees.header, codes)
    ensures Reads(g, Between(windowBits, ring, Upto(before, input, start)), offset,
                  CompressedForm(front, bits, end - start, isLast),
                  AtEnd(g, windowBits, ring, before, input, start, end, isLast, trees, after))
  {
    hide *;
    var d, length := Between(windowBits, ring, Upto(before, input, start)), end - start;
    var header := CompressedHeader(length, isLast);
    var mid := DecoderState(CompressedTrees(isLast, length, []), windowBits, ring, Upto(before, input, start));
    ReadsCompressedHeader(g, windowBits, ring, Upto(before, input, start), offset, length, isLast);
    ReadsSound(g, d, offset, header, mid);
    ReadsTrees(g, mid, offset + |header|, isLast, length, [], front, trees);
    var data := AtCommands(g, mid, isLast, length, trees);
    ReadsBoth(g, d, offset, header, mid, front, data);
    ReadsSound(g, d, offset, header + front, data);
    SameStart(g, windowBits, ring, before, input, start, end, isLast, trees, after);
    ReadsBodyBits(g, windowBits, ring, offset + |header + front|, isLast, trees, codes, bits, before, input, start, end,
                  after);
    ReadsBoth(g, d, offset, header + front, data, bits, AtEnd(g, windowBits, ring, before, input, start, end, isLast,
                                                              trees, after));
    FormIs(front, bits, length, isLast);
  }

  lemma SameStart(g: Given, windowBits: nat, ring: Ring, before: seq<Byte>, input: seq<Byte>, start: nat, end: nat,
                  isLast: bool, trees: Trees, after: Ring)
    requires start <= end <= |input|
    ensures var length := end - start;
            var data := AtCommands(g, DecoderState(CompressedTrees(isLast, length, []), windowBits, ring,
                                                   Upto(before, input, start)), isLast, length, trees);
            && data == AtCommands(g, Between(windowBits, ring, Upto(before, input, start)), isLast, length, trees)
            && data.phase.CompressedData?
            && AtEnd(g, windowBits, ring, before, input, start, end, isLast, trees, after) ==
               WithBlock(data, EndState(data.phase.block, before, input, end, after))
  {
    hide CodesOf;
  }

  lemma FormIs(front: seq<bool>, bits: seq<bool>, length: nat, isLast: bool)
    requires 0 < length <= MAX_META_BLOCK_SIZE
    ensures CompressedForm(front, bits, length, isLast) == CompressedHeader(length, isLast) + front + bits
  {
    hide CompressedHeader;
  }

  /** The stream goes on behind a compressed metablock that is not the last. */
  lemma GoesOn(g: Given, windowBits: nat, ring: Ring, offset: nat, before: seq<Byte>, input: seq<Byte>, start: nat,
               end: nat, trees: Trees, after: Ring)
    requires start <= end <= |input|
    requires var d := AtEnd(g, windowBits, ring, before, input, start, end, false, trees,
                            after); Admissible(g.parser) && Sound(d)
    ensures Reads(g, AtEnd(g, windowBits, ring, before, input, start, end, false, trees, after), offset, [],
                  Between(windowBits, after, Upto(before, input, end)))
  {
    hide Sound, Admissible, Reads, CodesOf;
    var d := AtEnd(g, windowBits, ring, before, input, start, end, false, trees, after);
    ReadsStep(g, d, offset, [], Between(windowBits, after, Upto(before, input, end)));
  }

  /** The stream ends behind the last metablock, at the end of the byte. */
  lemma EndsHere(g: Given, windowBits: nat, ring: Ring, offset: nat, before: seq<Byte>, input: seq<Byte>, start: nat,
                 end: nat, trees: Trees, after: Ring)
    requires start <= end <= |input|
    requires var d := AtEnd(g, windowBits, ring, before, input, start, end, true, trees, after);
             Admissible(g.parser) && Sound(d)
    ensures Reads(g, AtEnd(g, windowBits, ring, before, input, start, end, true, trees, after), offset,
                  seq(Padding(offset), _ => false),
                  Ended(windowBits, after, Upto(before, input, end)))
  {
    hide Sound, Admissible, Reads, CodesOf, Padding;
    var d := AtEnd(g, windowBits, ring, before, input, start, end, true, trees, after);
    ReadsPadding(g, d, offset, Ended(windowBits, after, Upto(before, input, end)));
  }

  function Ended(windowBits: nat, ring: Ring, flat: seq<Byte>): DecoderState
  {
    DecoderState(DecoderPhase.Finished, windowBits, ring, flat)
  }

  /** The decoder follows the encoder: what has been written so far, whatever is still to come, takes it from
      the start of a stream to this state. */
  ghost predicate Follows(g: Given, written: seq<bool>, next: DecoderState)
  {
    Admissible(g.parser) && Sound(Initial()) && Reads(g, Initial(), 0, written, next)
  }

  lemma FollowsFurther(g: Given, written: seq<bool>, mid: DecoderState, bits: seq<bool>, next: DecoderState)
    requires Follows(g, written, mid) && Reads(g, mid, |written|, bits, next)
    ensures Follows(g, written + bits, next)
  {
    hide Reads, Sound, Admissible;
    ReadsBoth(g, Initial(), 0, written, mid, bits, next);
  }

  lemma FollowsStart(g: Given, windowBits: nat)
    requires Admissible(g.parser) && 10 <= windowBits <= 24
    ensures Follows(g, WindowHeader(windowBits), Between(windowBits, InitialRing(), []))
  {
    hide Reads, Sound, Admissible, WindowHeader;
    InitialIsSound();
    ReadsWindow(g, windowBits);
  }

  lemma FollowsSound(g: Given, written: seq<bool>, next: DecoderState)
    requires Follows(g, written, next)
    ensures Admissible(g.parser) && Sound(next)
  {
    hide Sound, Admissible;
  }

  /** A stored metablock more. */
  lemma FollowsStored(g: Given, written: seq<bool>, windowBits: nat, ring: Ring, flat: seq<Byte>, bytes: seq<Byte>)
    requires Follows(g, written, Between(windowBits, ring, flat)) && 0 < |bytes| <= MAX_META_BLOCK_SIZE
    ensures Follows(g, WithStored(written, bytes), Between(windowBits, ring, flat + bytes))
  {
    hide *;
    FollowsSound(g, written, Between(windowBits, ring, flat));
    ReadsStored(g, windowBits, ring, flat, |written|, bytes);
    FollowsFurther(g, written, Between(windowBits, ring, flat), StoredForm(|written|, bytes),
                   Between(windowBits, ring, flat + bytes));
    StoredIsForm(written, bytes);
  }

  /** The end of the stream. */
  lemma FollowsEnd(g: Given, written: seq<bool>, windowBits: nat, ring: Ring, flat: seq<Byte>)
    requires Follows(g, written, Between(windowBits, ring, flat))
    ensures Follows(g, Aligned(written + FinalEmpty()), Ended(windowBits, ring, flat))
  {
    hide Follows, Reads, Sound, Admissible, Padding, Lsb;
    FollowsSound(g, written, Between(windowBits, ring, flat));
    ReadsEnd(g, windowBits, ring, flat, |written|);
    var padding := seq(Padding(|written| + 2), _ => false);
    FollowsFurther(g, written, Between(windowBits, ring, flat), FinalEmpty() + padding, Ended(windowBits, ring, flat));
    assert |written + FinalEmpty()| == |written| + 2;
    assert written + (FinalEmpty() + padding) == written + FinalEmpty() + padding;
  }

  /** A compressed metablock more; behind the last one the stream ends. */
  lemma FollowsCompressed(g: Given, front: seq<bool>, written: seq<bool>, windowBits: nat, ring: Ring, codes: Codes,
                          bits: seq<bool>,
                        before: seq<Byte>, input: seq<Byte>, start: nat, end: nat, after: Ring, isLast: bool)
    requires start < end <= start + MAX_META_BLOCK_SIZE && end <= |input| &&
             Follows(g, written, Between(windowBits, ring, Upto(before, input, start)))
    requires DecodesTo(g.words, WindowSize(windowBits), before, codes, bits, input, start, end, ring, after)
    requires Understood(g.parser, codes, front)
    ensures var all := written + CompressedForm(front, bits, end - start, isLast);
            if isLast then Follows(g, Aligned(all), Ended(windowBits, after, Upto(before, input, end)))
                else Follows(g, all, Between(windowBits, after, Upto(before, input, end)))
  {
    var trees :| Parses(g.parser, [], front, trees) && ReadsCodes(trees.header, codes);
    hide *;
    var d := Between(windowBits, ring, Upto(before, input, start));
    FollowsSound(g, written, d);
    ReadsCompressed(g, front, windowBits, ring, |written|, isLast, trees, codes, bits, before, input, start, end,
                    after);
    var at := AtEnd(g, windowBits, ring, before, input, start, end, isLast, trees, after);
    var more := CompressedForm(front, bits, end - start, isLast);
    FollowsFurther(g, written, d, more, at);
    FollowsSound(g, written + more, at);
    var all := written + more;
    if isLast {
      EndsHere(g, windowBits, ring, |all|, before, input, start, end, trees, after);
      FollowsFurther(g, all, at, seq(Padding(|all|), _ => false), Ended(windowBits, after, Upto(before, input, end)));
      AlignedIs(all);
    } else {
      GoesOn(g, windowBits, ring, |all|, before, input, start, end, trees, after);
      FollowsFurther(g, all, at, [], Between(windowBits, after, Upto(before, input, end)));
      assert all + [] == all;
    }
  }

  lemma AlignedIs(bits: seq<bool>)
    ensures Aligned(bits) == bits + seq(Padding(|bits|), _ => false)
  {
    hide Padding;
  }

  /** A chunk of a length a metablock can have. */
  predicate ProperChunk(chunk: Chunk, start: nat)
  {
    && start < chunk.end <= start + MAX_META_BLOCK_SIZE && (chunk.form.Stored? ==>
                                                            |chunk.form.bytes| == chunk.end - start)
  }

  function WithChunk(written: seq<bool>, chunk: Chunk, start: nat, isLast: bool): seq<bool>
    requires ProperChunk(chunk, start)
  {
    match chunk.form
    case Compressed(_, front, bits) => written + CompressedForm(front, bits, chunk.end - start, isLast)
    case Stored(bytes) => WithStored(written, bytes)
  }

  /** Writes a chunk as a metablock. */
  method WriteChunk(writer: BitWriter, chunk: Chunk, start: nat, isLast: bool)
    requires writer.Valid() && ProperChunk(chunk, start)
    modifies writer
    ensures writer.Valid() && writer.Bits() == WithChunk(old(writer.Bits()), chunk, start, isLast)
  {
    hide Lsb, Padding, BitsOf, CompressedHeader, WithStored;
    match chunk.form {
      case Compressed(_, front, bits) =>
        WriteCompressedMetablockHeader(writer, chunk.end - start, isLast);
        var trees := WriterOf(front);
        var body := WriterOf(bits);
        writer.AppendWriter(trees);
        writer.AppendWriter(body);
        ghost var header := CompressedHeader(chunk.end - start, isLast);
        assert old(writer.Bits()) + header + front + bits == old(writer.Bits()) + (header + front + bits);
      case Stored(bytes) =>
        WriteUncompressedMetablock(writer, bytes);
    }
  }

  /** A stream that ends the decoder decodes to its output, to its last bit and no further. */
  lemma FollowsDecodes(g: Given, stream: seq<bool>, windowBits: nat, ring: Ring, flat: seq<Byte>, room: nat)
    requires Follows(g, stream, Ended(windowBits, ring, flat)) && |stream| % 8 == 0 && |flat| <= room
    ensures Admissible(g.parser) && Sound(Initial())
    ensures Decode(g, Initial(), stream, room) == DecoderStop(Ended(windowBits, ring, flat), [], Done)
  {
    hide Sound, Admissible;
    assert stream + [] == stream;
    assert Onwards(g, Initial(), stream, [], room) == Decode(g, Ended(windowBits, ring, flat), [], room - |flat|);
  }

  /** A stream that decodes to an input decompresses to it under every limit that lets it, and under no other. */
  lemma LimitDecides(g: Given, stream: seq<Byte>, windowBits: nat, ring: Ring, flat: seq<Byte>, limit: nat)
    requires Follows(g, BitsOf(stream), Ended(windowBits, ring, flat))
    ensures Admissible(g.parser)
    ensures Outcome(g, stream, limit) == if |flat| <= limit then Ok(flat) else Err(OutputLimitExceeded(limit))
  {
    hide Decode, Sound, Admissible, BitsOf, OnBoundary, Reads;
    var room := if limit < |flat| then |flat| else limit;
    FollowsDecodes(g, BitsOf(stream), windowBits, ring, flat, room);
    if limit < |flat| {
      InitialOnBoundary(|BitsOf(stream)|);
      PartOfTheWay(g, Initial(), BitsOf(stream), limit, room);
    }
  }
}
