/** Streams without a search across metablocks: at qualities 0 and 1 (`src/encode/fragment.rs`), fragment after
    fragment, and stored (`src/encode/mod.rs`). Both decompress to their input. */
module FragmentRoundTrip {
  import opened Arithmetic
  import opened Bytes
  import opened BitStream
  import opened BitPacking
  import opened Dictionary
  import opened Distances
  import opened MetablockHeaders
  import opened CommandStream
  import opened CommandEmission
  import opened MetablockStart
  import opened FragmentEmission
  import opened FragmentEncoder
  import S = FragmentStream
  import opened DecoderMachine
  import opened MetablockReading
  import opened StreamRoundTrip
  import opened Decompression
  import opened Outcomes

  /** One metablock of a fragment, whatever came before the fragment. */
  lemma FollowsPart(g: Given, written: seq<bool>, windowBits: nat, before: seq<Byte>, fragment: seq<Byte>, block: Chunk,
                    start: nat, ring: Ring, after: Ring)
    requires ProperChunk(block, start) && Conveys(block.form, fragment, start, block.end, ring, after) &&
             block.end <= |fragment|
    requires WindowCovers(WindowSize(windowBits), fragment) && Understands(g.parser)
    requires Follows(g, written, Between(windowBits, ring, before + fragment[..start]))
    ensures Follows(g, WithChunk(written, block, start, false),
                    Between(windowBits, after, before + fragment[..block.end]))
  {
    hide Follows, DecodesTo, DecodableCodes, IsStart, Understood, WithStored, CompressedForm, WindowSize, WindowCovers;
    assert before + fragment[..start] == Upto(before, fragment, start) &&
           before + fragment[..block.end] == Upto(before, fragment, block.end);
    match block.form {
      case Compressed(codes, front, bits) =>
        assert Understood(g.parser, codes, front);
        assert DecodesTo(g.words, WindowSize(windowBits), before, codes, bits, fragment, start, block.end, ring, after);
        FollowsCompressed(g, front, written, windowBits, ring, codes, bits, before, fragment, start, block.end, after,
                          false);
      case Stored(bytes) =>
        FollowsStored(g, written, windowBits, ring, before + fragment[..start], bytes);
        assert before + fragment[..start] + bytes == before + fragment[..block.end];
    }
  }

  lemma PartOf(blocks: seq<Chunk>, fragment: seq<Byte>, rings: seq<Ring>, i: nat)
    requires ConveysParts(blocks, fragment, rings) && i < |blocks|
    ensures |rings| == |blocks| + 1 && ProperChunk(blocks[i], ChunkStart(blocks, i)) && blocks[i].end <= |fragment|
    ensures Conveys(blocks[i].form, fragment, ChunkStart(blocks, i), blocks[i].end, rings[i], rings[i + 1])
  {
    hide WindowCovers, DecodableCodes, IsStart;
    assert Part(blocks[i], ChunkStart(blocks, i));
    assert Conveys(blocks[i].form, fragment, ChunkStart(blocks, i), blocks[i].end, rings[i], rings[i + 1]);
    if blocks[i].form.Compressed? {
      var words: Words := (length: nat, index: nat) => seq(length, _ => 0);
      assert DecodesTo(words, |fragment|, [], blocks[i].form.codes, blocks[i].form.bits, fragment,
                       ChunkStart(blocks, i), blocks[i].end,
                       rings[i], rings[i + 1]) by {
        CoversItself(fragment);
      }
    }
  }

  lemma CoversItself(fragment: seq<Byte>)
    ensures WindowCovers(|fragment|, fragment)
  {
  }

  predicate AllProper(blocks: seq<Chunk>)
  {
    forall i :: 0 <= i < |blocks| ==> ProperChunk(blocks[i], ChunkStart(blocks, i))
  }

  /** The bits of one metablock that starts at a place of a byte. */
  function PartBits(offset: nat, block: Chunk, start: nat): seq<bool>
    requires ProperChunk(block, start)
  {
    match block.form
    case Compressed(_, front, bits) => CompressedForm(front, bits, block.end - start, false)
    case Stored(bytes) => StoredForm(offset, bytes)
  }

  /** The bits of a fragment's first metablocks. */
  function PartsBits(offset: nat, blocks: seq<Chunk>, n: nat): seq<bool>
    requires n <= |blocks| && AllProper(blocks)
  {
    if n == 0 then []
    else
      var bits := PartsBits(offset, blocks, n - 1);
      bits + PartBits(offset + |bits|, blocks[n - 1], ChunkStart(blocks, n - 1))
  }

  lemma WithPart(written: seq<bool>, block: Chunk, start: nat)
    requires ProperChunk(block, start)
    ensures WithChunk(written, block, start, false) == written + PartBits(|written|, block, start)
  {
    hide CompressedForm, StoredForm, WithStored;
    if block.form.Stored? {
      StoredIsForm(written, block.form.bytes);
    }
  }

  /** Writes the metablocks of a fragment. */
  method WriteFragment(writer: BitWriter, fragment: seq<Byte>, blocks: seq<Chunk>, ghost rings: seq<Ring>,
                       ghost g: Given,
                       ghost windowBits: nat, ghost before: seq<Byte>)
    requires writer.Valid() && ConveysParts(blocks, fragment, rings) && ChunkStart(blocks, |blocks|) == |fragment|
    requires WindowCovers(WindowSize(windowBits), fragment) && Understands(g.parser)
    requires Follows(g, writer.Bits(), Between(windowBits, rings[0], before))
    modifies writer
    ensures writer.Valid() && Follows(g, writer.Bits(), Between(windowBits, rings[|blocks|], before + fragment))
    ensures AllProper(blocks)
    ensures writer.Bits() == old(writer.Bits()) + PartsBits(|old(writer.Bits())|, blocks, |blocks|)
  {
    hide Follows, ConveysParts, Conveys, Understands, WindowSize, WindowCovers, Lsb, Pow2, BitsOf, WithChunk,
         ProperChunk, PartBits, AllProper;
    assert fragment[..0] == [] && before + [] == before && fragment[..|fragment|] == fragment;
    RingsFor(blocks, fragment, rings);
    PartsProper(blocks, fragment, rings);
    ghost var first := writer.Bits();
    assert first + [] == first;
    for i := 0 to |blocks|
      invariant writer.Bits() == first + PartsBits(|first|, blocks, i)
      invariant writer.Valid() && ChunkStart(blocks, i) <= |fragment|
      invariant Follows(g, writer.Bits(), Between(windowBits, rings[i], before + fragment[..ChunkStart(blocks, i)]))
    {
      PartOf(blocks, fragment, rings, i);
      FollowsPart(g, writer.Bits(), windowBits, before, fragment, blocks[i], ChunkStart(blocks, i), rings[i],
                  rings[i + 1]);
      ghost var bits, part := PartsBits(|first|, blocks, i), PartBits(|writer.Bits()|, blocks[i],
                                                                      ChunkStart(blocks, i));
      WithPart(writer.Bits(), blocks[i], ChunkStart(blocks, i));
      assert first + bits + part == first + (bits + part);
      WriteChunk(writer, blocks[i], ChunkStart(blocks, i), false);
    }
  }

  lemma PartsProper(blocks: seq<Chunk>, fragment: seq<Byte>, rings: seq<Ring>)
    requires ConveysParts(blocks, fragment, rings)
    ensures AllProper(blocks)
  {
    hide ConveysParts, ProperChunk;
    forall i | 0 <= i < |blocks|
      ensures ProperChunk(blocks[i], ChunkStart(blocks, i))
    {
      PartOf(blocks, fragment, rings, i);
    }
  }

  lemma RingsFor(blocks: seq<Chunk>, fragment: seq<Byte>, rings: seq<Ring>)
    requires ConveysParts(blocks, fragment, rings)
    ensures |rings| == |blocks| + 1
  {
    hide Conveys;
  }

  /** One fragment, with a table of its own. */
  method CompressFragment(writer: BitWriter, ring: RecentDistances, windowBits: nat, quality: nat,
                          fragment: seq<Byte>, merge: (seq<Byte>, seq<Byte>) -> bool, ghost g: Given,
                          ghost before: seq<Byte>)
    requires writer.Valid() && Understands(g.parser) && WindowCovers(WindowSize(windowBits), fragment)
    requires Follows(g, writer.Bits(), Between(windowBits, ring.ring, before))
    modifies writer, ring
    ensures writer.Valid() && Follows(g, writer.Bits(), Between(windowBits, ring.ring, before + fragment))
  {
    hide *;
    var blocks;
    ghost var rings;
    if quality == 0 {
      blocks, rings := OnePassFragment(fragment, merge, ring, WindowSize(windowBits));
    } else {
      blocks, rings := TwoPassFragment(fragment, ring, WindowSize(windowBits));
    }
    WriteFragment(writer, fragment, blocks, rings, g, windowBits, before);
  }

  /** The whole stream at quality 0 or 1: fragments as long as the window, each with a table of its own, the
      distances going on from one to the next. What it decompresses to is the input. */
  method CompressFragments(windowBits: nat, quality: nat, input: seq<Byte>, merge: (seq<Byte>, seq<Byte>) -> bool,
                           ghost g: Given) returns (stream: seq<Byte>)
    requires 10 <= windowBits <= 24 && Admissible(g.parser) && Understands(g.parser)
    ensures forall limit: nat :: Outcome(g, stream, limit) == if |input| <= limit then Ok(input)
            else Err(OutputLimitExceeded(limit))
  {
    hide Follows, Understands, Admissible, Pow2, BitsOf, Outcome, WindowHeader, FinalEmpty, Aligned, WindowSize,
         BitWriter.Bits, BitWriter.Valid, Between, Ended;
    var writer := new BitWriter();
    WriteWindowBits(writer, windowBits);
    assert [] + WindowHeader(windowBits) == WindowHeader(windowBits);
    var ring := new RecentDistances();
    FollowsStart(g, windowBits);
    FragmentsFit(windowBits);
    var fragmentSize, start := Pow2(windowBits), 0;
    assert input[..0] == [];
    while start < |input|
      invariant fresh(writer) && fresh(ring) && writer.Valid() && start <= |input|
      invariant Follows(g, writer.Bits(), Between(windowBits, ring.ring, input[..start]))
      decreases |input| - start
    {
      var end := Min(start + fragmentSize, |input|);
      var fragment := input[start..end];
      CompressFragment(writer, ring, windowBits, quality, fragment, merge, g, input[..start]);
      assert input[..start] + fragment == input[..end];
      start := end;
    }
    assert input[..|input|] == input;
    FollowsEnd(g, writer.Bits(), windowBits, ring.ring, input);
    WriteFinalEmptyMetablock(writer);
    stream := S.Closed(writer);
    forall limit: nat
      ensures Outcome(g, stream, limit) == if |input| <= limit then Ok(input) else Err(OutputLimitExceeded(limit))
    {
      LimitDecides(g, stream, windowBits, ring.ring, input, limit);
    }
  }

  lemma FragmentsFit(windowBits: nat)
    requires 10 <= windowBits <= 24
    ensures Pow2(windowBits) == WindowSize(windowBits) + WINDOW_GAP && Pow2(windowBits) > 0
  {
    WindowIsLarge(windowBits);
  }

  /** Stored metablocks, one after another. */
  function WithAllStored(written: seq<bool>, input: seq<Byte>): seq<bool>
    decreases |input|
  {
    if input == [] then written
    else
      var n := Min(MAX_META_BLOCK_SIZE, |input|);
      WithAllStored(WithStored(written, input[..n]), input[n..])
  }

  lemma {:induction false} FollowsAllStored(g: Given, written: seq<bool>, windowBits: nat, ring: Ring, flat: seq<Byte>,
                                            input: seq<Byte>)
    requires Follows(g, written, Between(windowBits, ring, flat))
    ensures Follows(g, WithAllStored(written, input), Between(windowBits, ring, flat + input))
    decreases |input|
  {
    hide Follows, WithStored;
    if input == [] {
      assert flat + [] == flat;
    } else {
      var n := Min(MAX_META_BLOCK_SIZE, |input|);
      FollowsStored(g, written, windowBits, ring, flat, input[..n]);
      FollowsAllStored(g, WithStored(written, input[..n]), windowBits, ring, flat + input[..n], input[n..]);
      assert flat + input[..n] + input[n..] == flat + input;
    }
  }

  /** Everything stored, the fallback of every quality. */
  method CompressStored(windowBits: nat, input: seq<Byte>) returns (stream: seq<Byte>)
    requires 10 <= windowBits <= 24
    ensures BitsOf(stream) == Aligned(WithAllStored(WindowHeader(windowBits), input) + FinalEmpty())
  {
    hide Lsb, Padding, BitsOf, WindowHeader, FinalEmpty, WithStored;
    var writer := new BitWriter();
    WriteWindowBits(writer, windowBits);
    assert [] + WindowHeader(windowBits) == WindowHeader(windowBits);
    var start := 0;
    assert input[0..] == input;
    while start < |input|
      invariant fresh(writer) && writer.Valid() && start <= |input|
      invariant WithAllStored(writer.Bits(), input[start..]) == WithAllStored(WindowHeader(windowBits), input)
      decreases |input| - start
    {
      var end := Min(start + MAX_META_BLOCK_SIZE, |input|);
      ghost var rest := input[start..];
      assert rest[..end - start] == input[start..end] && rest[end - start..] == input[end..];
      WriteUncompressedMetablock(writer, input[start..end]);
      start := end;
    }
    assert input[|input|..] == [];
    WriteFinalEmptyMetablock(writer);
    writer.AlignToByte();
    stream := writer.bytes;
    BitPacking.NoWord(writer.pending);
    assert writer.Bits() == BitsOf(stream);
  }

  /** Whatever the input and the parser, a stored stream decompresses to it. */
  lemma StoredRoundTrip(g: Given, windowBits: nat, input: seq<Byte>, stream: seq<Byte>, limit: nat)
    requires 10 <= windowBits <= 24 && Admissible(g.parser)
    requires BitsOf(stream) == Aligned(WithAllStored(WindowHeader(windowBits), input) + FinalEmpty())
    ensures Outcome(g, stream, limit) == if |input| <= limit then Ok(input) else Err(OutputLimitExceeded(limit))
  {
    hide *;
    FollowsStart(g, windowBits);
    FollowsAllStored(g, WindowHeader(windowBits), windowBits, InitialRing(), [], input);
    assert [] + input == input;
    FollowsEnd(g, WithAllStored(WindowHeader(windowBits), input), windowBits, InitialRing(), input);
    LimitDecides(g, stream, windowBits, InitialRing(), input, limit);
  }

  /** Wherever a fragment is written, it takes the decoder over its bytes, with the encoder's distances behind it. */
  ghost predicate HonestFragments(g: Given, windowBits: nat, emission: S.FragmentEmission)
  {
    forall written: seq<bool>, ring: Ring, before: seq<Byte>, fragment: seq<Byte> ::
      0 < |fragment| <= Pow2(windowBits) && Follows(g, written, Between(windowBits, ring, before)) ==>
        HonestFragment(g, windowBits, emission, written, ring, before, fragment)
  }

  ghost predicate HonestFragment(g: Given, windowBits: nat, emission: S.FragmentEmission, written: seq<bool>,
                                 ring: Ring, before: seq<Byte>, fragment: seq<Byte>)
  {
    var w := S.WithFragment(emission, S.Written(written, ring), fragment);
    Follows(g, w.bits, Between(windowBits, w.ring, before + fragment))
  }

  lemma {:induction false} FollowsFragments(g: Given, windowBits: nat, emission: S.FragmentEmission, w: S.Written,
                                            before: seq<Byte>, input: seq<Byte>)
    requires HonestFragments(g, windowBits, emission) && Follows(g, w.bits, Between(windowBits, w.ring, before))
    ensures var last := S.WithInput(emission, Pow2(windowBits), w, input);
            Follows(g, last.bits, Between(windowBits, last.ring, before + input))
    decreases |input|
  {
    hide Follows, Pow2, HonestFragments, S.WithFragment;
    var size := Pow2(windowBits);
    if |input| <= size {
      OneFollows(g, windowBits, emission, w, before, input);
    } else {
      OneFollows(g, windowBits, emission, w, before, input[..size]);
      FollowsFragments(g, windowBits, emission, S.WithFragment(emission, w, input[..size]), before + input[..size],
                       input[size..]);
      assert before + input[..size] + input[size..] == before + input;
    }
  }

  lemma OneFollows(g: Given, windowBits: nat, emission: S.FragmentEmission, w: S.Written, before: seq<Byte>,
                   fragment: seq<Byte>)
    requires HonestFragments(g, windowBits, emission) && Follows(g, w.bits, Between(windowBits, w.ring, before))
    requires |fragment| <= Pow2(windowBits)
    ensures var next := S.WithFragment(emission, w, fragment);
            Follows(g, next.bits, Between(windowBits, next.ring, before + fragment))
  {
    hide Follows, Pow2;
    if fragment == [] {
      assert before + [] == before;
    } else {
      assert HonestFragment(g, windowBits, emission, w.bits, w.ring, before, fragment);
    }
  }

  /** However it was fed and drained, a stream of such fragments decompresses to its input. */
  lemma StreamedRoundTrip(g: Given, windowBits: nat, emission: S.FragmentEmission, input: seq<Byte>, stream: seq<Byte>,
                          limit: nat)
    requires 10 <= windowBits <= 24 && Admissible(g.parser) && HonestFragments(g, windowBits, emission)
    requires BitsOf(stream) == S.StreamBits(emission, Pow2(windowBits), WindowHeader(windowBits), input)
    ensures Outcome(g, stream, limit) == if |input| <= limit then Ok(input) else Err(OutputLimitExceeded(limit))
  {
    hide HonestFragments, Follows, Pow2, S.WithInput, Admissible, Outcome, BitsOf, FinalEmpty, Aligned;
    FollowsStart(g, windowBits);
    FollowsFragments(g, windowBits, emission, S.Written(WindowHeader(windowBits), InitialRing()), [], input);
    assert [] + input == input;
    var last := S.WithInput(emission, Pow2(windowBits), S.Written(WindowHeader(windowBits), InitialRing()), input);
    FollowsEnd(g, last.bits, windowBits, last.ring, input);
    LimitDecides(g, stream, windowBits, last.ring, input, limit);
  }

  /** Whole bytes before a fragment make no difference. */
  lemma {:induction false} SamePlace(a: nat, b: nat, blocks: seq<Chunk>, n: nat)
    requires n <= |blocks| && AllProper(blocks) && a % 8 == b % 8
    ensures PartsBits(a, blocks, n) == PartsBits(b, blocks, n)
  {
    hide *;
    if n == 0 {
      NoParts(a, blocks);
      NoParts(b, blocks);
    } else {
      SamePlace(a, b, blocks, n - 1);
      var bits := PartsBits(a, blocks, n - 1);
      ProperAt(blocks, n - 1);
      SameRemainder(a, b, |bits|);
      SamePart(a + |bits|, b + |bits|, blocks[n - 1], ChunkStart(blocks, n - 1));
      LastPart(a, blocks, n);
      LastPart(b, blocks, n);
    }
  }

  lemma NoParts(a: nat, blocks: seq<Chunk>)
    requires AllProper(blocks)
    ensures PartsBits(a, blocks, 0) == []
  {
  }

  lemma SameRemainder(a: nat, b: nat, n: nat)
    requires a % 8 == b % 8
    ensures (a + n) % 8 == (b + n) % 8
  {
  }

  lemma ProperAt(blocks: seq<Chunk>, i: nat)
    requires AllProper(blocks) && i < |blocks|
    ensures ProperChunk(blocks[i], ChunkStart(blocks, i))
  {
    hide ProperChunk;
  }

  lemma LastPart(a: nat, blocks: seq<Chunk>, n: nat)
    requires 0 < n <= |blocks| && AllProper(blocks) && ProperChunk(blocks[n - 1], ChunkStart(blocks, n - 1))
    ensures var bits := PartsBits(a, blocks, n - 1);
            PartsBits(a, blocks, n) == bits + PartBits(a + |bits|, blocks[n - 1], ChunkStart(blocks, n - 1))
  {
    hide PartBits, ProperChunk;
  }

  lemma SamePart(a: nat, b: nat, block: Chunk, start: nat)
    requires ProperChunk(block, start) && a % 8 == b % 8
    ensures PartBits(a, block, start) == PartBits(b, block, start)
  {
    hide CompressedForm, StoredHeader, BitsOf;
    if block.form.Stored? {
      var n := |StoredHeader(|block.form.bytes|)|;
      assert Padding(a + n) == Padding(b + n);
    }
  }

  /** Metablocks that convey a fragment take the decoder over it. */
  lemma {:induction false} FollowsParts(g: Given, windowBits: nat, written: seq<bool>, before: seq<Byte>,
                                        fragment: seq<Byte>, blocks: seq<Chunk>, rings: seq<Ring>, n: nat)
    requires ConveysParts(blocks, fragment, rings) && AllProper(blocks) && n <= |blocks| && |rings| == |blocks| + 1
    requires WindowCovers(WindowSize(windowBits), fragment) && Understands(g.parser)
    requires Follows(g, written, Between(windowBits, rings[0], before))
    ensures ChunkStart(blocks, n) <= |fragment|
    ensures Follows(g, written + PartsBits(|written|, blocks, n),
                    Between(windowBits, rings[n], before + fragment[..ChunkStart(blocks, n)]))
  {
    hide Follows, ConveysParts, Conveys, Understands, WindowSize, WindowCovers, WithChunk, PartBits, ProperChunk;
    if n == 0 {
      assert written + [] == written && before + fragment[..0] == before;
    } else {
      FollowsParts(g, windowBits, written, before, fragment, blocks, rings, n - 1);
      PartOf(blocks, fragment, rings, n - 1);
      var all := written + PartsBits(|written|, blocks, n - 1);
      var block, start := blocks[n - 1], ChunkStart(blocks, n - 1);
      FollowsPart(g, all, windowBits, before, fragment, block, start, rings[n - 1], rings[n]);
      WithPart(all, block, start);
      assert all + PartBits(|all|, block, start) ==
             written + (PartsBits(|written|, blocks, n - 1) + PartBits(|all|, block, start));
    }
  }

  /** Every fragment is compressed to metablocks that convey it. */
  ghost predicate ConveysFragments(emission: S.FragmentEmission, windowBits: nat)
  {
    forall fragment: seq<Byte>, ring: Ring, offset: nat :: 0 < |fragment| <= Pow2(windowBits) ==>
      FragmentConveyed(emission, fragment, ring, offset)
  }

  ghost predicate FragmentConveyed(emission: S.FragmentEmission, fragment: seq<Byte>, ring: Ring, offset: nat)
  {
    exists blocks, rings :: IsFragment(fragment, ring, offset, blocks, rings, emission(fragment, ring, offset))
  }

  ghost predicate IsFragment(fragment: seq<Byte>, ring: Ring, offset: nat, blocks: seq<Chunk>, rings: seq<Ring>,
                             made: (seq<bool>, Ring))
  {
    && ConveysParts(blocks, fragment, rings) && ChunkStart(blocks, |blocks|) == |fragment| && rings[0] == ring
    && AllProper(blocks) && made == (PartsBits(offset, blocks, |blocks|), rings[|blocks|])
  }

  /** So its streams can be decoded. */
  lemma PartsAreHonest(g: Given, windowBits: nat, emission: S.FragmentEmission)
    requires 10 <= windowBits <= 24 && Understands(g.parser) && ConveysFragments(emission, windowBits)
    ensures HonestFragments(g, windowBits, emission)
  {
    hide Follows, Understands, FragmentConveyed, HonestFragment, Pow2;
    forall written: seq<bool>, ring: Ring, before: seq<Byte>, fragment: seq<Byte> |
      0 < |fragment| <= Pow2(windowBits) && Follows(g, written, Between(windowBits, ring, before))
      ensures HonestFragment(g, windowBits, emission, written, ring, before, fragment)
    {
      assert FragmentConveyed(emission, fragment, ring, |written| % 8);
      FragmentIsHonest(g, windowBits, emission, written, ring, before, fragment);
    }
  }

  lemma FragmentIsHonest(g: Given, windowBits: nat, emission: S.FragmentEmission, written: seq<bool>, ring: Ring,
                         before: seq<Byte>, fragment: seq<Byte>)
    requires 10 <= windowBits <= 24 && Understands(g.parser) && 0 < |fragment| <= Pow2(windowBits)
    requires FragmentConveyed(emission, fragment, ring, |written| % 8)
    requires Follows(g, written, Between(windowBits, ring, before))
    ensures HonestFragment(g, windowBits, emission, written, ring, before, fragment)
  {
    hide Follows, Understands, ConveysParts, PartsBits, AllProper, WindowCovers;
    FragmentsFit(windowBits);
    hide WindowSize, Pow2;
    var made := emission(fragment, ring, |written| % 8);
    var blocks, rings :| IsFragment(fragment, ring, |written| % 8, blocks, rings, made);
    RingsFor(blocks, fragment, rings);
    WindowIsEnough(windowBits, fragment);
    FollowsParts(g, windowBits, written, before, fragment, blocks, rings, |blocks|);
    SamePlace(|written|, |written| % 8, blocks, |blocks|);
    assert fragment[..|fragment|] == fragment;
  }

  lemma WindowIsEnough(windowBits: nat, fragment: seq<Byte>)
    requires |fragment| <= Pow2(windowBits) == WindowSize(windowBits) + WINDOW_GAP
    ensures WindowCovers(WindowSize(windowBits), fragment)
  {
    hide Pow2, WindowSize;
  }
}
