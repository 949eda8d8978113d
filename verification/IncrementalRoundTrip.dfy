/** The streams of the incremental encoder (`src/encode/stream.rs`) in front of the decoder: if every compressed
    metablock says what its commands do, the stream decompresses to the input, however it was fed and drained. */
module IncrementalRoundTrip {
  import opened Arithmetic
  import opened Bytes
  import opened BitPacking
  import opened Distances
  import opened MetablockHeaders
  import opened CommandStream
  import opened CommandEmission
  import opened MetablockStart
  import opened MatchFinder
  import opened GreedyParse
  import opened DecoderMachine
  import opened MetablockReading
  import opened StreamRoundTrip
  import opened Decompression
  import G = GreedyStream
  import opened Outcomes

  /** The commands make up the chunk, and leave the encoder with these distances. */
  ghost predicate MakesUp(env: Env, seen: seq<Byte>, start: nat, commands: seq<StreamCommand>, insertStart: nat,
                          ring: Ring, after: Ring)
  {
    && start < |seen| <= start + MAX_META_BLOCK_SIZE && insertStart <= |seen|
    && Executes(env.words, env.window, [], seen, start, WithTail(commands, |seen| - insertStart), |seen|, ring)
    && RingAtEnd(ring, start, WithTail(commands, |seen| - insertStart), env.window) == after
  }

  /** Where a metablock leaves the decoder. */
  function LeftAt(windowBits: nat, ring: Ring, seen: seq<Byte>, isLast: bool): DecoderState
  {
    if isLast then Ended(windowBits, ring, seen) else Between(windowBits, ring, seen)
  }

  /** The last metablock is followed by zeros to the end of the byte. */
  function Closed(offset: nat, bits: seq<bool>, isLast: bool): seq<bool>
  {
    if isLast then bits + seq(Padding(offset + |bits|), _ => false) else bits
  }

  /** Wherever a compressed metablock stands, it takes the decoder over the bytes of its commands, with the
      encoder's distances behind it. */
  ghost predicate HonestFor(g: Given, windowBits: nat, emission: G.Emission, seen: seq<Byte>, start: nat,
                            commands: seq<StreamCommand>,
                            insertStart: nat, ring: Ring, after: Ring, isLast: bool, offset: nat)
    requires start < |seen| && insertStart <= |seen|
  {
    var emitted := emission(G.JobOf(seen, start, commands, insertStart, isLast));
    emitted.Some? && Sound(Between(windowBits, ring, seen[..start])) ==>
      Reads(g, Between(windowBits, ring, seen[..start]), offset, Closed(offset, emitted.value, isLast),
            LeftAt(windowBits, after, seen, isLast))
  }

  ghost predicate Honest(g: Given, windowBits: nat, env: Env, emission: G.Emission)
  {
    forall seen: seq<Byte>, start: nat, commands: seq<StreamCommand>, insertStart: nat, ring: Ring, after: Ring,
      isLast: bool, offset: nat ::
      MakesUp(env, seen, start, commands, insertStart, ring, after) ==>
        HonestFor(g, windowBits, emission, seen, start, commands, insertStart, ring, after, isLast, offset)
  }

  /** The single-tree form is honest: header, trees and the bits of the commands. */
  lemma SingleIsHonest(g: Given, windowBits: nat, env: Env, emission: G.Emission, seen: seq<Byte>, start: nat,
                       commands: seq<StreamCommand>, insertStart: nat, ring: Ring, after: Ring, isLast: bool,
                         offset: nat, codes: Codes,
                       front: seq<bool>)
    requires Admissible(g.parser) && Understands(g.parser) && g.words == env.words &&
             env.window == WindowSize(windowBits)
    requires MakesUp(env, seen, start, commands, insertStart, ring, after)
    requires var all := WithTail(commands, |seen| - insertStart);
             && IsStart(codes, front) && Writable(codes, seen, start, all)
             && emission(G.JobOf(seen, start, commands, insertStart, isLast)) ==
                Some(CompressedForm(front, BodyBits(codes, seen, start, all), |seen| - start, isLast))
    ensures HonestFor(g, windowBits, emission, seen, start, commands, insertStart, ring, after, isLast, offset)
  {
    hide Executes, RingAtEnd, Writable, BodyBits, DecodesTo, Reads, Sound, Admissible, WindowSize, CompressedForm,
         Understood, IsStart, Padding;
    assert Understood(g.parser, codes, front);
    var all := WithTail(commands, |seen| - insertStart);
    assert [] + seen[..start] == seen[..start] && [] + seen[..|seen|] == seen;
    BodyDecodes(env.words, env.window, [], codes, seen, start, |seen|, all, ring);
    if Sound(Between(windowBits, ring, seen[..start])) {
      SingleReads(g, front, windowBits, ring, offset, isLast, codes, BodyBits(codes, seen, start, all), seen, start,
                  after);
    }
  }

  lemma SingleReads(g: Given, front: seq<bool>, windowBits: nat, ring: Ring, offset: nat, isLast: bool, codes: Codes,
                    bits: seq<bool>,
                    seen: seq<Byte>, start: nat, after: Ring)
    requires start < |seen| <= start + MAX_META_BLOCK_SIZE && Admissible(g.parser) &&
             Sound(Between(windowBits, ring, seen[..start]))
    requires DecodesTo(g.words, WindowSize(windowBits), [], codes, bits, seen, start, |seen|, ring, after)
    requires Understood(g.parser, codes, front)
    ensures var all := CompressedForm(front, bits, |seen| - start, isLast);
            Reads(g, Between(windowBits, ring, seen[..start]), offset, Closed(offset, all, isLast),
                  LeftAt(windowBits, after, seen, isLast))
  {
    var trees :| Parses(g.parser, [], front, trees) && ReadsCodes(trees.header, codes);
    hide *;
    TreesRead(g, front, windowBits, ring, offset, isLast, codes, bits, seen, start, after, trees);
  }

  lemma TreesRead(g: Given, front: seq<bool>, windowBits: nat, ring: Ring, offset: nat, isLast: bool, codes: Codes,
                  bits: seq<bool>, seen: seq<Byte>, start: nat, after: Ring, trees: Trees)
    requires start < |seen| <= start + MAX_META_BLOCK_SIZE && Admissible(g.parser)
    requires Sound(Between(windowBits, ring, seen[..start]))
    requires DecodesTo(g.words, WindowSize(windowBits), [], codes, bits, seen, start, |seen|, ring, after)
    requires Parses(g.parser, [], front, trees) && ReadsCodes(trees.header, codes)
    ensures var all := CompressedForm(front, bits, |seen| - start, isLast);
            Reads(g, Between(windowBits, ring, seen[..start]), offset, Closed(offset, all, isLast),
                  LeftAt(windowBits, after, seen, isLast))
  {
    hide *;
    var d, all := Between(windowBits, ring, seen[..start]), CompressedForm(front, bits, |seen| - start, isLast);
    WrittenSoFar(seen, start);
    ReadsCompressed(g, front, windowBits, ring, offset, isLast, trees, codes, bits, [], seen, start, |seen|, after);
    var at := AtEnd(g, windowBits, ring, [], seen, start, |seen|, isLast, trees, after);
    ReadsSound(g, d, offset, all, at);
    ClosedIs(offset, all, isLast);
    LeftIs(windowBits, after, seen, isLast);
    if isLast {
      var padding := seq(Padding(offset + |all|), _ => false);
      EndsHere(g, windowBits, ring, offset + |all|, [], seen, start, |seen|, trees, after);
      ReadsBoth(g, d, offset, all, at, padding, Ended(windowBits, after, seen));
    } else {
      StreamRoundTrip.GoesOn(g, windowBits, ring, offset + |all|, [], seen, start, |seen|, trees, after);
      ReadsBoth(g, d, offset, all, at, [], Between(windowBits, after, seen));
    }
  }

  lemma WrittenSoFar(seen: seq<Byte>, start: nat)
    requires start <= |seen|
    ensures Upto([], seen, start) == seen[..start] && Upto([], seen, |seen|) == seen
  {
  }

  lemma ClosedIs(offset: nat, bits: seq<bool>, isLast: bool)
    ensures Closed(offset, bits, isLast) ==
            if isLast then bits + seq(Padding(offset + |bits|), _ => false) else bits + []
  {
  }

  lemma LeftIs(windowBits: nat, ring: Ring, seen: seq<Byte>, isLast: bool)
    ensures LeftAt(windowBits, ring, seen, isLast) ==
            if isLast then Ended(windowBits, ring, seen) else Between(windowBits, ring, seen)
  {
  }

  /** A chunk more, compressed or stored, with the finder's distances in the decoder. */
  lemma FollowsEmitted(g: Given, windowBits: nat, env: Env, emission: G.Emission, seen: seq<Byte>, f: Finder,
                       written: seq<bool>, isLast: bool)
    requires f.position < |seen| <= f.position + MAX_META_BLOCK_SIZE && Honest(g, windowBits, env, emission)
    requires Follows(g, written, Between(windowBits, f.ring, seen[..f.position]))
    ensures var (next, all) := G.ChunkEmitted(env, emission, seen, f, written, isLast);
            if isLast then Follows(g, Aligned(all), Ended(windowBits, next.ring, seen))
                else Follows(g, all, Between(windowBits, next.ring, seen))
  {
    hide Honest, HonestFor, MakesUp, Reads, Follows, Sound, Admissible, ParseFrom, Executes, RingAtEnd,
         GreedyParse.Parsed, WithStored, StoredBits,
         FinalEmpty, Padding;
    ParseIsTrue(env, seen, f);
    var p := ParseFrom(env, seen, f);
    var start, chunk := f.position, seen[f.position..];
    assert seen[..start] + chunk == seen;
    var smaller := G.Smaller(emission, G.JobOf(seen, start, p.commands, p.insertStart, isLast));
    if smaller.Some? {
      ParseMakesUp(env, seen, f);
      FollowsSound(g, written, Between(windowBits, f.ring, seen[..start]));
      HonestReads(g, windowBits, env, emission, seen, start, p.commands, p.insertStart, f.ring, p.ring, isLast,
                  |written|);
      var bits := smaller.value;
      FollowsFurther(g, written, Between(windowBits, f.ring, seen[..start]), Closed(|written|, bits, isLast),
                     LeftAt(windowBits, p.ring, seen, isLast));
      AlignedIs(written + bits);
      var padding := seq(Padding(|written| + |bits|), _ => false);
      assert written + (bits + padding) == written + bits + padding;
    } else {
      FollowsStored(g, written, windowBits, f.ring, seen[..start], chunk);
      var all := WithStored(written, chunk);
      if isLast {
        FollowsEnd(g, all, windowBits, f.ring, seen);
      } else {
        assert all + [] == all;
      }
    }
  }

  lemma ParseMakesUp(env: Env, seen: seq<Byte>, f: Finder)
    requires f.position < |seen| <= f.position + MAX_META_BLOCK_SIZE
    ensures var p := ParseFrom(env, seen, f); MakesUp(env, seen, f.position, p.commands, p.insertStart, f.ring, p.ring)
  {
    hide ParseFrom, Executes, RingAtEnd, GreedyParse.Parsed;
    ParseIsTrue(env, seen, f);
  }

  lemma HonestReads(g: Given, windowBits: nat, env: Env, emission: G.Emission, seen: seq<Byte>, start: nat,
                    commands: seq<StreamCommand>,
                    insertStart: nat, ring: Ring, after: Ring, isLast: bool, offset: nat)
    requires Honest(g, windowBits, env, emission) && MakesUp(env, seen, start, commands, insertStart, ring, after)
    requires Sound(Between(windowBits, ring, seen[..start]))
    ensures start < |seen| && insertStart <= |seen|
    ensures var emitted := emission(G.JobOf(seen, start, commands, insertStart, isLast));
            emitted.Some? ==>
              Reads(g, Between(windowBits, ring, seen[..start]), offset, Closed(offset, emitted.value, isLast),
                    LeftAt(windowBits, after, seen, isLast))
  {
    hide Reads, Sound, Executes, RingAtEnd;
    assert HonestFor(g, windowBits, emission, seen, start, commands, insertStart, ring, after, isLast, offset);
  }

  lemma {:induction false} FollowsChunks(g: Given, windowBits: nat, env: Env, emission: G.Emission, input: seq<Byte>,
                                         n: nat)
    requires Admissible(g.parser) && 10 <= windowBits <= 24 && Honest(g, windowBits, env, emission)
    requires n * MAX_META_BLOCK_SIZE <= |input|
    ensures var (f, written) := G.EmittedChunks(env, emission, WindowHeader(windowBits), input, n);
            Follows(g, written, Between(windowBits, f.ring, input[..f.position]))
  {
    hide Honest, Follows, Admissible, G.ChunkEmitted, WindowHeader;
    if n == 0 {
      FollowsStart(g, windowBits);
      assert input[..0] == [];
    } else {
      FollowsChunks(g, windowBits, env, emission, input, n - 1);
      var (f, written) := G.EmittedChunks(env, emission, WindowHeader(windowBits), input, n - 1);
      var seen := input[..n * MAX_META_BLOCK_SIZE];
      assert seen[..f.position] == input[..f.position];
      FollowsEmitted(g, windowBits, env, emission, seen, f, written, false);
    }
  }

  /** The stream of an input larger than one metablock leads the decoder to its end with the whole input. */
  lemma StreamFollows(g: Given, windowBits: nat, env: Env, emission: G.Emission, input: seq<Byte>) returns (ring: Ring)
    requires Admissible(g.parser) && 10 <= windowBits <= 24 && Honest(g, windowBits, env, emission) && input != []
    ensures Follows(g, G.StreamBits(env, emission, WindowHeader(windowBits), input), Ended(windowBits, ring, input))
  {
    hide Honest, Follows, Admissible, G.ChunkEmitted, WindowHeader, Aligned, G.EmittedChunks;
    var n := (|input| - 1) / MAX_META_BLOCK_SIZE;
    FollowsChunks(g, windowBits, env, emission, input, n);
    var (f, written) := G.EmittedChunks(env, emission, WindowHeader(windowBits), input, n);
    FollowsEmitted(g, windowBits, env, emission, input, f, written, true);
    ring := G.ChunkEmitted(env, emission, input, f, written, true).0.ring;
  }

  /** Fed in pieces, drained with whatever room there is: the stream is the one made in one call. Decompressed, the
      input comes back, exactly under the limits that let it through. */
  method StreamThenDecompress(env: Env, windowBits: nat, emission: G.Emission, oneShot: seq<Byte> -> seq<Byte>,
                              pieces: seq<(seq<Byte>, nat)>, room: nat, given: Given, limit: nat)
    returns (stream: seq<Byte>, r: Result<seq<Byte>, PublicError>)
    requires 10 <= windowBits <= 24 && env.window == Pow2(windowBits) - WINDOW_GAP && room > 0
    requires MAX_META_BLOCK_SIZE < |G.Fed(pieces)| <= NO_POSITION
    requires Admissible(given.parser) && Honest(given, windowBits, env, emission)
    ensures BitsOf(stream) == G.StreamBits(env, emission, WindowHeader(windowBits), G.Fed(pieces))
    ensures r == Outcome(given, stream, limit)
    ensures forall bound: nat :: Outcome(given, stream, bound) ==
              if |G.Fed(pieces)| <= bound then Ok(G.Fed(pieces)) else Err(OutputLimitExceeded(bound))
  {
    hide WindowHeader, BitsOf, G.StreamBits, Pow2, Honest, Admissible, Follows, Outcome;
    stream := G.EncodeInPieces(env, windowBits, emission, oneShot, pieces, room);
    ghost var ring := StreamFollows(given, windowBits, env, emission, G.Fed(pieces));
    forall bound: nat
      ensures Outcome(given, stream, bound) ==
                if |G.Fed(pieces)| <= bound then Ok(G.Fed(pieces)) else Err(OutputLimitExceeded(bound))
    {
      LimitDecides(given, stream, windowBits, ring, G.Fed(pieces), bound);
    }
    r := Decompress(given, stream, limit);
  }
}
