/** Emission of greedy metablocks (`src/encode/greedy.rs`): each chunk is parsed, and goes out in the single-tree form
    if that is smaller than the stored one; the distances of encoder and decoder stay in step from chunk to chunk. */
module GreedyEmission {
  import opened Arithmetic
  import opened Bytes
  import opened Dictionary
  import opened Distances
  import opened MetablockHeaders
  import opened PrefixEncodings
  import opened CommandStream
  import opened CommandEmission
  import opened MetablockStart
  import opened MatchFinder
  import opened GreedyParse
  import opened MatchIndex
  import opened HashedMatchFinder
  import opened Outcomes

  /** A metablock conveys the end of what has been seen, from `start` on. Compressed, it decodes to that
      after `before` and the bytes ahead of it, and takes the decoder's ring where the encoder's has gone;
      stored, it is those bytes, and neither ring changes. */
  ghost predicate ConveysChunk(form: Emitted, env: Env, before: seq<Byte>, seen: seq<Byte>, start: nat, ring: Ring,
                               after: Ring)
  {
    match form
    case Compressed(codes, front, bits) =>
      DecodableCodes(codes) && IsStart(codes, front) && DecodesTo(env.words, env.window, before, codes, bits, seen,
                                                                  start, |seen|, ring, after)
    case Stored(bytes) => start <= |seen| && bytes == seen[start..] && after == ring
  }

  /** With a whole window already there, what came before it makes no difference. */
  lemma OlderHistory(words: Words, window: nat, before: seq<Byte>, input: seq<Byte>, p: nat, c: StreamCommand)
    requires before == [] || window <= p
    requires Reproduces(words, window, [], input, p, c)
    ensures Reproduces(words, window, before, input, p, c) && ReachAt(|before| + p, window) == ReachAt(p, window)
  {
    hide Transform;
    assert [] + input == input;
    if c.distance <= ReachAt(p, window) {
      var whole := before + input;
      forall k | |before| + p <= k < |before| + p + c.copyLen
        ensures whole[k] == whole[k - c.distance]
      {
        assert input[k - |before|] == input[k - |before| - c.distance];
      }
    }
  }

  lemma {:induction false} ExecutesLater(words: Words, window: nat, before: seq<Byte>, input: seq<Byte>, at: nat,
                                         commands: seq<StreamCommand>,
                                         end: nat, ring: Ring)
    requires before == [] || window <= at
    requires Executes(words, window, [], input, at, commands, end, ring)
    ensures Executes(words, window, before, input, at, commands, end, ring)
    ensures RingAtEnd(ring, |before| + at, commands, window) == RingAtEnd(ring, at, commands, window)
    decreases |commands|
  {
    hide Reproduces, Named, RingAfter, ReachAt;
    if commands != [] && commands[0].copyLen > 0 {
      var c := commands[0];
      var p := at + c.insertLen;
      OlderHistory(words, window, before, input, p, c);
      assert |before| + at + c.insertLen == |before| + p && |before| + (p + c.copyLen) == |before| + p + c.copyLen;
      ExecutesLater(words, window, before, input, p + c.copyLen, commands[1..], end,
                    RingAfter(ring, c, ReachAt(p, window)));
    } else if commands != [] {
      NoCopyRing(ring, |before| + at, at, commands, window);
    }
  }

  lemma NoCopyRing(ring: Ring, a: nat, b: nat, commands: seq<StreamCommand>, window: nat)
    requires |commands| == 1 && commands[0].copyLen == 0
    ensures RingAtEnd(ring, a, commands, window) == RingAtEnd(ring, b, commands, window) == ring
  {
  }

  /** Every distance of a chunk can be written. */
  predicate DistancesWithin(commands: seq<StreamCommand>, limit: nat)
  {
    forall i :: 0 <= i < |commands| ==> commands[i].copyLen > 0 ==>
      2 <= commands[i].copyCode && commands[i].distance < limit
  }

  lemma {:induction false} ExecutesCoded(words: Words, window: nat, input: seq<Byte>, at: nat,
                                         commands: seq<StreamCommand>, end: nat, ring: Ring,
                                         direct: nat, postfix: nat)
    requires Executes(words, window, [], input, at, commands, end, ring) && end - at <= MAX_META_BLOCK_SIZE
    requires DistancesWithin(commands, TooFar(direct, postfix))
    ensures DistancesCoded(commands, direct, postfix)
    decreases |commands|
  {
    hide Named, RingAfter, TooFar, Reproduces, ReachAt;
    if commands != [] {
      var c := commands[0];
      var p := at + c.insertLen;
      if c.copyLen > 0 {
        ExecutesNext(words, window, [], input, at, commands, end, ring);
        ExecutesCoded(words, window, input, p + c.copyLen, commands[1..], end, RingAfter(ring, c, ReachAt(p, window)),
                      direct, postfix);
        CopyCodeFits(words, window, input, p, c);
      }
      forall i | 0 <= i < |commands|
        ensures commands[i].copyLen > 0 ==>
                  2 <= commands[i].copyCode <= MAX_META_BLOCK_SIZE && commands[i].distance < TooFar(direct, postfix)
      {
        if i > 0 {
          assert commands[i] == commands[1..][i - 1];
        }
      }
    }
  }

  lemma CopyCodeFits(words: Words, window: nat, input: seq<Byte>, p: nat, c: StreamCommand)
    requires Reproduces(words, window, [], input, p, c) && c.copyLen <= MAX_META_BLOCK_SIZE
    ensures c.copyCode <= MAX_META_BLOCK_SIZE
  {
    hide TrueCopy, Transform;
    if c.distance > ReachAt(p, window) {
      WordLength(words, c.distance, c.copyCode, ReachAt(p, window));
    }
  }

  /** The distance codes and the search go together: no distance that can be found is too far to be written. */
  predicate DistancesFit(env: Env, direct: nat, postfix: nat)
  {
    && env.window < TooFar(direct, postfix) && env.maxDistance < TooFar(direct, postfix)
    && AlphabetSize(direct, postfix) <= MAX_ALPHABET && HasFields(direct, postfix)
  }

  const MAX_DISTANCE: nat := 0x3ff_fffc

  /** With the configured limits they always do, for fonts and for everything else. */
  lemma ConfiguredDistancesFit(env: Env)
    requires env.maxDistance == MAX_DISTANCE && env.window < 0x100_0000
    ensures DistancesFit(env, 0, 0) && DistancesFit(env, 12, 1)
  {
    Pow2Of24();
    assert Pow2(2) == 4 && Pow2(3) == 8 && Pow2(0) == 1 && Pow2(1) == 2;
    hide Pow2;
    assert Times(0x100_0000 - 1, 4) == 0x3ff_fffc && Times(0x100_0000 - 1, 8) == 0x7ff_fff8;
  }

  lemma ChunkDistances(env: Env, seen: seq<Byte>, start: nat, ring: Ring, p: Parse, direct: nat, postfix: nat,
                       tail: nat)
    requires Parsed(env, seen, start, ring, p) && DistancesFit(env, direct, postfix)
    ensures DistancesWithin(WithTail(p.commands, tail), TooFar(direct, postfix))
  {
    hide Executes, RingAtEnd, TooFar, AlphabetSize;
  }

  /** What a chunk's commands are executed to, and that its streams can be counted and coded. */
  ghost predicate Codable(env: Env, before: seq<Byte>, seen: seq<Byte>, start: nat, commands: seq<StreamCommand>,
                          ring: Ring, after: Ring,
                          direct: nat, postfix: nat)
  {
    && start <= |seen| && Executes(env.words, env.window, before, seen, start, commands, |seen|, ring)
    && RingAtEnd(ring, |before| + start, commands, env.window) == after
    && Placed(seen, start, commands) && AllEmittable(commands, direct, postfix)
    && |LiteralsOf(seen, start, commands)| <= MAX_META_BLOCK_SIZE
    && |SymbolsOf(commands, direct, postfix)| <= MAX_META_BLOCK_SIZE
    && |DistancesOf(commands, direct, postfix)| <= MAX_META_BLOCK_SIZE
    && AllBelow(LiteralsOf(seen, start, commands), LITERAL_ALPHABET_SIZE)
    && AllBelow(SymbolsOf(commands, direct, postfix), COMMAND_ALPHABET_SIZE)
    && AllBelow(DistancesOf(commands, direct, postfix), AlphabetSize(direct, postfix))
  }

  lemma ChunkIsCodable(env: Env, before: seq<Byte>, seen: seq<Byte>, f: Finder, direct: nat, postfix: nat)
    requires f.position <= |seen| <= f.position + MAX_META_BLOCK_SIZE && DistancesFit(env, direct, postfix)
    requires before == [] || env.window <= f.position
    ensures var p := ParseFrom(env, seen, f);
            Codable(env, before, seen, f.position, WithTail(p.commands, |seen| - p.insertStart), f.ring, p.ring, direct,
                    postfix)
  {
    hide *;
    var p := ParseFrom(env, seen, f);
    var commands := WithTail(p.commands, |seen| - p.insertStart);
    ParseIsTrue(env, seen, f);
    ChunkDistances(env, seen, f.position, f.ring, p, direct, postfix, |seen| - p.insertStart);
    ChunkStreams(env, before, seen, f.position, commands, f.ring, p.ring, direct, postfix);
  }

  lemma ChunkStreams(env: Env, before: seq<Byte>, seen: seq<Byte>, start: nat, commands: seq<StreamCommand>, ring: Ring,
                     after: Ring,
                     direct: nat, postfix: nat)
    requires start <= |seen| <= start + MAX_META_BLOCK_SIZE && (before == [] || env.window <= start)
    requires Executes(env.words, env.window, [], seen, start, commands, |seen|, ring)
    requires RingAtEnd(ring, start, commands, env.window) == after && DistancesWithin(commands, TooFar(direct, postfix))
    ensures Codable(env, before, seen, start, commands, ring, after, direct, postfix)
  {
    hide Executes, RingAtEnd, DistancesWithin, DistancesCoded, TooFar, Placed, AllEmittable, AllBelow, LiteralsOf,
         SymbolsOf, DistancesOf,
         AlphabetSize;
    ExecutesCoded(env.words, env.window, seen, start, commands, |seen|, ring, direct, postfix);
    ExecutesPlaced(env.words, env.window, [], seen, start, commands, |seen|, ring, direct, postfix);
    ExecutesLater(env.words, env.window, before, seen, start, commands, |seen|, ring);
  }

  /** The form of a chunk: stored if the parse finds no copies, and otherwise the better of the two for its commands. */
  ghost predicate ChosenForm(form: Emitted, env: Env, seen: seq<Byte>, f: Finder, direct: nat, postfix: nat,
                             isLast: bool)
    requires f.position < |seen| <= f.position + MAX_META_BLOCK_SIZE
  {
    var p := ParseFrom(env, seen, f);
    if p.commands == [] then form == Stored(seen[f.position..])
    else
      BetterForm(form, seen, f.position, |seen|, WithTail(p.commands, |seen| - p.insertStart), direct, postfix, isLast)
  }

  /** The finder behind a chunk; if the chunk is stored, its ring goes back to where it was. */
  function FinderAfter(env: Env, seen: seq<Byte>, f: Finder, form: Emitted): Finder
    requires f.position < |seen| <= f.position + MAX_META_BLOCK_SIZE
  {
    var next := After(seen, ParseFrom(env, seen, f));
    if form.Stored? then next.(ring := f.ring) else next
  }

  /** Parses the next chunk, and chooses the smaller form. If that is the stored one, the ring goes back to
      where it was before the chunk. */
  method EmitChunk(ghost before: seq<Byte>, window: seq<Byte>, finder: StreamingMatchFinder, direct: nat, postfix: nat,
                   isLast: bool)
    returns (form: Emitted, chunkEnd: nat)
    requires finder.Valid() && finder.position < |window| && Tidy(finder.View().core.ix, finder.position)
    requires Min(finder.position + MAX_META_BLOCK_SIZE, |window|) <= NO_POSITION
    requires DistancesFit(finder.env, direct, postfix) && (before == [] || finder.env.window <= finder.position)
    modifies finder.Repr()
    ensures finder.Valid() && chunkEnd == finder.position == Min(old(finder.position) + MAX_META_BLOCK_SIZE, |window|)
    ensures Tidy(finder.View().core.ix, finder.position)
    ensures ConveysChunk(form, finder.env, before, window[..chunkEnd], old(finder.position),
                         old(finder.recentDistances.ring),
                         finder.recentDistances.ring)
    ensures form.Compressed? ==>
              |CompressedForm(form.start, form.bits, chunkEnd - old(finder.position),
                              isLast)| < StoredBits(chunkEnd - old(finder.position))
    ensures ChosenForm(form, finder.env, window[..chunkEnd], old(finder.View()), direct, postfix, isLast)
    ensures finder.View() == FinderAfter(finder.env, window[..chunkEnd], old(finder.View()), form)
  {
    hide Tidy, ParseFrom, StoredBits, ConveysChunk, DecodesTo, Codable, BetterForm, CompressedForm;
    var chunkStart := finder.position;
    chunkEnd := Min(chunkStart + MAX_META_BLOCK_SIZE, |window|);
    var seen := window[..chunkEnd];
    var snapshot := finder.recentDistances.ring;
    ghost var f := finder.View();
    ParseTidy(finder.env, seen, f);
    ChunkIsCodable(finder.env, before, seen, f, direct, postfix);
    var commands, tailStart := finder.ParseChunk(seen);
    if commands != [] {
      var all := WithTail(commands, |seen| - tailStart);
      var compressed := CompressChunk(finder.env, before, seen, chunkStart, all, snapshot, finder.recentDistances.ring,
                                      direct, postfix, isLast);
      if compressed.Some? {
        form := compressed.value;
        return;
      }
    }
    finder.RestoreDistances(snapshot);
    form := Stored(seen[chunkStart..]);
    StoredConveys(finder.env, before, seen, chunkStart, snapshot);
  }

  lemma StoredConveys(env: Env, before: seq<Byte>, seen: seq<Byte>, start: nat, ring: Ring)
    requires start <= |seen|
    ensures ConveysChunk(Stored(seen[start..]), env, before, seen, start, ring, ring)
  {
  }

  /** The single-tree form, if its computed size is less than that of the stored form. */
  method CompressChunk(ghost env: Env, ghost before: seq<Byte>, seen: seq<Byte>, start: nat,
                       commands: seq<StreamCommand>, ghost ring: Ring,
                       ghost after: Ring, direct: nat, postfix: nat, isLast: bool)
    returns (form: Option<Emitted>)
    requires Codable(env, before, seen, start, commands, ring, after, direct, postfix) &&
             AlphabetSize(direct, postfix) <= MAX_ALPHABET
    requires HasFields(direct, postfix) && start < |seen| <= start + MAX_META_BLOCK_SIZE
    ensures form.Some? ==>
              && form.value.Compressed? && ConveysChunk(form.value, env, before, seen, start, ring, after)
              && |CompressedForm(form.value.start, form.value.bits, |seen| - start,
                                 isLast)| < StoredBits(|seen| - start)
    ensures BetterForm(if form.Some? then form.value else Stored(seen[start..]), seen, start, |seen|, commands, direct,
                       postfix, isLast)
  {
    hide Executes, RingAtEnd, AllEmittable, Placed, AllBelow, AlphabetSize, Counts, SuitsStreams, Writable, BodyBits,
         StoredBits,
         DecodesTo, HasFields, LiteralsOf, SymbolsOf, DistancesOf, Sized, StreamsBelow, EncodesAll, Encodings.Lengths,
           DecodableCodes, IsStart, CompressedForm, CodesMade, BetterForm;
    var t := FreshTables(direct, postfix);
    var encoded := CountCommands(seen, start, commands, direct, postfix, t);
    ghost var st := StreamsOf(seen, start, commands, direct, postfix);
    CodableStreams(t, st, direct, postfix);
    var e := MakeCodes(t, st, direct, postfix);
    AllCodesWrite(e, t, seen, start, commands);
    var front := WriteStart(e, Streams(t.literals[..], t.symbols[..], t.distances[..]));
    var size := SingleBodyBits(e, t, encoded, |CompressedHeader(|seen| - start, isLast) + front|, seen, start,
                               commands);
    SingleTreeIsBetter(e, front, seen, start, |seen|, commands, isLast);
    FormLength(front, BodyBits(e.Lengths(), seen, start, commands), |seen| - start, isLast);
    assert seen[start..|seen|] == seen[start..];
    if size >= StoredBits(|seen| - start) {
      return None;
    }
    var bits := WriteCommands(e, Streams(t.literals[..], t.symbols[..], t.distances[..]), seen, start, commands,
                              encoded);
    BodyDecodes(env.words, env.window, before, e.Lengths(), seen, start, |seen|, commands, ring);
    form := Some(Compressed(e.Lengths(), front, bits));
  }

  lemma FormLength(front: seq<bool>, bits: seq<bool>, length: nat, isLast: bool)
    requires 0 < length <= MAX_META_BLOCK_SIZE
    ensures |CompressedForm(front, bits, length, isLast)| == |CompressedHeader(length, isLast) + front| + |bits|
  {
    hide CompressedHeader;
  }

  lemma CodableStreams(t: Counters, st: Streams, direct: nat, postfix: nat)
    requires Sized(t, direct, postfix)
    requires |st.literals| <= MAX_META_BLOCK_SIZE && |st.symbols| <= MAX_META_BLOCK_SIZE &&
             |st.distances| <= MAX_META_BLOCK_SIZE
    requires AllBelow(st.literals, LITERAL_ALPHABET_SIZE) && AllBelow(st.symbols, COMMAND_ALPHABET_SIZE)
    requires AllBelow(st.distances, AlphabetSize(direct, postfix))
    ensures StreamsBelow(t, st)
  {
    hide AllBelow, AlphabetSize;
  }

  lemma AllCodesWrite(e: Encodings, t: Counters, seen: seq<Byte>, start: nat, commands: seq<StreamCommand>)
    requires Placed(seen, start, commands) && AllEmittable(commands, e.direct, e.postfix)
    requires SuitsStreams(e, t, StreamsOf(seen, start, commands, e.direct, e.postfix))
    requires Sized(t, e.direct, e.postfix) && HasFields(e.direct, e.postfix)
    ensures Writable(e.Lengths(), seen, start, commands) && DecodableCodes(e.Lengths())
    ensures EncodesAll(e, Streams(t.literals[..], t.symbols[..], t.distances[..]))
  {
    hide Encodes, LengthsOf, Decodable, Writable, Placed, AllEmittable, AllHaveCodes, StreamsOf, DecodableCodes, Sized,
         HasFields;
    AllWritable(e, t, seen, start, commands);
    CodesAreDecodable(e, t, StreamsOf(seen, start, commands, e.direct, e.postfix));
  }

  /** One of the metablocks conveys what lies between the end of the one before it and its own, and is
      compressed only if that makes it smaller. */
  ghost predicate Conveyed(chunk: Chunk, start: nat, env: Env, input: seq<Byte>, ring: Ring, after: Ring)
  {
    && start < chunk.end <= |input| && chunk.end <= start + MAX_META_BLOCK_SIZE
    && ConveysChunk(chunk.form, env, [], input[..chunk.end], start, ring, after)
    && (chunk.form.Compressed? ==>
          |CompressedForm(chunk.form.start, chunk.form.bits, chunk.end - start,
                          chunk.end == |input|)| < StoredBits(chunk.end - start))
  }

  /** Each metablock conveys its chunk, from the ring at its start to the ring at its end, which is the
      ring the next one starts with. */
  ghost predicate ConveysChunks(chunks: seq<Chunk>, env: Env, input: seq<Byte>, rings: seq<Ring>)
  {
    && |rings| == |chunks| + 1
    && forall i :: 0 <= i < |chunks| ==> Conveyed(chunks[i], ChunkStart(chunks, i), env, input, rings[i], rings[i + 1])
  }

  /** A chunk is a whole metablock or all that is left, in the form chosen for it. */
  ghost predicate ChosenChunk(chunk: Chunk, env: Env, input: seq<Byte>, f: Finder, next: Finder, direct: nat,
                              postfix: nat)
  {
    && f.position < chunk.end == Min(f.position + MAX_META_BLOCK_SIZE, |input|)
    && ChosenForm(chunk.form, env, input[..chunk.end], f, direct, postfix, chunk.end == |input|)
    && next == FinderAfter(env, input[..chunk.end], f, chunk.form)
  }

  /** Chunk after chunk in the form chosen for it, by a finder that starts with nothing. */
  ghost predicate ChosenChunks(chunks: seq<Chunk>, env: Env, input: seq<Byte>, finders: seq<Finder>, direct: nat,
                               postfix: nat)
  {
    && |finders| == |chunks| + 1 && finders[0] == FreshFinder(finders[0].core.ix) && Tidy(finders[0].core.ix, 0)
    && forall i :: 0 <= i < |chunks| ==>
         ChosenChunk(chunks[i], env, input, finders[i], finders[i + 1], direct, postfix)
  }

  lemma OneMoreChosen(chunks: seq<Chunk>, env: Env, input: seq<Byte>, finders: seq<Finder>, direct: nat, postfix: nat,
                      next: Chunk, after: Finder)
    requires ChosenChunks(chunks, env, input, finders, direct, postfix)
    requires ChosenChunk(next, env, input, finders[|chunks|], after, direct, postfix)
    ensures ChosenChunks(chunks + [next], env, input, finders + [after], direct, postfix)
  {
    hide ChosenChunk, Tidy, FreshFinder;
    var all, states := chunks + [next], finders + [after];
    forall i | 0 <= i < |all|
      ensures ChosenChunk(all[i], env, input, states[i], states[i + 1], direct, postfix)
    {
      if i < |chunks| {
        assert all[i] == chunks[i] && states[i] == finders[i] && states[i + 1] == finders[i + 1];
      }
    }
  }

  lemma NoneChosenYet(env: Env, input: seq<Byte>, f: Finder, direct: nat, postfix: nat)
    requires f == FreshFinder(f.core.ix) && Tidy(f.core.ix, 0)
    ensures ChosenChunks([], env, input, [f], direct, postfix)
  {
    hide ChosenChunk, Tidy, FreshFinder;
  }

  lemma OneMoreChunk(chunks: seq<Chunk>, env: Env, input: seq<Byte>, rings: seq<Ring>, next: Chunk, after: Ring)
    requires ConveysChunks(chunks, env, input, rings)
    requires Conveyed(next, ChunkStart(chunks, |chunks|), env, input, rings[|chunks|], after)
    ensures ConveysChunks(chunks + [next], env, input, rings + [after])
  {
    hide Conveyed;
    var all := chunks + [next];
    forall i | 0 <= i < |all|
      ensures Conveyed(all[i], ChunkStart(all, i), env, input, (rings + [after])[i], (rings + [after])[i + 1])
    {
      if i < |chunks| {
        assert ChunkStart(all, i) == ChunkStart(chunks, i) && all[i] == chunks[i];
      }
    }
  }

  lemma NoChunkYet(env: Env, input: seq<Byte>, ring: Ring)
    ensures ConveysChunks([], env, input, [ring])
  {
    hide Conveyed;
  }

  /** Chunk after chunk, the metablocks convey the whole input, starting from the decoder's first ring; the
      finder's ring is the decoder's at every boundary, whichever chunks are stored. */
  method EmitStream(env: Env, input: seq<Byte>, direct: nat, postfix: nat)
    returns (chunks: seq<Chunk>, ghost rings: seq<Ring>, ghost finders: seq<Finder>)
    requires |input| <= NO_POSITION && DistancesFit(env, direct, postfix)
    ensures ConveysChunks(chunks, env, input, rings) && rings[0] == InitialRing() &&
            ChunkStart(chunks, |chunks|) == |input|
    ensures ChosenChunks(chunks, env, input, finders, direct, postfix)
  {
    hide Tidy, ConveysChunk, ConveysChunks, StoredBits, DistancesFit, ChosenForm, ChosenChunks, FinderAfter,
         CompressedForm, FreshFinder, HashedMatchFinder.StreamingMatchFinder.Valid;
    var finder := new StreamingMatchFinder(env);
    chunks, rings, finders := [], [finder.recentDistances.ring], [finder.View()];
    NoChunkYet(env, input, finder.recentDistances.ring);
    NoneChosenYet(env, input, finder.View(), direct, postfix);
    FreshPlace(finder.View());
    var start := 0;
    while start < |input|
      invariant finder.Valid() && fresh(finder.Repr()) && finder.env == env &&
                start == finder.position == ChunkStart(chunks, |chunks|) <= |input|
      invariant Tidy(finder.View().core.ix, finder.position)
      invariant ConveysChunks(chunks, env, input, rings) && ChosenChunks(chunks, env, input, finders, direct, postfix)
      invariant |rings| == |chunks| + 1 && rings[0] == InitialRing() && rings[|chunks|] == finder.recentDistances.ring
      invariant |finders| == |chunks| + 1 && finders[|chunks|] == finder.View()
      decreases |input| - start
    {
      var isLast := start + MAX_META_BLOCK_SIZE >= |input|;
      var form, end := EmitChunk([], input, finder, direct, postfix, isLast);
      assert isLast == (end == |input|);
      OneMoreChunk(chunks, env, input, rings, Chunk(end, form), finder.recentDistances.ring);
      OneMoreChosen(chunks, env, input, finders, direct, postfix, Chunk(end, form), finder.View());
      chunks, rings, start := chunks + [Chunk(end, form)], rings + [finder.recentDistances.ring], end;
      finders := finders + [finder.View()];
    }
  }

  lemma FreshPlace(f: Finder)
    requires f == FreshFinder(f.core.ix)
    ensures f.position == 0 && f.ring == InitialRing()
  {
  }
}
