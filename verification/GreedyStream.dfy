/** Greedy streams (`src/encode/greedy.rs`, `src/encode/stream.rs`): a chunk a metablock, compressed or stored, and the
    incremental encoder, whose output is the same however its input arrives and its output is taken, although it
    forgets all but one window. What a chunk is compressed to is a given function of what the encoder looks at. */
module GreedyStream {
  import opened Arithmetic
  import opened Bytes
  import opened HistoryRing
  import opened CommandStream
  import opened MatchFinder
  import opened BitStream
  import opened BitPacking
  import opened MetablockHeaders
  import opened GreedyParse
  import opened MatchIndex
  import opened MatchCompaction
  import opened HashedMatchFinder
  import opened Outcomes

  /** What a compressed metablock is made from: the two bytes before the chunk, its bytes, its commands,
      the literals behind them, and whether it is the last. */
  datatype Job = Job(last: Byte, secondLast: Byte, chunk: seq<Byte>, commands: seq<StreamCommand>, tail: nat,
                     isLast: bool)

  /** The smaller of the two compressed forms, if the codes can be built. */
  type Emission = Job -> Option<seq<bool>>

  function JobOf(seen: seq<Byte>, start: nat, commands: seq<StreamCommand>, insertStart: nat, isLast: bool): Job
    requires start <= |seen| && insertStart <= |seen|
  {
    Job(LastByte(seen[..start], 0), LastByte(seen[..start], 1), seen[start..], commands, |seen| - insertStart, isLast)
  }

  /** The compressed form of a chunk, if there is one and it is smaller than the stored form. */
  function Smaller(emission: Emission, job: Job): Option<seq<bool>>
  {
    if job.commands == [] then None
    else
      match emission(job)
      case Some(bits) => if |bits| < StoredBits(|job.chunk|) then Some(bits) else None
      case None => None
  }

  /** One chunk: what is written, and the finder after it. If the chunk is stored, the finder's ring goes
      back to what it was. */
  function ChunkEmitted(env: Env, emission: Emission, seen: seq<Byte>, f: Finder, written: seq<bool>,
                        isLast: bool): (r: (Finder, seq<bool>))
    requires f.position < |seen| <= f.position + MAX_META_BLOCK_SIZE
    ensures r.0.position == |seen|
  {
    var p := ParseFrom(env, seen, f);
    var next, chunk := After(seen, p), seen[f.position..];
    match Smaller(emission, JobOf(seen, f.position, p.commands, p.insertStart, isLast))
    case Some(bits) => (next, written + bits)
    case None => (next.(ring := f.ring), WithStored(written, chunk) + if isLast then FinalEmpty() else [])
  }

  /** Finder and output after the first `n` chunks, none of them the last. */
  function EmittedChunks(env: Env, emission: Emission, header: seq<bool>, input: seq<Byte>,
                         n: nat): (r: (Finder, seq<bool>))
    requires n * MAX_META_BLOCK_SIZE <= |input|
    ensures r.0.position == n * MAX_META_BLOCK_SIZE
  {
    if n == 0 then (FreshFinder(BlankIndex()), header)
    else
      var (f, written) := EmittedChunks(env, emission, header, input, n - 1);
      ChunkEmitted(env, emission, input[..n * MAX_META_BLOCK_SIZE], f, written, false)
  }

  /** The whole stream: full chunks, a last one that is not empty, and zeros up to a byte. */
  function StreamBits(env: Env, emission: Emission, header: seq<bool>, input: seq<Byte>): (r: seq<bool>)
    requires input != []
    ensures |r| % 8 == 0
  {
    var n := (|input| - 1) / MAX_META_BLOCK_SIZE;
    var (f, written) := EmittedChunks(env, emission, header, input, n);
    Aligned(ChunkEmitted(env, emission, input, f, written, true).1)
  }

  /** What has been emitted depends on no later input. */
  lemma {:induction false} EmittedEarlier(env: Env, emission: Emission, header: seq<bool>, input: seq<Byte>,
                                          more: seq<Byte>, n: nat)
    requires n * MAX_META_BLOCK_SIZE <= |input|
    ensures EmittedChunks(env, emission, header, input + more, n) == EmittedChunks(env, emission, header, input, n)
  {
    hide ChunkEmitted;
    if n > 0 {
      EmittedEarlier(env, emission, header, input, more, n - 1);
      assert (input + more)[..n * MAX_META_BLOCK_SIZE] == input[..n * MAX_META_BLOCK_SIZE];
    }
  }

  lemma {:induction false} EmittedTidy(env: Env, emission: Emission, header: seq<bool>, input: seq<Byte>, n: nat)
    requires n * MAX_META_BLOCK_SIZE <= |input| <= NO_POSITION
    ensures var f := EmittedChunks(env, emission, header, input, n).0; Tidy(f.core.ix, f.position)
  {
    hide Tidy, ParseFrom, Smaller, StoredBits, WithStored;
    if n == 0 {
      BlankIsTidy();
    } else {
      EmittedTidy(env, emission, header, input, n - 1);
      var f := EmittedChunks(env, emission, header, input, n - 1).0;
      ParseTidy(env, input[..n * MAX_META_BLOCK_SIZE], f);
    }
  }

  lemma BlankIsTidy()
    ensures Tidy(BlankIndex(), 0)
  {
    FreshIsTidy(BlankIndex(), 0);
  }

  /** A chunk is emitted the same by a finder that has been compacted, as long as the window is kept. */
  lemma SameChunk(env: Env, emission: Emission, seen: seq<Byte>, dropped: nat, full: Finder, kept: Finder,
                  written: seq<bool>, isLast: bool)
    requires full.position < |seen| <= full.position + MAX_META_BLOCK_SIZE && |seen| <= NO_POSITION &&
             Tidy(full.core.ix, full.position)
    requires FinderShadows(full, kept, dropped) && KeepsWindow(env.window, full.position, dropped) && env.window >= 2
    ensures var (f, a) := ChunkEmitted(env, emission, seen, full, written, isLast);
            var (k, b) := ChunkEmitted(env, emission, seen[dropped..], kept, written, isLast);
            FinderShadows(f, k, dropped) && a == b
  {
    hide Tidy, ParseFrom, Smaller, StoredBits, WithStored, CoreShadows, SkipKept;
    SameParse(env, seen, dropped, full, kept);
    var p, q := ParseFrom(env, seen, full), ParseFrom(env, seen[dropped..], kept);
    assert seen[dropped..][kept.position..] == seen[full.position..];
    assert seen[dropped..][..kept.position] == seen[..full.position][dropped..];
    assert JobOf(seen[dropped..], kept.position, q.commands, q.insertStart, isLast) ==
           JobOf(seen, full.position, p.commands, p.insertStart, isLast);
  }

  /** Emits the next chunk of the window with the finder's index and ring; if the stored form is chosen,
      the ring is restored. */
  method EmitChunk(window: seq<Byte>, finder: StreamingMatchFinder, writer: BitWriter, emission: Emission, isLast: bool)
    returns (chunkEnd: nat)
    requires finder.Valid() && writer.Valid() && writer !in finder.Repr() && finder.position < |window|
    requires Min(finder.position + MAX_META_BLOCK_SIZE, |window|) <= NO_POSITION &&
             Tidy(finder.View().core.ix, finder.position)
    modifies finder.Repr(), writer
    ensures finder.Valid() && writer.Valid() && chunkEnd == Min(old(finder.position) + MAX_META_BLOCK_SIZE, |window|)
    ensures (finder.View(), writer.Bits()) ==
            ChunkEmitted(finder.env, emission, window[..chunkEnd], old(finder.View()), old(writer.Bits()), isLast)
    ensures Tidy(finder.View().core.ix, finder.position)
  {
    hide Tidy, ParseFrom, StoredBits, WithStored;
    var chunkStart := finder.position;
    chunkEnd := Min(chunkStart + MAX_META_BLOCK_SIZE, |window|);
    var snapshot := finder.recentDistances.ring;
    ghost var before := finder.View();
    ParseTidy(finder.env, window[..chunkEnd], before);
    var commands, tailStart := finder.ParseChunk(window[..chunkEnd]);
    var chosen := Smaller(emission, JobOf(window[..chunkEnd], chunkStart, commands, tailStart, isLast));
    match chosen {
      case Some(bits) =>
        var scratch := WriterOf(bits);
        writer.AppendWriter(scratch);
      case None =>
        finder.RestoreDistances(snapshot);
        assert window[..chunkEnd][chunkStart..] == window[chunkStart..chunkEnd];
        WriteUncompressedMetablock(writer, window[chunkStart..chunkEnd]);
        if isLast {
          WriteFinalEmptyMetablock(writer);
        } else {
          assert writer.Bits() + [] == writer.Bits();
        }
    }
  }

  /** The next chunk of what has been fed, whatever the finder has forgotten. */
  lemma NextChunk(env: Env, emission: Emission, header: seq<bool>, fed: seq<Byte>, end: nat, chunks: nat, dropped: nat,
                  kept: Finder,
                  isLast: bool)
    requires chunks * MAX_META_BLOCK_SIZE < end <= (chunks + 1) * MAX_META_BLOCK_SIZE && end <= |fed| &&
             end <= NO_POSITION
    requires FinderShadows(EmittedChunks(env, emission, header, fed, chunks).0, kept, dropped)
    requires KeepsWindow(env.window, chunks * MAX_META_BLOCK_SIZE, dropped) && env.window >= 2
    ensures var (full, written) := EmittedChunks(env, emission, header, fed, chunks);
            var (f, a) := ChunkEmitted(env, emission, fed[..end], full, written, isLast);
            var (k, b) := ChunkEmitted(env, emission, fed[dropped..end], kept, written, isLast);
            FinderShadows(f, k, dropped) && a == b && Tidy(f.core.ix, f.position)
  {
    hide Tidy, FinderShadows, KeepsWindow, ParseFrom, Smaller, StoredBits, WithStored;
    var (full, written) := EmittedChunks(env, emission, header, fed, chunks);
    EmittedSoFar(env, emission, header, fed, end, chunks);
    EmittedTidy(env, emission, header, fed[..end], chunks);
    SameChunk(env, emission, fed[..end], dropped, full, kept, written, isLast);
    assert fed[..end][dropped..] == fed[dropped..end] by {
      assert dropped <= full.position by {
        ShadowsBehind(full, kept, dropped);
      }
    }
    ParseTidy(env, fed[..end], full);
  }

  lemma ShadowsBehind(full: Finder, kept: Finder, dropped: nat)
    requires FinderShadows(full, kept, dropped)
    ensures dropped <= full.position && kept.position == full.position - dropped
  {
  }

  lemma EmittedSoFar(env: Env, emission: Emission, header: seq<bool>, fed: seq<Byte>, end: nat, chunks: nat)
    requires chunks * MAX_META_BLOCK_SIZE <= end <= |fed|
    ensures EmittedChunks(env, emission, header, fed[..end], chunks) ==
            EmittedChunks(env, emission, header, fed, chunks)
  {
    hide EmittedChunks;
    EmittedEarlier(env, emission, header, fed[..end], fed[end..], chunks);
    assert fed[..end] + fed[end..] == fed;
  }

  /** The stream of an input larger than one metablock, in one call. */
  method TryCompressStream(env: Env, windowBits: nat, emission: Emission, input: seq<Byte>)
    returns (stream: Option<seq<Byte>>)
    requires 10 <= windowBits <= 24 && env.window >= 2 && |input| <= NO_POSITION
    ensures stream.Some? <==> |input| > MAX_META_BLOCK_SIZE
    ensures stream.Some? ==> BitsOf(stream.value) == StreamBits(env, emission, WindowHeader(windowBits), input)
  {
    hide Tidy, FinderShadows, ChunkEmitted, Lsb, BitsOf, WindowHeader, Padding;
    if |input| <= MAX_META_BLOCK_SIZE {
      return None;
    }
    var finder := new StreamingMatchFinder(env);
    var writer := new BitWriter();
    WriteWindowBits(writer, windowBits);
    ghost var header, chunks := WindowHeader(windowBits), 0;
    assert writer.Bits() == header;
    var chunkStart := 0;
    while chunkStart < |input|
      invariant finder.Valid() && finder.env == env && writer.Valid() && writer !in finder.Repr() &&
                fresh(finder.Repr()) && fresh(writer)
      invariant chunkStart == finder.position && Tidy(finder.View().core.ix, finder.position)
      invariant chunkStart < |input| ==>
                  && chunkStart == chunks * MAX_META_BLOCK_SIZE
                  && FinderShadows(EmittedChunks(env, emission, header, input, chunks).0, finder.View(), 0)
                  && writer.Bits() == EmittedChunks(env, emission, header, input, chunks).1
      invariant chunkStart >= |input| ==> Aligned(writer.Bits()) == StreamBits(env, emission, header, input)
      decreases |input| - chunkStart
    {
      var isLast := chunkStart + MAX_META_BLOCK_SIZE >= |input|;
      ghost var end := Min(chunkStart + MAX_META_BLOCK_SIZE, |input|);
      NextChunk(env, emission, header, input, end, chunks, 0, finder.View(), isLast);
      assert input[0..end] == input[..end] && (isLast ==> input[..end] == input);
      chunkStart := EmitChunk(input, finder, writer, emission, isLast);
      if isLast {
        assert chunks == (|input| - 1) / MAX_META_BLOCK_SIZE;
      }
      chunks := chunks + 1;
    }
    writer.AlignToByte();
    stream := Some(writer.bytes);
    NoWord(writer.pending);
    assert writer.Bits() == BitsOf(writer.bytes);
  }

  datatype EncodeStatus = NeedInput | NeedOutput | Done

  /** Finder and output are those of an encoder that has forgotten nothing. */
  ghost predicate Agrees(env: Env, emission: Emission, header: seq<bool>, fed: seq<Byte>, dropped: nat, chunks: nat,
                         finder: Finder,
                         sent: seq<bool>)
    requires chunks * MAX_META_BLOCK_SIZE <= |fed|
  {
    |fed| <= NO_POSITION ==>
      && FinderShadows(EmittedChunks(env, emission, header, fed, chunks).0, finder, dropped)
      && KeepsWindow(env.window, chunks * MAX_META_BLOCK_SIZE, dropped)
      && sent == if chunks == 0 then [] else EmittedChunks(env, emission, header, fed, chunks).1
  }

  /** The window is the end of what has been fed, and has been kept short. */
  ghost predicate Windowed(reach: nat, fed: seq<Byte>, window: seq<Byte>, chunks: nat, finder: Finder)
  {
    && |window| <= |fed| && window == fed[|fed| - |window|..] && chunks * MAX_META_BLOCK_SIZE <= |fed|
    && finder.position == chunks * MAX_META_BLOCK_SIZE - (|fed| - |window|)
    && finder.position <= reach && Tidy(finder.core.ix, finder.position)
  }

  /** An encoder between calls, seen from outside. */
  ghost predicate Tracks(env: Env, emission: Emission, header: seq<bool>, fed: seq<Byte>, window: seq<Byte>,
                         chunks: nat, finder: Finder,
                         sent: seq<bool>)
  {
    Windowed(env.window, fed, window, chunks, finder) && Agrees(env, emission, header, fed, |fed| - |window|, chunks,
                                                                finder, sent)
  }

  lemma TracksStart(env: Env, emission: Emission, header: seq<bool>, finder: Finder)
    requires FinderShadows(FreshFinder(BlankIndex()), finder, 0) && finder.position == 0 && Tidy(finder.core.ix, 0)
    ensures Tracks(env, emission, header, [], [], 0, finder, [])
  {
    hide FinderShadows, Tidy;
  }

  /** More input. */
  lemma TracksMore(env: Env, emission: Emission, header: seq<bool>, fed: seq<Byte>, window: seq<Byte>, chunks: nat,
                   finder: Finder,
                   sent: seq<bool>, more: seq<Byte>)
    requires Tracks(env, emission, header, fed, window, chunks, finder, sent)
    ensures Tracks(env, emission, header, fed + more, window + more, chunks, finder, sent)
  {
    hide EmittedChunks, FinderShadows, Tidy, KeepsWindow;
    EmittedEarlier(env, emission, header, fed, more, chunks);
    assert |fed + more| - |window + more| == |fed| - |window|;
    assert (fed + more)[|fed| - |window|..] == window + more;
  }

  /** The finder after a chunk, and the part of the window that stays. */
  ghost predicate Moved(env: Env, emission: Emission, window: seq<Byte>, end: nat, finder: Finder, before: seq<bool>,
                        isLast: bool,
                        window': seq<Byte>, finder': Finder, after: seq<bool>)
    requires finder.position < end <= |window| && end <= finder.position + MAX_META_BLOCK_SIZE
  {
    var (next, bits) := ChunkEmitted(env, emission, window[..end], finder, before, isLast);
    var dropped := Saturating(end, env.window);
    && window' == window[dropped..] && finder' == (if dropped > 0 then Compacted(next, dropped) else next)
    && after == bits
    && Tidy(finder'.core.ix, finder'.position)
  }

  /** Whole bytes in front change nothing. */
  lemma ChunkBehind(env: Env, emission: Emission, seen: seq<Byte>, f: Finder, front: seq<bool>, written: seq<bool>,
                    isLast: bool)
    requires f.position < |seen| <= f.position + MAX_META_BLOCK_SIZE && |front| % 8 == 0
    ensures ChunkEmitted(env, emission, seen, f, front + written, isLast).0 ==
            ChunkEmitted(env, emission, seen, f, written, isLast).0
    ensures ChunkEmitted(env, emission, seen, f, front + written, isLast).1 == front +
            ChunkEmitted(env, emission, seen, f, written, isLast).1
  {
    hide ParseFrom, Smaller, StoredBits, WithStored;
    var p, chunk := ParseFrom(env, seen, f), seen[f.position..];
    match Smaller(emission, JobOf(seen, f.position, p.commands, p.insertStart, isLast))
    case Some(bits) => assert (front + written) + bits == front + (written + bits);
    case None =>
      StoredBehind(front, written, chunk);
      var last := if isLast then FinalEmpty() else [];
      assert (front + WithStored(written, chunk)) + last == front + (WithStored(written, chunk) + last);
  }

  lemma StoredBehind(front: seq<bool>, written: seq<bool>, bytes: seq<Byte>)
    requires 0 < |bytes| <= MAX_META_BLOCK_SIZE && |front| % 8 == 0
    ensures WithStored(front + written, bytes) == front + WithStored(written, bytes)
  {
    hide StoredHeader, BitsOf;
    var header := StoredHeader(|bytes|);
    AlignedBehind(front, written + header);
    assert (front + written) + header == front + (written + header);
    assert (front + Aligned(written + header)) + BitsOf(bytes) == front + (Aligned(written + header) + BitsOf(bytes));
  }

  lemma AlignedBehind(front: seq<bool>, bits: seq<bool>)
    requires |front| % 8 == 0
    ensures Aligned(front + bits) == front + Aligned(bits)
  {
    assert Padding(|front + bits|) == Padding(|bits|);
  }

  /** A full chunk goes out, and the window moves on. */
  lemma TracksChunk(env: Env, emission: Emission, header: seq<bool>, fed: seq<Byte>, window: seq<Byte>, chunks: nat,
                    finder: Finder,
                    sent: seq<bool>, window': seq<Byte>, finder': Finder, sent': seq<bool>)
    requires 4 * RANDOM_HEURISTICS_WINDOW < env.window < MAX_META_BLOCK_SIZE
    requires Tracks(env, emission, header, fed, window, chunks, finder, sent) &&
             (chunks + 1) * MAX_META_BLOCK_SIZE <= |fed|
    requires Moved(env, emission, window, finder.position + MAX_META_BLOCK_SIZE, finder, if chunks == 0 then header
                   else sent, false,
                   window', finder', sent')
    ensures Tracks(env, emission, header, fed, window', chunks + 1, finder', sent')
  {
    hide FinderShadows, Tidy, ChunkEmitted, Compacted;
    var dropped, end := |fed| - |window|, (chunks + 1) * MAX_META_BLOCK_SIZE;
    var more := Saturating(end - dropped, env.window);
    var (next, bits) := ChunkEmitted(env, emission, window[..end - dropped], finder, if chunks == 0 then header
                                     else sent, false);
    assert window[more..] == fed[dropped + more..];
    MovedPosition(next, more, env.window);
    if |fed| <= NO_POSITION {
      NextChunk(env, emission, header, fed, end, chunks, dropped, finder, false);
      assert fed[dropped..end] == window[..end - dropped];
      MovedOn(env, EmittedChunks(env, emission, header, fed, chunks + 1).0, next, dropped, more);
    }
  }

  lemma MovedPosition(next: Finder, more: nat, window: nat)
    requires next.position == more + window
    ensures Compacted(next, more).position == window
  {
  }

  lemma MovedOn(env: Env, full: Finder, next: Finder, dropped: nat, more: nat)
    requires FinderShadows(full, next, dropped) && Tidy(full.core.ix, full.position) &&
             next.position == more + env.window
    requires 4 * RANDOM_HEURISTICS_WINDOW < env.window
    ensures FinderShadows(full, Compacted(next, more), dropped + more) &&
            KeepsWindow(env.window, full.position, dropped + more)
  {
    hide Tidy, Compacted;
    CompactedShadows(full, next, dropped, more);
  }

  /** An encoder's state as a value; `sent` is everything written, taken or not. */
  datatype Snapshot = Snapshot(fed: seq<Byte>, window: seq<Byte>, flushed: nat, started: bool, chunks: nat,
                               finder: Finder, sent: seq<bool>)

  /** Some bytes of the window are yet to be emitted. */
  ghost predicate Underway(env: Env, emission: Emission, header: seq<bool>, s: Snapshot)
  {
    && s.flushed == s.finder.position <= |s.window| && (s.started <==> s.chunks > 0) && (!s.started ==> s.sent == [])
    && Tracks(env, emission, header, s.fed, s.window, s.chunks, s.finder, s.sent)
  }

  /** Between calls they are at most a chunk, and at least one byte once a chunk has been emitted. */
  ghost predicate Between(env: Env, emission: Emission, header: seq<bool>, s: Snapshot)
  {
    Underway(env, emission, header, s) && |s.window| <= s.flushed + MAX_META_BLOCK_SIZE &&
      (s.started ==> s.flushed < |s.window|)
  }

  /** The end of the next chunk. */
  function NextEnd(s: Snapshot): nat
  {
    Min(s.flushed + MAX_META_BLOCK_SIZE, |s.window|)
  }

  /** What emitting a chunk does. */
  ghost predicate Emitted(env: Env, emission: Emission, header: seq<bool>, s: Snapshot, isLast: bool, next: Snapshot)
    requires s.flushed == s.finder.position < |s.window|
  {
    && next.started && next.flushed == next.finder.position && next.fed == s.fed && next.chunks == s.chunks
    && |next.window| - next.flushed == |s.window| - NextEnd(s)
    && Moved(env, emission, s.window, NextEnd(s), s.finder, if s.started then s.sent else header, isLast, next.window,
             next.finder, next.sent)
  }

  /** A window that has been kept short can be searched. */
  lemma CanEmit(env: Env, emission: Emission, header: seq<bool>, s: Snapshot)
    requires Underway(env, emission, header, s) && s.flushed < |s.window| && env.window < MAX_META_BLOCK_SIZE
    ensures NextEnd(s) <= NO_POSITION && Tidy(s.finder.core.ix, s.finder.position)
  {
    hide Tidy, Agrees;
  }

  lemma InputArrives(env: Env, emission: Emission, header: seq<bool>, s: Snapshot, more: seq<Byte>)
    requires Underway(env, emission, header, s)
    ensures Underway(env, emission, header, s.(fed := s.fed + more, window := s.window + more))
  {
    hide Tracks;
    TracksMore(env, emission, header, s.fed, s.window, s.chunks, s.finder, s.sent, more);
  }

  lemma EnoughFed(env: Env, s: Snapshot)
    requires Windowed(env.window, s.fed, s.window, s.chunks, s.finder)
    ensures s.finder.position + MAX_META_BLOCK_SIZE <= |s.window| ==> (s.chunks + 1) * MAX_META_BLOCK_SIZE <= |s.fed|
  {
    hide Tidy;
  }

  lemma FullEmitted(env: Env, emission: Emission, header: seq<bool>, s: Snapshot, next: Snapshot)
    requires Underway(env, emission, header, s) && |s.window| == s.flushed + MAX_META_BLOCK_SIZE + 1
    requires 4 * RANDOM_HEURISTICS_WINDOW < env.window < MAX_META_BLOCK_SIZE &&
             Emitted(env, emission, header, s, false, next)
    ensures Between(env, emission, header, next.(chunks := s.chunks + 1))
  {
    hide Tidy, Agrees, Moved, StreamBits, ChunkEmitted;
    EnoughFed(env, s);
    hide Tracks;
    TracksChunk(env, emission, header, s.fed, s.window, s.chunks, s.finder, s.sent, next.window, next.finder,
                next.sent);
  }

  /** The last chunk completes the stream. */
  lemma LastEmitted(env: Env, emission: Emission, header: seq<bool>, s: Snapshot, next: Snapshot)
    requires Between(env, emission, header, s) && s.started && env.window >= 2 &&
             Emitted(env, emission, header, s, true, next)
    ensures |next.window| == next.flushed && |s.fed| > MAX_META_BLOCK_SIZE
    ensures |s.fed| <= NO_POSITION ==> Aligned(next.sent) == StreamBits(env, emission, header, s.fed)
  {
    hide Tidy, FinderShadows, ChunkEmitted, Compacted, KeepsWindow;
    var dropped := |s.fed| - |s.window|;
    assert s.chunks * MAX_META_BLOCK_SIZE < |s.fed| <= (s.chunks + 1) * MAX_META_BLOCK_SIZE;
    if |s.fed| <= NO_POSITION {
      NextChunk(env, emission, header, s.fed, |s.fed|, s.chunks, dropped, s.finder, true);
      assert s.fed[..|s.fed|] == s.fed && s.fed[dropped..|s.fed|] == s.window && s.window[..|s.window|] == s.window;
      assert s.chunks == (|s.fed| - 1) / MAX_META_BLOCK_SIZE;
    }
  }

  lemma DrainedOn(drained: seq<Byte>, output: seq<Byte>, rest: seq<bool>)
    ensures BitsOf(drained) + (BitsOf(output) + rest) == BitsOf(drained + output) + rest
  {
    hide BitsOf;
    BitsOfAppend(drained, output);
    assert BitsOf(drained) + (BitsOf(output) + rest) == BitsOf(drained) + BitsOf(output) + rest;
  }

  lemma StartsBetween(env: Env, emission: Emission, header: seq<bool>, s: Snapshot)
    requires s.fed == [] && s.window == [] && s.flushed == 0 && !s.started && s.chunks == 0 && s.sent == []
    requires s.finder.position == 0
    requires Tracks(env, emission, header, [], [], 0, s.finder, [])
    ensures Between(env, emission, header, s)
  {
    hide Tracks;
  }

  /** The incremental encoder of qualities 2 and up. */
  class StreamEncoder {
    const finder: StreamingMatchFinder
    const writer: BitWriter
    const windowBits: nat
    const emission: Emission
    const oneShot: seq<Byte> -> seq<Byte>
    var window: seq<Byte>
    var flushed: nat
    var started: bool
    var finished: bool
    ghost var fed: seq<Byte>
    ghost var drained: seq<Byte>
    ghost var chunks: nat

    ghost function Repr(): set<object>
    {
      {this, writer} + finder.Repr()
    }

    ghost predicate Separate()
      reads Repr()
    {
      && finder.Valid() && writer.Valid() && this !in finder.Repr() && writer !in finder.Repr()
      && 10 <= windowBits <= 24 && finder.env.window == Pow2(windowBits) - WINDOW_GAP
    }

    /** Everything written so far, taken or not. */
    ghost function Sent(): seq<bool>
      reads this`drained, writer
    {
      BitsOf(drained) + writer.Bits()
    }

    ghost function State(): Snapshot
      requires Separate()
      reads Repr()
    {
      Snapshot(fed, window, flushed, started, chunks, finder.View(), Sent())
    }

    ghost predicate Valid()
      reads Repr()
    {
      && Separate()
      && if finished then |writer.Bits()| % 8 == 0 && (|fed| <= NO_POSITION ==> Sent() == Whole(fed))
         else Between(finder.env, emission, WindowHeader(windowBits), State())
    }

    /** The stream of an input: up to one metablock, what the encoder makes of it in one call. */
    ghost function Whole(input: seq<Byte>): seq<bool>
      requires 10 <= windowBits <= 24
    {
      if |input| <= MAX_META_BLOCK_SIZE then BitsOf(oneShot(input))
      else StreamBits(finder.env, emission, WindowHeader(windowBits), input)
    }

    constructor (e: Env, wb: nat, em: Emission, single: seq<Byte> -> seq<Byte>)
      requires 10 <= wb <= 24 && e.window == Pow2(wb) - WINDOW_GAP
      ensures Valid() && fresh(Repr()) && fed == [] && drained == [] && !finished
      ensures finder.env == e && windowBits == wb && emission == em && oneShot == single
    {
      finder := new StreamingMatchFinder(e);
      writer := new BitWriter();
      windowBits, emission, oneShot := wb, em, single;
      window, flushed, started, finished := [], 0, false, false;
      fed, drained, chunks := [], [], 0;
      new;
      hide FinderShadows, Tidy, Tracks, WindowHeader, Pow2, Between, EmittedChunks, StreamBits, BitsOf,
           BlankIndex, StreamingMatchFinder.View, StreamingMatchFinder.Valid, BitWriter.Valid, BitWriter.Bits;
      NoBytes();
      assert BitsOf(drained) + writer.Bits() == [];
      TracksStart(e, em, WindowHeader(wb), finder.View());
      StartsBetween(e, em, WindowHeader(wb), State());
    }

    lemma WindowFits()
      requires 10 <= windowBits <= 24 && finder.env.window == Pow2(windowBits) - WINDOW_GAP
      ensures 4 * RANDOM_HEURISTICS_WINDOW < finder.env.window < MAX_META_BLOCK_SIZE
    {
      hide Pow2;
      RingIsLarge(windowBits);
      Pow2Monotone(windowBits, 24);
      Pow2Of24();
    }

    /** Emits the next chunk and forgets what lies outside the window. */
    method Emit(isLast: bool)
      requires Separate() && flushed == finder.position < |window|
      requires NextEnd(State()) <= NO_POSITION && Tidy(finder.View().core.ix, finder.position)
      requires !started ==> Sent() == []
      modifies this`window, this`flushed, this`started, writer, finder.Repr()
      ensures Separate() && Emitted(finder.env, emission, WindowHeader(windowBits), old(State()), isLast, State())
    {
      hide Tidy, ChunkEmitted, WindowHeader, Compacted, BitsOf, Pow2, StreamBits, EmittedChunks;
      ghost var first := if started then Sent() else WindowHeader(windowBits);
      if !started {
        WriteWindowBits(writer, windowBits);
        started := true;
      }
      assert Sent() == first;
      ghost var view, before, all := finder.View(), writer.Bits(), window;
      var chunkEnd := EmitChunk(window, finder, writer, emission, isLast);
      flushed := chunkEnd;
      ChunkBehind(finder.env, emission, all[..chunkEnd], view, BitsOf(drained), before, isLast);
      Compact();
    }

    /** Drops history that no later match can reach. */
    method Compact()
      requires Separate() && flushed == finder.position <= |window| && Tidy(finder.View().core.ix, finder.position)
      modifies this`window, this`flushed, finder.Repr()
      ensures Separate() && flushed == finder.position && |window| - flushed == old(|window| - flushed)
      ensures Tidy(finder.View().core.ix, finder.position)
      ensures var dropped := Saturating(old(flushed), finder.env.window);
              && window == old(window)[dropped..]
              && finder.View() == if dropped > 0 then Compacted(old(finder.View()), dropped) else old(finder.View())
    {
      hide Tidy, Remapped, Pow2;
      if flushed > finder.env.window {
        var dropped := flushed - finder.env.window;
        RemappedTidy(finder.View().core.ix, dropped, finder.position);
        window := window[dropped..];
        flushed := flushed - dropped;
        finder.Compact(dropped);
      }
    }

    /** Completed bytes go out, as many as fit. */
    method Drain(room: nat) returns (output: seq<Byte>, status: EncodeStatus)
      requires Valid()
      modifies this`drained, writer
      ensures Valid() && Sent() == old(Sent()) && drained == old(drained) + output
      ensures |output| == Min(room, |old(writer.Bits())| / 8) && |writer.Bits()| == |old(writer.Bits())| - 8 * |output|
      ensures status == if |writer.Bits()| >= 8 then NeedOutput else if finished then Done else NeedInput
    {
      hide Between, WindowHeader, BitsOf, Pow2, StreamBits, BitWriter.Bits, StreamingMatchFinder.Valid,
           StreamingMatchFinder.View;
      output := writer.DrainBytes(room);
      DrainedOn(drained, output, writer.Bits());
      drained := drained + output;
      var queued := writer.QueuedBytes();
      status := if finished && queued == 0 then Done else if queued > 0 then NeedOutput else NeedInput;
    }

    /** Takes all of the input, emitting a chunk whenever there is more than one. */
    method Process(input: seq<Byte>, room: nat) returns (consumed: nat, output: seq<Byte>, status: EncodeStatus)
      requires Valid()
      modifies Repr()
      ensures Valid() && drained == old(drained) + output && |output| <= room
      ensures old(finished) ==> consumed == 0 && fed == old(fed) && finished && status == Done
      ensures !old(finished) ==> consumed == |input| && fed == old(fed) + input && !finished && status != Done
    {
      hide Underway, WindowHeader, BitsOf, Pow2, StreamBits;
      if finished {
        output, status := Drain(room);
        return 0, output, Done;
      }
      var at := 0;
      assert old(fed) + input[..0] == old(fed);
      while at < |input|
        invariant at <= |input| && Valid() && !finished && fed == old(fed) + input[..at] && drained == old(drained)
        decreases |input| - at
      {
        var pending := |window| - flushed;
        var fill := Min(MAX_META_BLOCK_SIZE + 1 - pending, |input| - at);
        assert fed + input[at..at + fill] == old(fed) + input[..at + fill];
        Take(input[at..at + fill]);
        at := at + fill;
      }
      assert input[..|input|] == input;
      output, status := Drain(room);
      consumed := |input|;
    }

    /** More input into the window; one byte more than a chunk makes the chunk go out. */
    method Take(more: seq<Byte>)
      requires Valid() && !finished && more != [] && |window| - flushed + |more| <= MAX_META_BLOCK_SIZE + 1
      modifies Repr()
      ensures Valid() && !finished && fed == old(fed) + more && drained == old(drained)
    {
      hide Tracks, WindowHeader, BitsOf, Pow2, StreamBits, Emitted, Tidy, Sent;
      WindowFits();
      InputArrives(finder.env, emission, WindowHeader(windowBits), State(), more);
      window := window + more;
      fed := fed + more;
      if |window| - flushed > MAX_META_BLOCK_SIZE {
        CanEmit(finder.env, emission, WindowHeader(windowBits), State());
        ghost var before := State();
        Emit(false);
        FullEmitted(finder.env, emission, WindowHeader(windowBits), before, State());
        chunks := chunks + 1;
      }
    }

    /** Emits what is left, ends the stream, and hands out completed bytes; a second call only hands out. */
    method Finish(room: nat) returns (output: seq<Byte>, status: EncodeStatus)
      requires Valid()
      modifies Repr()
      ensures Valid() && finished && fed == old(fed) && drained == old(drained) + output && |output| <= room
      ensures status == if |writer.Bits()| >= 8 then NeedOutput else Done
      ensures old(finished) && room > 0 && |old(writer.Bits())| > 0 ==> output != []
      ensures old(finished) ==> |writer.Bits()| <= |old(writer.Bits())| - 8 * |output|
      ensures status == Done && |fed| <= NO_POSITION ==> BitsOf(drained) == Whole(fed)
    {
      hide Between, WindowHeader, BitsOf, Pow2, StreamBits;
      if !finished {
        Terminate();
      }
      output, status := Drain(room);
      if status == Done {
        assert writer.Bits() == [];
      }
    }

    /** Completes the stream. */
    method Terminate()
      requires Valid() && !finished
      modifies Repr()
      ensures Valid() && finished && fed == old(fed) && drained == old(drained)
    {
      hide Underway, WindowHeader, BitsOf, Pow2, StreamBits, Tidy, Padding;
      if !started {
        EncodeAtOnce();
      } else {
        EmitRest();
        AlignedBehind(BitsOf(drained), writer.Bits());
        writer.AlignToByte();
      }
      finished := true;
    }

    /** Nothing has been emitted: the whole input is in the window, and is encoded in one call. */
    method EncodeAtOnce()
      requires Valid() && !finished && !started
      modifies this`window, this`flushed, writer
      ensures Separate() && |fed| <= MAX_META_BLOCK_SIZE && Sent() == BitsOf(oneShot(fed)) && |writer.Bits()| % 8 == 0
    {
      FedIsWindow(finder.env, emission, WindowHeader(windowBits), State());
      NothingWritten();
      hide Tracks, WindowHeader, BitsOf, Pow2, StreamBits, Tidy;
      var stream := oneShot(window);
      writer.WriteBytes(stream);
      window := [];
      flushed := 0;
    }

    /** What has been written is nothing, so the writer is on a byte boundary. */
    lemma NothingWritten()
      requires writer.Valid() && Sent() == []
      ensures writer.used == 0 && writer.Bits() == [] && drained == []
    {
    }

    /** The pending bytes as the last chunk. There always are some, so no empty metablock is needed. */
    method EmitRest()
      requires Valid() && !finished && started
      modifies this`window, this`flushed, this`started, writer, finder.Repr()
      ensures Separate() && |fed| > MAX_META_BLOCK_SIZE
      ensures |fed| <= NO_POSITION ==> Aligned(Sent()) == StreamBits(finder.env, emission, WindowHeader(windowBits),
                                                                     fed)
    {
      hide Tracks, WindowHeader, BitsOf, Pow2, StreamBits, Emitted, Tidy, Sent, Aligned;
      WindowFits();
      ghost var first := State();
      var terminated := false;
      while |window| > flushed
        invariant Separate() && flushed <= |window|
        invariant terminated == (flushed == |window|)
        invariant !terminated ==> State() == first
        invariant terminated ==> |fed| > MAX_META_BLOCK_SIZE
        invariant terminated && |fed| <= NO_POSITION ==>
                    Aligned(Sent()) == StreamBits(finder.env, emission, WindowHeader(windowBits), fed)
        decreases |window| - flushed
      {
        var remaining := |window| - flushed;
        var isLast := remaining <= MAX_META_BLOCK_SIZE;
        CanEmit(finder.env, emission, WindowHeader(windowBits), State());
        Emit(isLast);
        LastEmitted(finder.env, emission, WindowHeader(windowBits), first, State());
        terminated := terminated || isLast;
      }
      // So a stream never ends between two chunks, and needs no empty metablock at its end.
      assert terminated;
    }
  }

  lemma FedIsWindow(env: Env, emission: Emission, header: seq<bool>, s: Snapshot)
    requires Between(env, emission, header, s) && !s.started
    ensures s.fed == s.window && |s.fed| <= MAX_META_BLOCK_SIZE
  {
    hide Tidy, Agrees;
  }

  /** All the pieces in order. */
  function Fed(pieces: seq<(seq<Byte>, nat)>): seq<Byte>
  {
    if pieces == [] then [] else Fed(pieces[..|pieces| - 1]) + pieces[|pieces| - 1].0
  }

  lemma {:induction false} BitsDetermineBytes(a: seq<Byte>, b: seq<Byte>)
    requires BitsOf(a) == BitsOf(b)
    ensures a == b
  {
    if a != [] && b != [] {
      Pow2Of8();
      hide Lsb, Pow2;
      assert BitsOf(a)[..8] == Lsb(a[0], 8) && BitsOf(b)[..8] == Lsb(b[0], 8);
      assert BitsOf(a)[8..] == BitsOf(a[1..]) && BitsOf(b)[8..] == BitsOf(b[1..]);
      ValueOfLsb(a[0], 8);
      ValueOfLsb(b[0], 8);
      BitsDetermineBytes(a[1..], b[1..]);
      assert a == [a[0]] + a[1..] && b == [b[0]] + b[1..];
    }
  }

  /** Feeds an input in pieces, each with some room for output, and then takes the rest of the output. */
  method EncodeInPieces(env: Env, windowBits: nat, emission: Emission, oneShot: seq<Byte> -> seq<Byte>,
                        pieces: seq<(seq<Byte>, nat)>, room: nat)
    returns (output: seq<Byte>)
    requires 10 <= windowBits <= 24 && env.window == Pow2(windowBits) - WINDOW_GAP && room > 0
    ensures var input := Fed(pieces);
            && (|input| <= MAX_META_BLOCK_SIZE ==> output == oneShot(input))
            && (MAX_META_BLOCK_SIZE < |input| <= NO_POSITION ==>
                  BitsOf(output) == StreamBits(env, emission, WindowHeader(windowBits), input))
  {
    hide WindowHeader, BitsOf, StreamBits, Pow2, StreamEncoder.Valid;
    var encoder := new StreamEncoder(env, windowBits, emission, oneShot);
    output := [];
    for i := 0 to |pieces|
      invariant encoder.Valid() && fresh(encoder.Repr()) && !encoder.finished && encoder.fed == Fed(pieces[..i]) &&
                encoder.drained == output
    {
      assert pieces[..i + 1][..i] == pieces[..i];
      var consumed, more, status := encoder.Process(pieces[i].0, pieces[i].1);
      output := output + more;
    }
    assert pieces[..|pieces|] == pieces;
    var rest, status := encoder.Finish(room);
    output := output + rest;
    while status != Done
      invariant encoder.Valid() && fresh(encoder.Repr()) && encoder.finished && encoder.fed == Fed(pieces) &&
                encoder.drained == output
      invariant status == Done || |encoder.writer.Bits()| >= 8
      invariant status == Done && |encoder.fed| <= NO_POSITION ==> BitsOf(output) == encoder.Whole(encoder.fed)
      decreases |encoder.writer.Bits()|, if status == Done then 0 else 1
    {
      rest, status := encoder.Finish(room);
      output := output + rest;
    }
    if |Fed(pieces)| <= MAX_META_BLOCK_SIZE {
      BitsDetermineBytes(output, oneShot(Fed(pieces)));
    }
  }

  /** However the input is cut up and whatever room there is for output, the incremental encoder gives the
      bytes of the stream that is made in one call. */
  method StreamingEqualsOneCall(env: Env, windowBits: nat, emission: Emission, oneShot: seq<Byte> -> seq<Byte>,
                                pieces: seq<(seq<Byte>, nat)>,
                                room: nat)
    returns (streamed: seq<Byte>, whole: Option<seq<Byte>>)
    requires 10 <= windowBits <= 24 && env.window == Pow2(windowBits) - WINDOW_GAP && room > 0 &&
             |Fed(pieces)| <= NO_POSITION
    ensures whole.Some? <==> |Fed(pieces)| > MAX_META_BLOCK_SIZE
    ensures whole.Some? ==> BitsOf(whole.value) == StreamBits(env, emission, WindowHeader(windowBits), Fed(pieces))
    ensures streamed == if whole.Some? then whole.value else oneShot(Fed(pieces))
  {
    hide WindowHeader, BitsOf, StreamBits, Pow2;
    RingIsLarge(windowBits);
    streamed := EncodeInPieces(env, windowBits, emission, oneShot, pieces, room);
    whole := TryCompressStream(env, windowBits, emission, Fed(pieces));
    if whole.Some? {
      BitsDetermineBytes(streamed, whole.value);
    }
  }
}
