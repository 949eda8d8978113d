/** The incremental encoder with metablocks of one tree of each kind (`src/encode/greedy.rs`, `src/encode/stream.rs`):
    whatever codes it makes, its streams decompress to their input. */
module SingleTrees {
  import opened Bytes
  import opened BitPacking
  import opened Distances
  import opened MetablockHeaders
  import opened CommandStream
  import opened CommandEmission
  import opened MetablockStart
  import opened MatchFinder
  import opened GreedyParse
  import opened GreedyEmission
  import opened DecoderMachine
  import opened MetablockReading
  import opened StreamRoundTrip
  import opened Decompression
  import opened IncrementalRoundTrip
  import G = GreedyStream
  import opened Outcomes

  lemma ShiftedCommand(codes: Codes, input: seq<Byte>, start: nat, at: nat, c: StreamCommand)
    requires start <= |input|
    ensures CommandHasCodes(codes, input[start..], at, c) <==> CommandHasCodes(codes, input, start + at, c)
  {
    hide Encodable, Encoded, HaveCodes, WireHasCodes;
    if start + at + c.insertLen <= |input| {
      assert input[start..][at..at + c.insertLen] == input[start + at..start + at + c.insertLen];
    }
  }

  /** Whether commands can be written does not depend on what lies before them. */
  lemma {:induction false} ShiftedWritable(codes: Codes, input: seq<Byte>, start: nat, at: nat,
                                           commands: seq<StreamCommand>)
    requires start <= |input|
    ensures Writable(codes, input[start..], at, commands) <==> Writable(codes, input, start + at, commands)
    decreases |commands|
  {
    hide CommandHasCodes;
    if commands != [] {
      var c := commands[0];
      ShiftedCommand(codes, input, start, at, c);
      ShiftedWritable(codes, input, start, at + c.insertLen + c.copyLen, commands[1..]);
    }
  }

  /** Nor does what is written. */
  lemma {:induction false} ShiftedBody(codes: Codes, input: seq<Byte>, start: nat, at: nat,
                                       commands: seq<StreamCommand>)
    requires start <= |input|
    requires Writable(codes, input[start..], at, commands) && Writable(codes, input, start + at, commands)
    ensures BodyBits(codes, input[start..], at, commands) == BodyBits(codes, input, start + at, commands)
    decreases |commands|
  {
    hide Encodable, Encoded, HaveCodes, WireHasCodes, WireBits;
    if commands != [] {
      var c := commands[0];
      assert input[start..][at..at + c.insertLen] == input[start + at..start + at + c.insertLen];
      ShiftedBody(codes, input, start, at + c.insertLen + c.copyLen, commands[1..]);
    }
  }

  /** Nor do their streams. */
  lemma {:induction false} ShiftedLiterals(input: seq<Byte>, start: nat, at: nat, commands: seq<StreamCommand>)
    requires start <= |input| && Placed(input, start + at, commands)
    ensures Placed(input[start..], at, commands)
    ensures LiteralsOf(input[start..], at, commands) == LiteralsOf(input, start + at, commands)
    decreases |commands|
  {
    hide AsSymbols;
    if commands != [] {
      var c := commands[0];
      assert input[start..][at..at + c.insertLen] == input[start + at..start + at + c.insertLen];
      ShiftedLiterals(input, start, at + c.insertLen + c.copyLen, commands[1..]);
    }
  }

  function CommandsOf(job: G.Job): seq<StreamCommand>
  {
    WithTail(job.commands, job.tail)
  }

  /** A compressed form of a job with one tree of each kind, for any codes. */
  ghost predicate SingleTreeOf(job: G.Job, codes: Codes, front: seq<bool>, bits: seq<bool>)
  {
    && 0 < |job.chunk| <= MAX_META_BLOCK_SIZE && IsStart(codes, front)
    && Writable(codes, job.chunk, 0, CommandsOf(job))
    && bits == CompressedForm(front, BodyBits(codes, job.chunk, 0, CommandsOf(job)), |job.chunk|, job.isLast)
  }

  ghost predicate HasSingleTrees(job: G.Job, bits: seq<bool>)
  {
    exists codes, front :: SingleTreeOf(job, codes, front, bits)
  }

  /** The encoder's compressed metablocks all have one tree of each kind. */
  ghost predicate OnlySingleTrees(emission: G.Emission)
  {
    forall job :: emission(job).Some? ==> HasSingleTrees(job, emission(job).value)
  }

  /** Then each takes the decoder over its chunk, wherever it stands. */
  lemma SinglesAreHonest(g: Given, windowBits: nat, env: Env, emission: G.Emission)
    requires Admissible(g.parser) && Understands(g.parser) && g.words == env.words &&
             env.window == WindowSize(windowBits)
    requires OnlySingleTrees(emission)
    ensures Honest(g, windowBits, env, emission)
  {
    hide MakesUp, HonestFor, OnlySingleTrees, Admissible, Understands, WindowSize;
    forall seen: seq<Byte>, start: nat, commands: seq<StreamCommand>, insertStart: nat, ring: Ring, after: Ring,
           isLast: bool, offset: nat | MakesUp(env, seen, start, commands, insertStart, ring, after)
      ensures && start < |seen| && insertStart <= |seen|
              && HonestFor(g, windowBits, emission, seen, start, commands, insertStart, ring, after, isLast, offset)
    {
      MakesUpBounds(env, seen, start, commands, insertStart, ring, after);
      OneIsHonest(g, windowBits, env, emission, seen, start, commands, insertStart, ring, after, isLast, offset);
    }
  }

  lemma MakesUpBounds(env: Env, seen: seq<Byte>, start: nat, commands: seq<StreamCommand>, insertStart: nat,
                      ring: Ring, after: Ring)
    requires MakesUp(env, seen, start, commands, insertStart, ring, after)
    ensures start < |seen| <= start + MAX_META_BLOCK_SIZE && insertStart <= |seen|
  {
    hide Executes, RingAtEnd;
  }

  lemma OneIsHonest(g: Given, windowBits: nat, env: Env, emission: G.Emission, seen: seq<Byte>, start: nat,
                    commands: seq<StreamCommand>, insertStart: nat, ring: Ring, after: Ring, isLast: bool, offset: nat)
    requires Admissible(g.parser) && Understands(g.parser) && g.words == env.words &&
             env.window == WindowSize(windowBits)
    requires OnlySingleTrees(emission) && start < |seen| && insertStart <= |seen|
    requires MakesUp(env, seen, start, commands, insertStart, ring, after)
    ensures HonestFor(g, windowBits, emission, seen, start, commands, insertStart, ring, after, isLast, offset)
  {
    var job := G.JobOf(seen, start, commands, insertStart, isLast);
    hide *;
    if emission(job).Some? {
      var codes, front := TreesOf(emission, seen, start, commands, insertStart, isLast, job);
      SingleIsHonest(g, windowBits, env, emission, seen, start, commands, insertStart, ring, after, isLast, offset,
                     codes, front);
    } else {
      NoneIsHonest(g, windowBits, emission, seen, start, commands, insertStart, ring, after, isLast, offset);
    }
  }

  lemma NoneIsHonest(g: Given, windowBits: nat, emission: G.Emission, seen: seq<Byte>, start: nat,
                     commands: seq<StreamCommand>, insertStart: nat, ring: Ring, after: Ring, isLast: bool,
                     offset: nat)
    requires start < |seen| && insertStart <= |seen|
    requires emission(G.JobOf(seen, start, commands, insertStart, isLast)).None?
    ensures HonestFor(g, windowBits, emission, seen, start, commands, insertStart, ring, after, isLast, offset)
  {
    hide Reads, Sound;
  }

  /** A job's trees serve the chunk where it stands. */
  lemma TreesOf(emission: G.Emission, seen: seq<Byte>, start: nat, commands: seq<StreamCommand>, insertStart: nat,
                isLast: bool, job: G.Job) returns (codes: Codes, front: seq<bool>)
    requires OnlySingleTrees(emission) && start < |seen| && insertStart <= |seen|
    requires job == G.JobOf(seen, start, commands, insertStart, isLast) && emission(job).Some?
    ensures |seen| <= start + MAX_META_BLOCK_SIZE
    ensures var all := WithTail(commands, |seen| - insertStart);
            && IsStart(codes, front) && Writable(codes, seen, start, all)
            && emission(job) == Some(CompressedForm(front, BodyBits(codes, seen, start, all), |seen| - start, isLast))
  {
    hide IsStart, Writable, BodyBits, CompressedForm;
    assert HasSingleTrees(job, emission(job).value);
    codes, front :| SingleTreeOf(job, codes, front, emission(job).value);
    ShiftedWritable(codes, seen, start, 0, CommandsOf(job));
    ShiftedBody(codes, seen, start, 0, CommandsOf(job));
  }

  /** The compressed form of a job with the codes the encoder makes for its commands. */
  ghost predicate EncoderForm(job: G.Job, direct: nat, postfix: nat, bits: seq<bool>)
  {
    0 < |job.chunk| <= MAX_META_BLOCK_SIZE &&
    exists codes, front :: MadeFrom(job, direct, postfix, codes, front, bits)
  }

  ghost predicate MadeFrom(job: G.Job, direct: nat, postfix: nat, codes: Codes, front: seq<bool>, bits: seq<bool>)
    requires 0 < |job.chunk| <= MAX_META_BLOCK_SIZE
  {
    && SingleTreeForm(codes, front, job.chunk, 0, CommandsOf(job), direct, postfix)
    && Writable(codes, job.chunk, 0, CommandsOf(job))
    && bits == CompressedForm(front, BodyBits(codes, job.chunk, 0, CommandsOf(job)), |job.chunk|, job.isLast)
  }

  /** There may be several codes of the same quality; of their forms it is one of the smallest. */
  ghost predicate Least(job: G.Job, direct: nat, postfix: nat, bits: seq<bool>)
  {
    EncoderForm(job, direct, postfix, bits) &&
    forall other :: EncoderForm(job, direct, postfix, other) ==> |bits| <= |other|
  }

  lemma {:induction false} LeastExists(job: G.Job, direct: nat, postfix: nat, bits: seq<bool>)
    returns (least: seq<bool>)
    requires EncoderForm(job, direct, postfix, bits)
    ensures Least(job, direct, postfix, least) && |least| <= |bits|
    decreases |bits|
  {
    hide EncoderForm;
    if other :| EncoderForm(job, direct, postfix, other) && |other| < |bits| {
      least := LeastExists(job, direct, postfix, other);
    } else {
      least := bits;
    }
  }

  ghost function LeastForm(job: G.Job, direct: nat, postfix: nat): Option<seq<bool>>
  {
    if exists bits :: Least(job, direct, postfix, bits) then
      var bits :| Least(job, direct, postfix, bits);
      Some(bits)
    else None
  }

  /** The encoder that makes its codes as the one-call encoder does. */
  ghost function EncoderTrees(direct: nat, postfix: nat): G.Emission
  {
    job => LeastForm(job, direct, postfix)
  }

  lemma EncoderHasSingleTrees(direct: nat, postfix: nat)
    ensures OnlySingleTrees(EncoderTrees(direct, postfix))
  {
    hide EncoderForm, HasSingleTrees;
    var emission := EncoderTrees(direct, postfix);
    forall job | emission(job).Some?
      ensures HasSingleTrees(job, emission(job).value)
    {
      FormHasSingleTrees(job, direct, postfix, emission(job).value);
    }
  }

  lemma FormHasSingleTrees(job: G.Job, direct: nat, postfix: nat, bits: seq<bool>)
    requires EncoderForm(job, direct, postfix, bits)
    ensures HasSingleTrees(job, bits)
  {
    hide IsStart, Writable, BodyBits, CompressedForm, Placed, AllEmittable, CodesMade;
    var codes, front :| MadeFrom(job, direct, postfix, codes, front, bits);
    assert SingleTreeOf(job, codes, front, bits);
  }

  /** A form of the chunk where it stands is one of its job. */
  lemma FormOfJob(seen: seq<Byte>, start: nat, commands: seq<StreamCommand>, insertStart: nat, isLast: bool,
                  direct: nat, postfix: nat, codes: Codes, front: seq<bool>)
    requires start < |seen| <= start + MAX_META_BLOCK_SIZE && insertStart <= |seen|
    requires var all := WithTail(commands, |seen| - insertStart);
             SingleTreeForm(codes, front, seen, start, all, direct, postfix) && Writable(codes, seen, start, all)
    ensures var all := WithTail(commands, |seen| - insertStart);
            EncoderForm(G.JobOf(seen, start, commands, insertStart, isLast), direct, postfix,
                        CompressedForm(front, BodyBits(codes, seen, start, all), |seen| - start, isLast))
  {
    hide IsStart, Writable, BodyBits, CompressedForm, Placed, AllEmittable, CodesMade, LiteralsOf, SymbolsOf,
         DistancesOf, WithTail;
    var all, job := WithTail(commands, |seen| - insertStart), G.JobOf(seen, start, commands, insertStart, isLast);
    var e: Encodings :| e.Lengths() == codes && MadeForm(e, front, seen, start, all, direct, postfix);
    ShiftedWritable(codes, seen, start, 0, all);
    ShiftedBody(codes, seen, start, 0, all);
    ShiftedLiterals(seen, start, 0, all);
    assert MadeForm(e, front, job.chunk, 0, all, direct, postfix);
    assert SingleTreeForm(codes, front, job.chunk, 0, all, direct, postfix);
    assert MadeFrom(job, direct, postfix, codes, front,
                    CompressedForm(front, BodyBits(codes, seen, start, all), |seen| - start, isLast));
  }

  /** Where the one-call encoder compresses a chunk, so does this one, to no more bits. */
  lemma EncoderCompresses(env: Env, seen: seq<Byte>, f: Finder, direct: nat, postfix: nat, isLast: bool,
                          form: Emitted)
    requires f.position < |seen| <= f.position + MAX_META_BLOCK_SIZE
    requires ChosenForm(form, env, seen, f, direct, postfix, isLast) && form.Compressed?
    ensures var p := ParseFrom(env, seen, f);
            && p.insertStart <= |seen|
            && var made := G.Smaller(EncoderTrees(direct, postfix),
                                     G.JobOf(seen, f.position, p.commands, p.insertStart, isLast));
               made.Some? && |made.value| <= |CompressedForm(form.start, form.bits, |seen| - f.position, isLast)|
  {
    hide *;
    ParseIsTrue(env, seen, f);
    var p := ParseFrom(env, seen, f);
    InsertWithin(env, seen, f, p);
    var all := WithTail(p.commands, |seen| - p.insertStart);
    ChosenIsBetter(env, seen, f, direct, postfix, isLast, form);
    var codes := BetterTrees(seen, f.position, all, direct, postfix, isLast, form);
    FormOfJob(seen, f.position, p.commands, p.insertStart, isLast, direct, postfix, codes, form.start);
    JobIs(seen, f.position, p.commands, p.insertStart, isLast);
    LeastIsMade(G.JobOf(seen, f.position, p.commands, p.insertStart, isLast), direct, postfix,
                CompressedForm(form.start, form.bits, |seen| - f.position, isLast));
  }

  lemma JobIs(seen: seq<Byte>, start: nat, commands: seq<StreamCommand>, insertStart: nat, isLast: bool)
    requires start <= |seen| && insertStart <= |seen|
    ensures var job := G.JobOf(seen, start, commands, insertStart, isLast);
            job.commands == commands && |job.chunk| == |seen| - start
  {
  }

  lemma ChosenIsBetter(env: Env, seen: seq<Byte>, f: Finder, direct: nat, postfix: nat, isLast: bool, form: Emitted)
    requires f.position < |seen| <= f.position + MAX_META_BLOCK_SIZE && ParseFrom(env, seen, f).insertStart <= |seen|
    requires ChosenForm(form, env, seen, f, direct, postfix, isLast) && form.Compressed?
    ensures var p := ParseFrom(env, seen, f);
            && p.commands != []
            && BetterForm(form, seen, f.position, |seen|, WithTail(p.commands, |seen| - p.insertStart), direct, postfix,
                          isLast)
  {
    hide ParseFrom, BetterForm, WithTail;
  }

  lemma BetterTrees(seen: seq<Byte>, start: nat, all: seq<StreamCommand>, direct: nat, postfix: nat, isLast: bool,
                    form: Emitted) returns (codes: Codes)
    requires start < |seen| <= start + MAX_META_BLOCK_SIZE
    requires BetterForm(form, seen, start, |seen|, all, direct, postfix, isLast) && form.Compressed?
    ensures SingleTreeForm(codes, form.start, seen, start, all, direct, postfix) && Writable(codes, seen, start, all)
    ensures BodyBits(codes, seen, start, all) == form.bits
    ensures |CompressedForm(form.start, form.bits, |seen| - start, isLast)| < StoredBits(|seen| - start)
  {
    hide StoredBits, CompressedForm, BodyBits, Writable, SingleTreeForm;
    var trees, front :| SingleTreeForm(trees, front, seen, start, all, direct, postfix) &&
      Writable(trees, seen, start, all) &&
      Better(form, trees, front, BodyBits(trees, seen, start, all), seen[start..|seen|], isLast);
    codes := trees;
  }

  lemma LeastIsMade(job: G.Job, direct: nat, postfix: nat, bits: seq<bool>)
    requires EncoderForm(job, direct, postfix, bits) && job.commands != [] && |bits| < StoredBits(|job.chunk|)
    ensures var made := G.Smaller(EncoderTrees(direct, postfix), job); made.Some? && |made.value| <= |bits|
  {
    hide EncoderForm, StoredBits;
    var least := LeastExists(job, direct, postfix, bits);
  }

  lemma InsertWithin(env: Env, seen: seq<Byte>, f: Finder, p: Parse)
    requires GreedyParse.Parsed(env, seen, f.position, f.ring, p)
    ensures p.insertStart <= |seen|
  {
    hide Executes, RingAtEnd;
  }

  /** Its streams decompress to the input, exactly under the limits that let it through. */
  lemma EncoderRoundTrip(g: Given, windowBits: nat, env: Env, direct: nat, postfix: nat, input: seq<Byte>,
                         stream: seq<Byte>, limit: nat)
    requires Admissible(g.parser) && Understands(g.parser) && g.words == env.words
    requires 10 <= windowBits <= 24 && env.window == WindowSize(windowBits) && input != []
    requires BitsOf(stream) == G.StreamBits(env, EncoderTrees(direct, postfix), WindowHeader(windowBits), input)
    ensures Outcome(g, stream, limit) == if |input| <= limit then Ok(input) else Err(OutputLimitExceeded(limit))
  {
    hide *;
    EncoderHasSingleTrees(direct, postfix);
    SinglesAreHonest(g, windowBits, env, EncoderTrees(direct, postfix));
    var ring := StreamFollows(g, windowBits, env, EncoderTrees(direct, postfix), input);
    LimitDecides(g, stream, windowBits, ring, input, limit);
  }
}
