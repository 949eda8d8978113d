/** The greedy parse of one chunk (`src/encode/match_finder.rs`): lazy matching, storing inside matches, skipping
    where nothing is found; and why its commands tile the chunk and are executed to it. */
module GreedyParse {
  import opened Arithmetic
  import opened Bytes
  import opened Dictionary
  import opened DictionaryMatches
  import opened Distances
  import opened CommandStream
  import opened MatchFinder

  /** What the finder keeps from chunk to chunk. */
  datatype Finder = Finder(core: Core, ring: Ring, position: nat, skipLimit: nat)

  /** Where the parse of a chunk stands. */
  datatype Parse = Parse(core: Core, ring: Ring, position: nat, insertStart: nat, skipLimit: nat,
                         commands: seq<StreamCommand>)

  /** Stores successive positions. */
  function StoreRange(ix: Index, input: seq<Byte>, start: nat, end: nat): Index
    requires end + 4 <= |input| + 1
    decreases end - start
  {
    if start >= end then ix else StoreRange(Stored(ix, Hash4(input, start), start), input, start + 1, end)
  }

  /** A match and where it starts, after looking for better ones behind it. */
  datatype Chosen = Chosen(core: Core, position: nat, found: Found)

  /** The match at the next position, if it is enough better, a few times over. */
  function Delay(env: Env, input: seq<Byte>, core: Core, ring: Ring, position: nat, found: Found,
                 delayed: nat): (r: Chosen)
    requires position + 4 < |input|
    ensures position <= r.position && r.position + 4 <= |input|
    decreases |input| - position
  {
    if delayed >= env.maxLazyDelays then Chosen(core, position, found)
    else
      var (next, later) := FindLongest(env, input, core, ring, position + 1);
      if next.score < found.score + LAZY_SCORE_DELTA then Chosen(later, position, found)
      else if position + 1 + 4 >= |input| then Chosen(later, position + 1, next)
      else Delay(env, input, later, ring, position + 1, next, delayed + 1)
  }

  /** The positions inside a match that are stored: not all of them if it overlaps itself a lot. */
  function RangeStart(position: nat, length: nat, distance: nat, rangeEnd: nat): nat
  {
    if distance < length / 4 then
      var late := position + length - 4 * distance;
      var start := if position + 2 < late then late else position + 2;
      if start < rangeEnd then start else rangeEnd
    else position + 2
  }

  /** A match becomes a command. */
  function TakeMatch(env: Env, input: seq<Byte>, st: Parse, m: Chosen): (r: Parse)
    requires m.position + 4 <= |input| && st.insertStart <= m.position
    ensures r.position == r.insertStart == m.position + m.found.length
  {
    var reach := Min(m.position, env.window);
    var code := ComputeCode(st.ring, m.found.distance, reach);
    var c := StreamCommand(m.position - st.insertStart, m.found.length, m.found.lengthCode, m.found.distance, code);
    var ring := if m.found.distance <= reach && code != 0 then st.ring.Pushed(m.found.distance) else st.ring;
    var rangeEnd := Min(m.position + m.found.length, |input| - STORE_LOOKAHEAD + 1);
    var ix := StoreRange(m.core.ix, input, RangeStart(m.position, m.found.length, m.found.distance, rangeEnd),
                         rangeEnd);
    Parse(m.core.(ix := ix), ring, m.position + m.found.length, m.position + m.found.length,
          m.position + 2 * m.found.length + RANDOM_HEURISTICS_WINDOW, st.commands + [c])
  }

  /** Strides over positions that are stored but not searched. */
  function Jump(ix: Index, input: seq<Byte>, position: nat, jumpEnd: nat, stride: nat): (r: (Index, nat))
    requires stride > 0 && jumpEnd + 3 <= |input| && jumpEnd + stride <= |input| + 1
    ensures position <= r.1 && (r.1 <= |input| || r.1 == position)
    decreases jumpEnd - position
  {
    if position >= jumpEnd then (ix, position)
    else Jump(Stored(ix, Hash4(input, position), position), input, position + stride, jumpEnd, stride)
  }

  function Saturating(a: nat, b: nat): nat
  {
    if a < b then 0 else a - b
  }

  /** Nothing found: one byte on, and faster the longer nothing has been found. */
  function SkipOn(input: seq<Byte>, st: Parse, core: Core): (r: Parse)
    requires st.position + 4 < |input|
    ensures st.position < r.position <= |input| && r.insertStart == st.insertStart && r.commands == st.commands &&
            r.ring == st.ring
  {
    var position := st.position + 1;
    if position <= st.skipLimit then st.(core := core, position := position)
    else if position > st.skipLimit + 4 * RANDOM_HEURISTICS_WINDOW then
      var (ix, p) := Jump(core.ix, input, position, Min(position + 16, |input| - 4), 4);
      st.(core := core.(ix := ix), position := p)
    else
      var (ix, p) := Jump(core.ix, input, position, Min(position + 8, |input| - 3), 2);
      st.(core := core.(ix := ix), position := p)
  }

  /** One round of the parse. */
  function Round(env: Env, input: seq<Byte>, st: Parse): (r: Parse)
    requires st.position + 4 < |input| && st.insertStart <= st.position
    ensures st.position < r.position <= |input| && r.insertStart <= r.position
  {
    var (found, core) := FindLongest(env, input, st.core, st.ring, st.position);
    if found.score > MIN_SCORE then
      var m := Delay(env, input, core, st.ring, st.position, found, 0);
      FoundIsTrue(env, input, st.core, st.ring, st.position);
      DelayIsTrue(env, input, core, st.ring, st.position, found, 0);
      TakeMatch(env, input, st, m)
    else SkipOn(input, st, core)
  }

  /** The chosen match is as true as the first one. */
  lemma {:induction false} DelayIsTrue(env: Env, input: seq<Byte>, core: Core, ring: Ring, position: nat, found: Found,
                                       delayed: nat)
    requires position + 4 < |input| && found.score > MIN_SCORE && TrueFound(env, input, position, found)
    ensures var m := Delay(env, input, core, ring, position, found, delayed);
            m.found.score > MIN_SCORE && TrueFound(env, input, m.position, m.found) &&
              2 <= m.found.length <= |input| - m.position
    decreases |input| - position
  {
    hide FindLongest;
    assert found.length <= |input| - position && 2 <= found.length;
    hide TrueFound;
    if delayed < env.maxLazyDelays {
      var (next, later) := FindLongest(env, input, core, ring, position + 1);
      FoundIsTrue(env, input, core, ring, position + 1);
      if next.score >= found.score + LAZY_SCORE_DELTA {
        if position + 1 + 4 >= |input| {
          LengthInside(env, input, position + 1, next);
        } else {
          DelayIsTrue(env, input, later, ring, position + 1, next, delayed + 1);
        }
      }
    }
  }

  lemma LengthInside(env: Env, input: seq<Byte>, position: nat, r: Found)
    requires position <= |input| && TrueFound(env, input, position, r)
    ensures 2 <= r.length <= |input| - position
  {
    hide TrueCopy, Transform;
  }

  /** Rounds until fewer than five bytes are left. */
  function Rounds(env: Env, input: seq<Byte>, st: Parse): (r: Parse)
    requires st.insertStart <= st.position <= |input|
    ensures r.insertStart <= r.position <= |input| && r.position + 4 >= |input|
    decreases |input| - st.position
  {
    if st.position + HASH_TYPE_LENGTH >= |input| then st else Rounds(env, input, Round(env, input, st))
  }

  /** The parse of the chunk from where the finder stands to the end of the input. */
  function ParseFrom(env: Env, input: seq<Byte>, f: Finder): (r: Parse)
    requires f.position <= |input|
    ensures r.insertStart <= |input|
  {
    var st := Parse(f.core, f.ring, f.position, f.position, f.skipLimit, []);
    if |input| <= HASH_TYPE_LENGTH then st else Rounds(env, input, st)
  }

  /** The finder after the chunk. */
  function After(input: seq<Byte>, p: Parse): Finder
  {
    Finder(p.core, p.ring, |input|, p.skipLimit)
  }

  /** The commands with what is left over as literals. */
  function WithTail(commands: seq<StreamCommand>, tail: nat): seq<StreamCommand>
  {
    if tail == 0 then commands else commands + [StreamCommand(tail, 0, 0, 0, 0)]
  }

  ghost predicate AllCopies(commands: seq<StreamCommand>)
  {
    forall i :: 0 <= i < |commands| ==> commands[i].copyLen > 0
  }

  /** One more copy at the end. */
  lemma {:induction false} ExecutesCopy(words: Words, window: nat, before: seq<Byte>, input: seq<Byte>, at: nat,
                                        commands: seq<StreamCommand>, end: nat,
                                        ring: Ring, c: StreamCommand)
    requires Executes(words, window, before, input, at, commands, end, ring) && AllCopies(commands) && c.copyLen > 0
    requires Reproduces(words, window, before, input, end + c.insertLen, c)
    requires Named(RingAtEnd(ring, |before| + at, commands, window), c.distance, c.distanceCode)
    ensures Executes(words, window, before, input, at, commands + [c], end + c.insertLen + c.copyLen, ring) &&
            AllCopies(commands + [c])
    ensures RingAtEnd(ring, |before| + at, commands + [c], window) ==
            RingAfter(RingAtEnd(ring, |before| + at, commands, window), c,
                      ReachAt(|before| + end + c.insertLen, window))
    decreases |commands|
  {
    hide Reproduces, Named, RingAfter, ReachAt;
    if commands != [] {
      var d := commands[0];
      var p := at + d.insertLen;
      ExecutesCopy(words, window, before, input, p + d.copyLen, commands[1..], end,
                   RingAfter(ring, d, ReachAt(|before| + p, window)), c);
      assert (commands + [c])[1..] == commands[1..] + [c];
      assert |before| + at + d.insertLen + d.copyLen == |before| + (p + d.copyLen) &&
             |before| + at + d.insertLen == |before| + p;
    } else {
      assert ([] + [c])[1..] == [];
    }
  }

  /** The literals left over. */
  lemma {:induction false} ExecutesTail(words: Words, window: nat, before: seq<Byte>, input: seq<Byte>, at: nat,
                                        commands: seq<StreamCommand>, end: nat,
                                        ring: Ring, n: nat)
    requires Executes(words, window, before, input, at, commands, end, ring) && AllCopies(commands)
    ensures Executes(words, window, before, input, at, WithTail(commands, n), end + n, ring)
    ensures RingAtEnd(ring, |before| + at, WithTail(commands, n), window) ==
            RingAtEnd(ring, |before| + at, commands, window)
    decreases |commands|
  {
    hide Reproduces, Named, ReachAt;
    if n > 0 {
      var c := StreamCommand(n, 0, 0, 0, 0);
      if commands != [] {
        hide RingAfter;
        var d := commands[0];
        var p := at + d.insertLen;
        ExecutesTail(words, window, before, input, p + d.copyLen, commands[1..], end,
                     RingAfter(ring, d, ReachAt(|before| + p, window)), n);
        assert (commands + [c])[1..] == commands[1..] + [c];
        assert |before| + at + d.insertLen + d.copyLen == |before| + (p + d.copyLen) &&
               |before| + at + d.insertLen == |before| + p;
      } else {
        assert ([] + [c])[1..] == [];
      }
    }
  }

  /** The commands so far are executed to the bytes before the pending literals, from the ring at the chunk's
      start to the ring now. */
  ghost predicate Parsed(env: Env, input: seq<Byte>, start: nat, ring: Ring, st: Parse)
  {
    && st.insertStart <= |input| && AllCopies(st.commands)
    && Executes(env.words, env.window, [], input, start, st.commands, st.insertStart, ring)
    && st.ring == RingAtEnd(ring, start, st.commands, env.window)
    && forall i :: 0 <= i < |st.commands| ==>
         2 <= st.commands[i].copyCode <= (if |input| > MAX_WORD_LENGTH then |input| else MAX_WORD_LENGTH) &&
         (st.commands[i].distance <= env.window || st.commands[i].distance <= env.maxDistance)
  }

  /** A true match, as a command. */
  lemma FoundReproduces(env: Env, input: seq<Byte>, position: nat, r: Found, c: StreamCommand)
    requires position <= |input| && TrueFound(env, input, position, r)
    requires c.copyLen == r.length && c.copyCode == r.lengthCode && c.distance == r.distance
    ensures Reproduces(env.words, env.window, [], input, position, c)
    ensures 2 <= c.copyCode <= (if |input| > MAX_WORD_LENGTH then |input| else MAX_WORD_LENGTH)
    ensures c.distance <= env.window || c.distance <= env.maxDistance
  {
    hide Transform;
    assert [] + input == input;
  }

  lemma TakeMatchParses(env: Env, input: seq<Byte>, start: nat, ring: Ring, st: Parse, m: Chosen)
    requires Parsed(env, input, start, ring, st) && m.position + 4 <= |input| && st.insertStart <= m.position
    requires TrueFound(env, input, m.position, m.found) && m.found.length <= |input| - m.position
    ensures Parsed(env, input, start, ring, TakeMatch(env, input, st, m))
  {
    hide StoreRange, ComputeCode, RangeStart, Executes, RingAtEnd, Reproduces, Named, Min, Transform, TrueCopy;
    assert m.found.distance > 0 && m.found.length >= 2;
    hide TrueFound;
    var reach := Min(m.position, env.window);
    var code := ComputeCode(st.ring, m.found.distance, reach);
    var c := StreamCommand(m.position - st.insertStart, m.found.length, m.found.lengthCode, m.found.distance, code);
    FoundReproduces(env, input, m.position, m.found, c);
    RingCode(st.ring, c.distance, reach);
    ExecutesCopy(env.words, env.window, [], input, start, st.commands, st.insertStart, ring, c);
  }

  lemma RingCode(ring: Ring, distance: nat, reach: nat)
    requires distance > 0
    ensures Named(ring, distance, ComputeCode(ring, distance, reach))
  {
    RingRoundTrip(ring, distance, reach);
  }

  lemma {:induction false} RoundsParse(env: Env, input: seq<Byte>, start: nat, ring: Ring, st: Parse)
    requires st.insertStart <= st.position <= |input| && Parsed(env, input, start, ring, st)
    ensures Parsed(env, input, start, ring, Rounds(env, input, st))
    decreases |input| - st.position
  {
    hide Parsed, FindLongest, Delay, TrueFound, TakeMatch, SkipOn;
    if st.position + HASH_TYPE_LENGTH < |input| {
      var (found, core) := FindLongest(env, input, st.core, st.ring, st.position);
      var next := Round(env, input, st);
      if found.score > MIN_SCORE {
        FoundIsTrue(env, input, st.core, st.ring, st.position);
        DelayIsTrue(env, input, core, st.ring, st.position, found, 0);
        TakeMatchParses(env, input, start, ring, st, Delay(env, input, core, st.ring, st.position, found, 0));
      } else {
        SkipParses(env, input, start, ring, st, core);
      }
      RoundsParse(env, input, start, ring, next);
    }
  }

  lemma SkipParses(env: Env, input: seq<Byte>, start: nat, ring: Ring, st: Parse, core: Core)
    requires st.position + 4 < |input| && Parsed(env, input, start, ring, st)
    ensures Parsed(env, input, start, ring, SkipOn(input, st, core))
  {
    hide Executes, RingAtEnd, AllCopies, SkipOn;
  }

  lemma NothingParsed(env: Env, input: seq<Byte>, st: Parse)
    requires st.insertStart <= |input| && st.commands == []
    ensures Parsed(env, input, st.insertStart, st.ring, st)
  {
  }

  lemma ChunkParsed(env: Env, input: seq<Byte>, f: Finder)
    requires f.position <= |input|
    ensures Parsed(env, input, f.position, f.ring, ParseFrom(env, input, f))
  {
    hide Parsed, Rounds;
    var st := Parse(f.core, f.ring, f.position, f.position, f.skipLimit, []);
    NothingParsed(env, input, st);
    if |input| > HASH_TYPE_LENGTH {
      RoundsParse(env, input, f.position, f.ring, st);
    }
  }

  lemma TailParsed(env: Env, input: seq<Byte>, start: nat, ring: Ring, p: Parse)
    requires Parsed(env, input, start, ring, p)
    ensures p.insertStart <= |input|
    ensures Executes(env.words, env.window, [], input, start, WithTail(p.commands, |input| - p.insertStart), |input|,
                     ring)
    ensures RingAtEnd(ring, start, WithTail(p.commands, |input| - p.insertStart), env.window) == p.ring
  {
    hide Executes, RingAtEnd, AllCopies, WithTail;
    ExecutesTail(env.words, env.window, [], input, start, p.commands, p.insertStart, ring, |input| - p.insertStart);
  }

  /** Whatever index and ring a chunk starts with, its commands tile it, each is a true copy within reach or
      a dictionary word, and the ring they lead to is the finder's. */
  lemma ParseIsTrue(env: Env, input: seq<Byte>, f: Finder)
    requires f.position <= |input|
    ensures var p := ParseFrom(env, input, f);
            var commands := WithTail(p.commands, |input| - p.insertStart);
            && Executes(env.words, env.window, [], input, f.position, commands, |input|, f.ring)
            && RingAtEnd(f.ring, f.position, commands, env.window) == p.ring
            && Parsed(env, input, f.position, f.ring, p)
  {
    hide *;
    ChunkParsed(env, input, f);
    TailParsed(env, input, f.position, f.ring, ParseFrom(env, input, f));
  }
}
