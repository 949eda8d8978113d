/** The match finder as the object it is (`src/encode/match_finder.rs`): bucket arrays written in place, and a parse
    whose nested loops do what the functions of `MatchFinder` and `GreedyParse` say. */
module HashedMatchFinder {
  import opened Arithmetic
  import opened Bytes
  import opened DictionaryMatches
  import opened Distances
  import opened CommandStream
  import opened MatchFinder
  import opened GreedyParse
  import opened MatchIndex
  import opened MatchCompaction
  import opened Outcomes

  lemma RemappedSlot(ix: Index, dropped: nat, key: nat, slot: nat)
    requires key < BUCKET_COUNT && slot < BLOCK_SIZE
    ensures var s := BLOCK_SIZE * key + slot;
            Remapped(ix, dropped).slots[s] == if slot < Min(ix.counts[key], BLOCK_SIZE) then Shift(ix.slots[s], dropped)
              else ix.slots[s]
  {
    hide Shift;
    SlotParts(key, slot);
  }

  lemma OneMoreSlot(a: seq<nat>, b: seq<nat>, i: nat)
    requires i < |a| == |b|
    ensures (a[..i] + b[i..])[i := a[i]] == a[..i + 1] + b[i + 1..]
  {
  }

  lemma EqualSlots(a: seq<nat>, b: seq<nat>, i: nat, j: nat)
    requires i <= j <= |a| == |b| && forall s :: i <= s < j ==> a[s] == b[s]
    ensures a[..i] + b[i..] == a[..j] + b[j..]
  {
  }

  /** An index nothing can be read from. */
  function BlankIndex(): Index
  {
    RawIndex(seq(BUCKET_COUNT, _ => 0), seq(BUCKET_COUNT * BLOCK_SIZE, _ => 0))
  }

  /** Bucket arrays and dictionary counters. */
  class QualityFiveHasher {
    const counts: array<nat>
    const buckets: array<nat>
    var search: SearchState

    ghost predicate Valid()
      reads this, counts, buckets
    {
      && counts.Length == BUCKET_COUNT && buckets.Length == BUCKET_COUNT * BLOCK_SIZE && counts != buckets
      && forall key :: 0 <= key < BUCKET_COUNT ==> counts[key] < COUNT_WRAP
    }

    ghost function Ix(): Index
      requires Valid()
      reads this, counts, buckets
    {
      RawIndex(counts[..], buckets[..])
    }

    ghost function View(): Core
      requires Valid()
      reads this, counts, buckets
    {
      Core(Ix(), search)
    }

    /** Whatever the slots hold at first, none can be read. */
    constructor ()
      ensures Valid() && fresh(counts) && fresh(buckets) && Tidy(Ix(), 0) && search == SearchState(0, 0)
      ensures Shadows(BlankIndex(), Ix(), 0)
    {
      counts := new nat[BUCKET_COUNT](_ => 0);
      buckets := new nat[BUCKET_COUNT * BLOCK_SIZE];
      search := SearchState(0, 0);
      new;
      FreshIsTidy(Ix(), 0);
      assert counts[..] == BlankIndex().counts;
    }

    /** A hashed position goes over the oldest one of its bucket. */
    method StoreAt(key: nat, position: nat)
      requires Valid() && key < BUCKET_COUNT
      modifies counts, buckets
      ensures Valid() && Ix() == Stored(old(Ix()), key, position)
    {
      var count := counts[key];
      var offset := BLOCK_SIZE * key + count % BLOCK_SIZE;
      buckets[offset] := position;
      counts[key] := (count + 1) % COUNT_WRAP;
    }

    method Store(input: seq<Byte>, position: nat)
      requires Valid() && position + 4 <= |input|
      modifies counts, buckets
      ensures Valid() && Ix() == Stored(old(Ix()), Hash4(input, position), position)
    {
      StoreAt(Hash4(input, position), position);
    }

    method StoreRange(input: seq<Byte>, start: nat, end: nat)
      requires Valid() && end + 4 <= |input| + 1
      modifies counts, buckets
      ensures Valid() && Ix() == GreedyParse.StoreRange(old(Ix()), input, start, end)
    {
      hide Stored, Hash4;
      var position := start;
      while position < end
        invariant Valid() && start <= position
        invariant GreedyParse.StoreRange(Ix(), input, position, end) ==
                  GreedyParse.StoreRange(old(Ix()), input, start, end)
        decreases end - position
      {
        Store(input, position);
        position := position + 1;
      }
    }

    /** Shifts the positions of every bucket that have been written. */
    method RemapPositions(dropped: nat)
      requires Valid()
      modifies buckets
      ensures Valid() && Ix() == Remapped(old(Ix()), dropped)
    {
      ghost var was := Ix();
      hide Shift, Remapped;
      for key := 0 to BUCKET_COUNT
        invariant Valid() && counts[..] == was.counts && |Remapped(was, dropped).slots| == buckets.Length
        invariant buckets[..] == Remapped(was, dropped).slots[..BLOCK_SIZE * key] + was.slots[BLOCK_SIZE * key..]
      {
        RemapBucket(key, dropped, was);
      }
    }

    /** The slots of one bucket below its count. */
    method RemapBucket(key: nat, dropped: nat, ghost was: Index)
      requires Valid() && key < BUCKET_COUNT && counts[..] == was.counts
      requires buckets[..] == Remapped(was, dropped).slots[..BLOCK_SIZE * key] + was.slots[BLOCK_SIZE * key..]
      modifies buckets
      ensures Valid()
      ensures buckets[..] == Remapped(was, dropped).slots[..BLOCK_SIZE * (key + 1)] +
              was.slots[BLOCK_SIZE * (key + 1)..]
    {
      hide Shift, Remapped;
      ghost var shifted, first := Remapped(was, dropped).slots, BLOCK_SIZE * key;
      var initialized := Min(counts[key], BLOCK_SIZE);
      for slot := 0 to initialized
        invariant Valid() && counts[..] == was.counts
        invariant buckets[..] == shifted[..first + slot] + was.slots[first + slot..]
      {
        var offset := BLOCK_SIZE * key + slot;
        RemappedSlot(was, dropped, key, slot);
        ghost var before := buckets[..];
        assert before[offset] == was.slots[offset];
        buckets[offset] := Shift(buckets[offset], dropped);
        assert buckets[..] == before[offset := shifted[offset]];
        OneMoreSlot(shifted, was.slots, offset);
      }
      forall s | first + initialized <= s < first + BLOCK_SIZE
        ensures shifted[s] == was.slots[s]
      {
        RemappedSlot(was, dropped, key, s - first);
      }
      EqualSlots(shifted, was.slots, first + initialized, first + BLOCK_SIZE);
    }

    /** The best match at a position: recent distances, bucket, dictionary. */
    method FindLongestMatch(env: Env, input: seq<Byte>, ring: Ring, position: nat) returns (result: Found)
      requires Valid() && position + 4 <= |input| && Tidy(Ix(), position)
      modifies this`search, counts, buckets
      ensures Valid() && (result, View()) == FindLongest(env, input, old(View()), ring, position)
    {
      hide Tidy, CheckRecent, CheckCandidate, Hash4, FindWord;
      ghost var was := Ix();
      var maxLength, maxBackward := |input| - position, Min(position, env.window);
      var key := Hash4(input, position);
      var count := counts[key];
      result := NothingFound();
      result := CheckRecent(input, ring.last, 0, position, maxLength, maxBackward, result);
      result := CheckRecent(input, ring.second, 1, position, maxLength, maxBackward, result);
      result := CheckRecent(input, ring.third, 2, position, maxLength, maxBackward, result);
      result := CheckRecent(input, ring.fourth, 3, position, maxLength, maxBackward, result);
      result := ScanBucket(env, input, key, position, maxLength, maxBackward, result);
      StoreAt(key, position);
      if result.score == MIN_SCORE {
        var (next, hit) := FindWord(env.words, env.table, search, input[position..], maxLength, maxBackward,
                                    env.maxDistance, MIN_SCORE);
        search := next;
        if hit.Some? {
          result := Found(hit.value.found.length, hit.value.found.lengthCode, hit.value.found.distance,
                          hit.value.score);
        }
      }
    }

    /** From the newest index down, over what has passed out of the window, to the first one too far back. */
    method ScanBucket(env: Env, input: seq<Byte>, key: nat, position: nat, maxLength: nat, maxBackward: nat,
                      best: Found) returns (result: Found)
      requires Valid() && key < BUCKET_COUNT && position + maxLength <= |input| && Tidy(Ix(), position)
      ensures result == Scan(input, Candidates(Ix(), key, env.searchDepth), position, maxLength, maxBackward, best)
    {
      hide CheckCandidate;
      result := best;
      var count := counts[key];
      var oldest := Oldest(count, env.searchDepth);
      var index := count;
      assert TidyBucket(Ix(), key, position);
      hide Tidy, TidyBucket;
      while index > oldest
        invariant oldest <= index <= count || index == count
        invariant Scan(input, Newest(Ix(), key, oldest, index), position, maxLength, maxBackward, result) ==
                  Scan(input, Candidates(Ix(), key, env.searchDepth), position, maxLength, maxBackward, best)
      {
        var previous := buckets[BLOCK_SIZE * key + (index - 1) % BLOCK_SIZE];
        ghost var rest := Newest(Ix(), key, oldest, index - 1);
        assert Newest(Ix(), key, oldest, index) == [previous] + rest && ([previous] + rest)[1..] == rest;
        CandidatesAreEarlier(Ix(), key, oldest, index, position);
        assert previous in Newest(Ix(), key, oldest, index);
        index := index - 1;
        if previous == NO_POSITION {
          continue;
        }
        assert previous < position;
        if position - previous > maxBackward {
          break;
        }
        result := CheckCandidate(input, previous, position, maxLength, result);
      }
    }
  }

  /** Parses one chunk per call, and keeps index, ring and skip limit from chunk to chunk. */
  class StreamingMatchFinder {
    const hasher: QualityFiveHasher
    const recentDistances: RecentDistances
    const env: Env
    var position: nat
    var skipLimit: nat

    /** The objects the finder is made of. */
    ghost function Repr(): set<object>
    {
      {this, hasher, hasher.counts, hasher.buckets, recentDistances}
    }

    ghost predicate Valid()
      reads Repr()
    {
      hasher.Valid()
    }

    ghost function View(): Finder
      requires Valid()
      reads Repr()
    {
      Finder(hasher.View(), recentDistances.ring, position, skipLimit)
    }

    constructor (e: Env)
      ensures Valid() && fresh(Repr()) && env == e && View() == FreshFinder(View().core.ix) && Tidy(View().core.ix, 0)
      ensures FinderShadows(FreshFinder(BlankIndex()), View(), 0)
    {
      hasher := new QualityFiveHasher();
      recentDistances := new RecentDistances();
      env := e;
      position := 0;
      skipLimit := RANDOM_HEURISTICS_WINDOW;
    }

    /** The caller has dropped bytes from the front of its window. */
    method Compact(dropped: nat)
      requires Valid()
      modifies Repr()
      ensures Valid() && View() == Compacted(old(View()), dropped)
    {
      hasher.RemapPositions(dropped);
      position := Saturating(position, dropped);
      skipLimit := Saturating(skipLimit, dropped);
    }

    method RestoreDistances(snapshot: Ring)
      requires Valid()
      modifies recentDistances
      ensures Valid() && View() == old(View()).(ring := snapshot)
    {
      recentDistances.Restore(snapshot);
    }

    /** Parses the chunk from the current position to the end of the input. */
    method ParseChunk(input: seq<Byte>) returns (commands: seq<StreamCommand>, tailStart: nat)
      requires Valid() && position <= |input| <= NO_POSITION && Tidy(View().core.ix, position)
      modifies Repr()
      ensures Valid()
      ensures var p := ParseFrom(env, input, old(View()));
              View() == After(input, p) && commands == p.commands && tailStart == p.insertStart
    {
      hide Tidy, Round;
      var start := position;
      position := |input|;
      commands, tailStart := [], start;
      if |input| <= HASH_TYPE_LENGTH {
        return;
      }
      var at, limit := start, skipLimit;
      ghost var first := Parse(hasher.View(), recentDistances.ring, start, start, limit, []);
      while at + HASH_TYPE_LENGTH < |input|
        invariant Valid() && position == |input| && tailStart <= at <= |input|
        invariant Tidy(hasher.Ix(), at)
        invariant Rounds(env, input, Parse(hasher.View(), recentDistances.ring, at, tailStart, limit, commands)) ==
                  Rounds(env, input, first)
        decreases |input| - at
      {
        ghost var st := Parse(hasher.View(), recentDistances.ring, at, tailStart, limit, commands);
        RoundTidy(env, input, st);
        at, tailStart, limit, commands := OneRound(input, at, tailStart, limit, commands);
      }
      skipLimit := limit;
    }

    /** One search, and a match taken or bytes skipped. */
    method OneRound(input: seq<Byte>, at: nat, insertStart: nat, limit: nat, commands: seq<StreamCommand>)
      returns (next: nat, nextInsert: nat, nextLimit: nat, more: seq<StreamCommand>)
      requires Valid() && insertStart <= at && at + 4 < |input| <= NO_POSITION && Tidy(hasher.Ix(), at)
      modifies hasher, hasher.counts, hasher.buckets, recentDistances
      ensures Valid() && Parse(hasher.View(), recentDistances.ring, next, nextInsert, nextLimit, more) ==
                         Round(env, input, Parse(old(hasher.View()), old(recentDistances.ring), at, insertStart, limit,
                                                 commands))
    {
      hide Tidy, FindLongest, Delay, TakeMatch, SkipOn, TrueFound;
      ghost var st := Parse(hasher.View(), recentDistances.ring, at, insertStart, limit, commands);
      FindTidy(env, input, hasher.View(), recentDistances.ring, at, at);
      FoundIsTrue(env, input, hasher.View(), recentDistances.ring, at);
      var result := hasher.FindLongestMatch(env, input, recentDistances.ring, at);
      if result.score > MIN_SCORE {
        DelayIsTrue(env, input, hasher.View(), recentDistances.ring, at, result, 0);
        var position, found := ChooseLazily(input, at, result);
        ghost var m := Chosen(hasher.View(), position, found);
        var command := TakeCommand(input, position, found, insertStart, st, m);
        more := commands + [command];
        next := position + found.length;
        nextInsert := next;
        nextLimit := position + 2 * found.length + RANDOM_HEURISTICS_WINDOW;
      } else {
        next := SkipAhead(input, at, limit, st);
        nextInsert, nextLimit, more := insertStart, limit, commands;
      }
    }

    /** As long as the next position has a match that is enough better, it is taken instead. */
    method ChooseLazily(input: seq<Byte>, at: nat, first: Found) returns (position: nat, result: Found)
      requires Valid() && at + 4 < |input| <= NO_POSITION && Tidy(hasher.Ix(), at + 1)
      modifies hasher, hasher.counts, hasher.buckets
      ensures Valid()
      ensures Chosen(hasher.View(), position, result) == Delay(env, input, old(hasher.View()), recentDistances.ring, at,
                                                               first, 0)
    {
      hide Tidy, FindLongest;
      position, result := at, first;
      var delayed := 0;
      while delayed < env.maxLazyDelays
        invariant Valid() && position + 4 < |input| && Tidy(hasher.Ix(), position + 1)
        invariant Delay(env, input, hasher.View(), recentDistances.ring, position, result, delayed) ==
                  Delay(env, input, old(hasher.View()), recentDistances.ring, at, first, 0)
      {
        FindTidy(env, input, hasher.View(), recentDistances.ring, position + 1, position + 1);
        var next := hasher.FindLongestMatch(env, input, recentDistances.ring, position + 1);
        if next.score >= result.score + LAZY_SCORE_DELTA {
          position, result, delayed := position + 1, next, delayed + 1;
          if position + HASH_TYPE_LENGTH >= |input| {
            break;
          }
        } else {
          break;
        }
      }
    }

    /** The command of a match: its distance code, the ring, and the positions inside it. */
    method TakeCommand(input: seq<Byte>, position: nat, found: Found, insertStart: nat, ghost st: Parse,
                       ghost m: Chosen) returns (c: StreamCommand)
      requires Valid() && position + 4 <= |input| && insertStart <= position
      requires m == Chosen(hasher.View(), position, found) && st.insertStart == insertStart &&
               st.ring == recentDistances.ring
      modifies hasher, hasher.counts, hasher.buckets, recentDistances
      ensures Valid()
      ensures var r := TakeMatch(env, input, st, m);
              && r.core == hasher.View() && r.ring == recentDistances.ring && r.commands == st.commands + [c]
              && r.skipLimit == position + 2 * found.length + RANDOM_HEURISTICS_WINDOW
    {
      hide ComputeCode, Stored, GreedyParse.StoreRange;
      var maxBackward := Min(position, env.window);
      var distanceCode := ComputeCode(recentDistances.ring, found.distance, maxBackward);
      if found.distance <= maxBackward && distanceCode != 0 {
        recentDistances.Push(found.distance);
      }
      c := StreamCommand(position - insertStart, found.length, found.lengthCode, found.distance, distanceCode);
      var rangeEnd := Min(position + found.length, |input| - STORE_LOOKAHEAD + 1);
      var rangeStart := RangeStart(position, found.length, found.distance, rangeEnd);
      hasher.StoreRange(input, rangeStart, rangeEnd);
    }

    /** One byte on, or strides of stored positions where nothing has been found for long. */
    method SkipAhead(input: seq<Byte>, at: nat, limit: nat, ghost st: Parse) returns (next: nat)
      requires Valid() && at + 4 < |input| && st.position == at && st.skipLimit == limit
      modifies hasher, hasher.counts, hasher.buckets
      ensures Valid() && SkipOn(input, st, old(hasher.View())) == st.(core := hasher.View(), position := next)
    {
      hide Jump;
      next := at + 1;
      if next > limit {
        if next > limit + 4 * RANDOM_HEURISTICS_WINDOW {
          next := StoreStrides(input, next, Min(next + 16, |input| - 4), 4);
        } else {
          next := StoreStrides(input, next, Min(next + 8, |input| - 3), 2);
        }
      }
    }

    method StoreStrides(input: seq<Byte>, start: nat, jumpEnd: nat, stride: nat) returns (position: nat)
      requires Valid() && stride > 0 && jumpEnd + 3 <= |input| && jumpEnd + stride <= |input| + 1
      modifies hasher, hasher.counts, hasher.buckets
      ensures Valid() && (hasher.Ix(), position) == Jump(old(hasher.Ix()), input, start, jumpEnd, stride)
      ensures hasher.search == old(hasher.search)
    {
      hide Stored, Hash4;
      position := start;
      while position < jumpEnd
        invariant Valid() && hasher.search == old(hasher.search)
        invariant Jump(hasher.Ix(), input, position, jumpEnd, stride) ==
                  Jump(old(hasher.Ix()), input, start, jumpEnd, stride)
        decreases jumpEnd - position
      {
        hasher.Store(input, position);
        position := position + stride;
      }
    }
  }

  /** A finder at the start of a stream. */
  function FreshFinder(ix: Index): Finder
  {
    Finder(Core(ix, SearchState(0, 0)), InitialRing(), 0, RANDOM_HEURISTICS_WINDOW)
  }
}
