/** Compaction of the match finder (`src/encode/match_finder.rs`): dropping history and shifting every position that
    can be read changes neither a search nor a parse, as long as the window is kept. */
module MatchCompaction {
  import opened Arithmetic
  import opened Bytes
  import opened DictionaryMatches
  import opened Distances
  import opened MatchFinder
  import opened GreedyParse
  import opened MatchIndex

  /** Where a position ends up when `dropped` bytes go from the front. */
  function Shift(position: nat, dropped: nat): nat
  {
    if position == NO_POSITION || position < dropped then NO_POSITION else position - dropped
  }

  /** How many slots of a bucket are shifted: those below its count. */
  function Initialized(count: nat): nat
  {
    Min(count, BLOCK_SIZE)
  }

  function Remapped(ix: Index, dropped: nat): Index
  {
    RawIndex(ix.counts, seq(|ix.slots|, s requires 0 <= s < |ix.slots| =>
      if s % BLOCK_SIZE < Initialized(ix.counts[s / BLOCK_SIZE]) then Shift(ix.slots[s], dropped) else ix.slots[s]))
  }

  /** The finder after the caller has dropped bytes from the front of its window. */
  function Compacted(f: Finder, dropped: nat): Finder
  {
    Finder(f.core.(ix := Remapped(f.core.ix, dropped)), f.ring, Saturating(f.position, dropped),
           Saturating(f.skipLimit, dropped))
  }

  ghost predicate BucketShadows(full: Index, kept: Index, key: nat, dropped: nat)
    requires key < BUCKET_COUNT
  {
    forall i :: Readable(full.counts[key], i) ==>
      kept.slots[SlotAt(key, i)] == Shift(full.slots[SlotAt(key, i)], dropped)
  }

  /** Equal counts, and every slot that can be read is the other's, shifted. */
  ghost predicate Shadows(full: Index, kept: Index, dropped: nat)
  {
    full.counts == kept.counts && forall key :: 0 <= key < BUCKET_COUNT ==> BucketShadows(full, kept, key, dropped)
  }

  lemma SlotParts(key: nat, i: nat)
    ensures SlotAt(key, i) / BLOCK_SIZE == key && SlotAt(key, i) % BLOCK_SIZE == i % BLOCK_SIZE
  {
  }

  /** Every slot that can be read is shifted, however often the count has wrapped. */
  lemma ReadableIsRemapped(ix: Index, dropped: nat, key: nat, i: nat)
    requires key < BUCKET_COUNT && Readable(ix.counts[key], i)
    ensures Remapped(ix, dropped).slots[SlotAt(key, i)] == Shift(ix.slots[SlotAt(key, i)], dropped)
  {
    SlotParts(key, i);
    assert i % BLOCK_SIZE < Initialized(ix.counts[key]);
  }

  lemma ShiftTwice(position: nat, dropped: nat, more: nat)
    requires position <= NO_POSITION
    ensures Shift(Shift(position, dropped), more) == Shift(position, dropped + more)
  {
  }

  /** Compacting again only drops more. */
  lemma RemappedShadows(full: Index, kept: Index, dropped: nat, more: nat, bound: nat)
    requires Shadows(full, kept, dropped) && Tidy(full, bound)
    ensures Shadows(full, Remapped(kept, more), dropped + more)
  {
    hide SlotAt, Remapped, Shift;
    var next := Remapped(kept, more);
    assert next.counts == kept.counts by {
      RemappedCounts(kept, more);
    }
    forall key {:trigger BucketShadows(full, next, key, dropped + more)} | 0 <= key < BUCKET_COUNT
      ensures BucketShadows(full, next, key, dropped + more)
    {
      assert TidyBucket(full, key, bound) && BucketShadows(full, kept, key, dropped);
      forall i | Readable(full.counts[key], i)
        ensures next.slots[SlotAt(key, i)] == Shift(full.slots[SlotAt(key, i)], dropped + more)
      {
        ReadableIsRemapped(kept, more, key, i);
        ShiftTwice(full.slots[SlotAt(key, i)], dropped, more);
      }
    }
  }

  /** A compacted index is tidy again. */
  lemma RemappedTidy(ix: Index, dropped: nat, bound: nat)
    requires Tidy(ix, bound)
    ensures Tidy(Remapped(ix, dropped), Saturating(bound, dropped))
  {
    hide SlotAt, Remapped;
    var next, later := Remapped(ix, dropped), Saturating(bound, dropped);
    RemappedCounts(ix, dropped);
    forall key {:trigger TidyBucket(next, key, later)} | 0 <= key < BUCKET_COUNT
      ensures TidyBucket(next, key, later)
    {
      assert TidyBucket(ix, key, bound);
      forall i | Readable(ix.counts[key], i)
        ensures next.slots[SlotAt(key, i)] == Shift(ix.slots[SlotAt(key, i)], dropped)
      {
        ReadableIsRemapped(ix, dropped, key, i);
      }
    }
  }

  lemma RemappedCounts(ix: Index, dropped: nat)
    ensures Remapped(ix, dropped).counts == ix.counts
  {
  }

  /** An index is its own shadow when nothing has been dropped. */
  lemma ShadowsItself(ix: Index)
    ensures Shadows(ix, ix, 0)
  {
  }

  /** The same position enters both. */
  lemma StoredShadows(full: Index, kept: Index, dropped: nat, key: nat, position: nat)
    requires Shadows(full, kept, dropped) && key < BUCKET_COUNT && dropped <= position < NO_POSITION
    ensures Shadows(Stored(full, key, position), Stored(kept, key, position - dropped), dropped)
  {
    var a, b := Stored(full, key, position), Stored(kept, key, position - dropped);
    forall k {:trigger BucketShadows(a, b, k, dropped)} | 0 <= k < BUCKET_COUNT
      ensures BucketShadows(a, b, k, dropped)
    {
      assert BucketShadows(full, kept, k, dropped);
      forall i | Readable(a.counts[k], i)
        ensures b.slots[SlotAt(k, i)] == Shift(a.slots[SlotAt(k, i)], dropped)
      {
        StoredSlot(full, key, position, k, i);
        StoredSlot(kept, key, position - dropped, k, i);
      }
    }
  }

  /** Both hash the same bytes. */
  lemma SameHash(input: seq<Byte>, dropped: nat, position: nat)
    requires dropped <= position && position + 4 <= |input|
    ensures Hash4(input[dropped..], position - dropped) == Hash4(input, position)
  {
    hide LoadLe;
    assert input[dropped..][position - dropped..position - dropped + 4] == input[position..position + 4];
  }

  lemma {:induction false} SameLcp(input: seq<Byte>, dropped: nat, a: nat, b: nat, limit: nat)
    requires dropped <= a && dropped <= b && a + limit <= |input| && b + limit <= |input|
    ensures Lcp(input[dropped..], a - dropped, b - dropped, limit) == Lcp(input, a, b, limit)
    decreases limit
  {
    if limit > 0 && input[a] == input[b] {
      SameLcp(input, dropped, a + 1, b + 1, limit - 1);
    }
  }

  /** The window reaches back equally far: nothing has been dropped, or a whole window is left. */
  predicate KeepsWindow(window: nat, position: nat, dropped: nat)
  {
    dropped <= position && (dropped == 0 || window <= position - dropped)
  }

  lemma SameRecent(input: seq<Byte>, dropped: nat, backward: nat, i: nat, position: nat, maxLength: nat,
                   maxBackward: nat, best: Found)
    requires position + maxLength <= |input| && dropped <= position && maxBackward <= position - dropped &&
             best.length <= maxLength
    ensures CheckRecent(input[dropped..], backward, i, position - dropped, maxLength, maxBackward, best) ==
            CheckRecent(input, backward, i, position, maxLength, maxBackward, best)
  {
    hide Lcp;
    if 0 < backward <= maxBackward {
      SameLcp(input, dropped, position - backward, position, maxLength);
      assert position - dropped - backward == position - backward - dropped;
    }
  }

  lemma SameCandidate(input: seq<Byte>, dropped: nat, previous: nat, position: nat, maxLength: nat, best: Found)
    requires dropped <= previous < position && position + maxLength <= |input| && best.length <= maxLength
    ensures CheckCandidate(input[dropped..], previous - dropped, position - dropped, maxLength, best) ==
            CheckCandidate(input, previous, position, maxLength, best)
  {
    hide Lcp, BackwardReferenceScore;
    SameLcp(input, dropped, previous, position, maxLength);
    var comparison := if best.length < 3 then 3 else best.length;
    if comparison < maxLength {
      var a, b := position + comparison - 3, previous + comparison - 3;
      assert input[dropped..][a - dropped..a - dropped + 4] == input[a..a + 4];
      assert input[dropped..][b - dropped..b - dropped + 4] == input[b..b + 4];
    }
  }

  /** Ever older positions below the bound, and then the ones passed out of the window. */
  ghost predicate Descending(candidates: seq<nat>, bound: nat)
  {
    candidates != [] ==>
      if candidates[0] == NO_POSITION then Descending(candidates[1..], 0)
      else candidates[0] < bound && Descending(candidates[1..], candidates[0])
  }

  lemma DescendingBelow(candidates: seq<nat>, bound: nat, later: nat)
    requires Descending(candidates, bound) && bound <= later
    ensures Descending(candidates, later)
  {
  }

  /** The candidates of a tidy bucket grow older. */
  lemma {:induction false} NewestDescend(ix: Index, key: nat, oldest: nat, index: nat, bound: nat)
    requires key < BUCKET_COUNT && TidyBucket(ix, key, bound) && index <= ix.counts[key] <= oldest + BLOCK_SIZE
    ensures Descending(Newest(ix, key, oldest, index),
                       if index == 0 || index == ix.counts[key] then bound
                       else if ix.slots[SlotAt(key, index)] == NO_POSITION then 0 else ix.slots[SlotAt(key, index)])
    decreases index
  {
    hide SlotAt;
    if oldest < index {
      assert Readable(ix.counts[key], index - 1) && (index < ix.counts[key] ==> Readable(ix.counts[key], index));
      NewestDescend(ix, key, oldest, index - 1, bound);
      var rest := Newest(ix, key, oldest, index - 1);
      assert ([ix.slots[SlotAt(key, index - 1)]] + rest)[1..] == rest;
      if oldest == index - 1 {
        assert rest == [];
      }
    }
  }

  /** As soon as a candidate is before the kept bytes, so are all later ones. */
  lemma {:induction false} StaleFromHere(input: seq<Byte>, dropped: nat, candidates: seq<nat>, position: nat,
                                         maxLength: nat, maxBackward: nat, best: Found)
    requires Descending(candidates, dropped) && position + maxLength <= |input| && position <= NO_POSITION
    ensures Scan(input, Shifted(candidates, dropped), position, maxLength, maxBackward, best) == best
    decreases |candidates|
  {
    hide CheckCandidate;
    if candidates != [] {
      assert Shifted(candidates, dropped)[1..] == Shifted(candidates[1..], dropped);
      DescendingBelow(candidates[1..], if candidates[0] == NO_POSITION then 0 else candidates[0], dropped);
      StaleFromHere(input, dropped, candidates[1..], position, maxLength, maxBackward, best);
    }
  }

  function Shifted(candidates: seq<nat>, dropped: nat): seq<nat>
  {
    seq(|candidates|, i requires 0 <= i < |candidates| => Shift(candidates[i], dropped))
  }

  /** A bucket is searched to the same end: what the full index breaks off at, the kept one passes over. */
  lemma {:induction false} SameScan(input: seq<Byte>, dropped: nat, candidates: seq<nat>, bound: nat, position: nat,
                                    maxLength: nat, maxBackward: nat, best: Found)
    requires position + maxLength <= |input| && Descending(candidates, bound) && bound <= position <= NO_POSITION
    requires KeepsWindow(maxBackward, position, dropped) && best.length <= maxLength
    ensures Scan(input[dropped..], Shifted(candidates, dropped), position - dropped, maxLength, maxBackward, best) ==
            Scan(input, candidates, position, maxLength, maxBackward, best)
    decreases |candidates|
  {
    if candidates != [] {
      var c, rest := candidates[0], candidates[1..];
      assert Shifted(candidates, dropped)[1..] == Shifted(rest, dropped);
      if c == NO_POSITION {
        SameScan(input, dropped, rest, 0, position, maxLength, maxBackward, best);
      } else if c < dropped {
        DescendingBelow(rest, c, dropped);
        StaleFromHere(input[dropped..], dropped, rest, position - dropped, maxLength, maxBackward, best);
      } else {
        SameCandidate(input, dropped, c, position, maxLength, best);
        var better := CheckCandidate(input, c, position, maxLength, best);
        assert better.length <= maxLength;
        hide CheckCandidate;
        SameScan(input, dropped, rest, c, position, maxLength, maxBackward, better);
      }
    }
  }

  lemma {:induction false} NewestShifted(full: Index, kept: Index, dropped: nat, key: nat, oldest: nat, index: nat)
    requires key < BUCKET_COUNT && Shadows(full, kept, dropped) && index <= full.counts[key] <= oldest + BLOCK_SIZE
    ensures Newest(kept, key, oldest, index) == Shifted(Newest(full, key, oldest, index), dropped)
    decreases index
  {
    hide SlotAt, Shift;
    assert BucketShadows(full, kept, key, dropped);
    if oldest < index {
      assert Readable(full.counts[key], index - 1);
      NewestShifted(full, kept, dropped, key, oldest, index - 1);
    }
  }

  /** Both look at the same candidates. */
  lemma SameCandidates(full: Index, kept: Index, dropped: nat, key: nat, depth: nat, bound: nat)
    requires key < BUCKET_COUNT && Shadows(full, kept, dropped) && Tidy(full, bound)
    ensures Candidates(kept, key, depth) == Shifted(Candidates(full, key, depth), dropped)
    ensures Descending(Candidates(full, key, depth), bound)
  {
    hide SlotAt, Shift, Newest, Shadows, Shifted, Descending;
    assert TidyBucket(full, key, bound);
    assert full.counts == kept.counts by {
      SameCounts(full, kept, dropped);
    }
    hide TidyBucket, Tidy;
    var oldest := Oldest(full.counts[key], depth);
    NewestShifted(full, kept, dropped, key, oldest, full.counts[key]);
    NewestDescend(full, key, oldest, full.counts[key], bound);
  }

  lemma SameCounts(full: Index, kept: Index, dropped: nat)
    requires Shadows(full, kept, dropped)
    ensures full.counts == kept.counts
  {
  }

  lemma SameBackward(input: seq<Byte>, dropped: nat, ring: Ring, candidates: seq<nat>, position: nat, maxLength: nat,
                     maxBackward: nat)
    requires position + maxLength <= |input| && Descending(candidates, position) && position <= NO_POSITION
    requires KeepsWindow(maxBackward, position, dropped) && maxBackward <= position
    ensures Backward(input[dropped..], ring, Shifted(candidates, dropped), position - dropped, maxLength,
                     maxBackward) ==
            Backward(input, ring, candidates, position, maxLength, maxBackward)
  {
    var a := CheckRecent(input, ring.last, 0, position, maxLength, maxBackward, NothingFound());
    assert a.length <= maxLength;
    var b := CheckRecent(input, ring.second, 1, position, maxLength, maxBackward, a);
    assert b.length <= maxLength;
    var c := CheckRecent(input, ring.third, 2, position, maxLength, maxBackward, b);
    assert c.length <= maxLength;
    var d := CheckRecent(input, ring.fourth, 3, position, maxLength, maxBackward, c);
    assert d.length <= maxLength;
    hide CheckRecent, Scan, Descending;
    SameRecent(input, dropped, ring.last, 0, position, maxLength, maxBackward, NothingFound());
    SameRecent(input, dropped, ring.second, 1, position, maxLength, maxBackward, a);
    SameRecent(input, dropped, ring.third, 2, position, maxLength, maxBackward, b);
    SameRecent(input, dropped, ring.fourth, 3, position, maxLength, maxBackward, c);
    SameScan(input, dropped, candidates, position, position, maxLength, maxBackward, d);
  }

  /** Equal but for the positions in the index. */
  ghost predicate CoreShadows(full: Core, kept: Core, dropped: nat)
  {
    Shadows(full.ix, kept.ix, dropped) && kept.search == full.search
  }

  /** A search finds the same, and leaves shadows again. */
  lemma SameFind(env: Env, input: seq<Byte>, dropped: nat, full: Core, kept: Core, ring: Ring, position: nat)
    requires position + 4 <= |input| <= NO_POSITION && KeepsWindow(env.window, position, dropped)
    requires CoreShadows(full, kept, dropped) && Tidy(full.ix, position)
    ensures FindLongest(env, input[dropped..], kept, ring, position - dropped).0 ==
            FindLongest(env, input, full, ring, position).0
    ensures CoreShadows(FindLongest(env, input, full, ring, position).1,
                        FindLongest(env, input[dropped..], kept, ring, position - dropped).1, dropped)
  {
    hide Tidy, Stored, Backward, FindWord, Hash4, Candidates, Shadows, Shifted, Descending;
    var maxLength, maxBackward := |input| - position, Min(position, env.window);
    assert Min(position - dropped, env.window) == maxBackward && KeepsWindow(maxBackward, position, dropped);
    SameHash(input, dropped, position);
    var key := Hash4(input, position);
    SameCandidates(full.ix, kept.ix, dropped, key, env.searchDepth, position);
    SameBackward(input, dropped, ring, Candidates(full.ix, key, env.searchDepth), position, maxLength, maxBackward);
    StoredShadows(full.ix, kept.ix, dropped, key, position);
    assert input[dropped..][position - dropped..] == input[position..];
  }

  lemma {:induction false} SameRange(input: seq<Byte>, dropped: nat, full: Index, kept: Index, start: nat, end: nat)
    requires dropped <= start && dropped <= end && end + 4 <= |input| + 1 && |input| <= NO_POSITION &&
             Shadows(full, kept, dropped)
    ensures Shadows(StoreRange(full, input, start, end), StoreRange(kept, input[dropped..], start - dropped,
                                                                    end - dropped), dropped)
    decreases end - start
  {
    hide Shadows, Stored, Hash4;
    if start < end {
      SameHash(input, dropped, start);
      var key := Hash4(input, start);
      StoredShadows(full, kept, dropped, key, start);
      SameRange(input, dropped, Stored(full, key, start), Stored(kept, key, start - dropped), start + 1, end);
    }
  }

  lemma {:induction false} SameJump(input: seq<Byte>, dropped: nat, full: Index, kept: Index, position: nat,
                                    jumpEnd: nat, stride: nat)
    requires stride > 0 && jumpEnd + 3 <= |input| && jumpEnd + stride <= |input| + 1 && |input| <= NO_POSITION
    requires dropped <= position && dropped <= jumpEnd && Shadows(full, kept, dropped)
    ensures var (a, p) := Jump(full, input, position, jumpEnd, stride);
            var (b, q) := Jump(kept, input[dropped..], position - dropped, jumpEnd - dropped, stride);
            q == p - dropped && Shadows(a, b, dropped)
    decreases jumpEnd - position
  {
    hide Shadows, Stored, Hash4;
    if position < jumpEnd {
      SameHash(input, dropped, position);
      var key := Hash4(input, position);
      StoredShadows(full, kept, dropped, key, position);
      SameJump(input, dropped, Stored(full, key, position), Stored(kept, key, position - dropped), position + stride,
               jumpEnd, stride);
    }
  }

  lemma {:induction false} SameDelay(env: Env, input: seq<Byte>, dropped: nat, full: Core, kept: Core, ring: Ring,
                                     position: nat, found: Found,
                                     delayed: nat)
    requires position + 4 < |input| <= NO_POSITION && KeepsWindow(env.window, position, dropped)
    requires CoreShadows(full, kept, dropped) && Tidy(full.ix, position + 1)
    ensures var m := Delay(env, input, full, ring, position, found, delayed);
            var n := Delay(env, input[dropped..], kept, ring, position - dropped, found, delayed);
            n.found == m.found && n.position == m.position - dropped && CoreShadows(m.core, n.core, dropped)
    decreases |input| - position
  {
    hide Tidy, FindLongest, CoreShadows;
    if delayed < env.maxLazyDelays {
      var (next, later) := FindLongest(env, input, full, ring, position + 1);
      SameFind(env, input, dropped, full, kept, ring, position + 1);
      FindTidy(env, input, full, ring, position + 1, position + 1);
      assert position - dropped + 1 == position + 1 - dropped;
      if next.score >= found.score + LAZY_SCORE_DELTA && position + 1 + 4 < |input| {
        var other := FindLongest(env, input[dropped..], kept, ring, position + 1 - dropped).1;
        SameDelay(env, input, dropped, later, other, ring, position + 1, next, delayed + 1);
      }
    }
  }

  /** Two parses at the same byte: same commands, same ring, shadows of one another. */
  ghost predicate ParseShadows(full: Parse, kept: Parse, dropped: nat)
  {
    && CoreShadows(full.core, kept.core, dropped) && kept.ring == full.ring && kept.commands == full.commands
    && dropped <= full.insertStart && kept.insertStart == full.insertStart - dropped
    && dropped <= full.position && kept.position == full.position - dropped
    && kept.skipLimit == Saturating(full.skipLimit, dropped)
  }

  /** The skip limit has not been cut off, or lies so far back that this makes no difference. */
  predicate SkipKept(position: nat, skipLimit: nat, dropped: nat)
  {
    dropped <= skipLimit || dropped + 4 * RANDOM_HEURISTICS_WINDOW < position
  }

  lemma SameTake(env: Env, input: seq<Byte>, dropped: nat, full: Parse, kept: Parse, m: Chosen, n: Chosen)
    requires ParseShadows(full, kept, dropped) && m.position + 4 <= |input| <= NO_POSITION &&
             full.insertStart <= m.position
    requires KeepsWindow(env.window, m.position, dropped)
    requires n.found == m.found && n.position == m.position - dropped && CoreShadows(m.core, n.core, dropped)
    ensures ParseShadows(TakeMatch(env, input, full, m), TakeMatch(env, input[dropped..], kept, n), dropped)
    ensures SkipKept(TakeMatch(env, input, full, m).position, TakeMatch(env, input, full, m).skipLimit, dropped)
  {
    hide StoreRange, ComputeCode, Shadows;
    var length, distance := m.found.length, m.found.distance;
    var rangeEnd := Min(m.position + length, |input| - STORE_LOOKAHEAD + 1);
    assert Min(n.position + length, |input[dropped..]| - STORE_LOOKAHEAD + 1) == rangeEnd - dropped;
    var start := RangeStart(m.position, length, distance, rangeEnd);
    assert RangeStart(n.position, length, distance, rangeEnd - dropped) == start - dropped;
    assert Min(n.position, env.window) == Min(m.position, env.window);
    SameRange(input, dropped, m.core.ix, n.core.ix, start, rangeEnd);
  }

  lemma SameSkip(env: Env, input: seq<Byte>, dropped: nat, full: Parse, kept: Parse, a: Core, b: Core)
    requires ParseShadows(full, kept, dropped) && CoreShadows(a, b, dropped) &&
             full.position + 4 < |input| <= NO_POSITION
    requires SkipKept(full.position, full.skipLimit, dropped)
    ensures ParseShadows(SkipOn(input, full, a), SkipOn(input[dropped..], kept, b), dropped)
    ensures SkipKept(SkipOn(input, full, a).position, SkipOn(input, full, a).skipLimit, dropped)
  {
    hide Jump, Shadows;
    var position := full.position + 1;
    if position > full.skipLimit {
      if position > full.skipLimit + 4 * RANDOM_HEURISTICS_WINDOW {
        var end := Min(position + 16, |input| - 4);
        assert Min(position - dropped + 16, |input[dropped..]| - 4) == end - dropped;
        SameJump(input, dropped, a.ix, b.ix, position, end, 4);
      } else {
        var end := Min(position + 8, |input| - 3);
        assert Min(position - dropped + 8, |input[dropped..]| - 3) == end - dropped;
        SameJump(input, dropped, a.ix, b.ix, position, end, 2);
      }
    }
  }

  /** A round does the same to both. */
  lemma SameRound(env: Env, input: seq<Byte>, dropped: nat, full: Parse, kept: Parse)
    requires full.position + 4 < |input| <= NO_POSITION && full.insertStart <= full.position &&
             Tidy(full.core.ix, full.position)
    requires ParseShadows(full, kept, dropped) && KeepsWindow(env.window, full.position, dropped)
    requires SkipKept(full.position, full.skipLimit, dropped)
    ensures ParseShadows(Round(env, input, full), Round(env, input[dropped..], kept), dropped)
    ensures SkipKept(Round(env, input, full).position, Round(env, input, full).skipLimit, dropped)
  {
    hide Tidy, FindLongest, Delay, TakeMatch, SkipOn, CoreShadows, TrueFound, SkipKept;
    var (found, a) := FindLongest(env, input, full.core, full.ring, full.position);
    var b := FindLongest(env, input[dropped..], kept.core, kept.ring, kept.position).1;
    SameFind(env, input, dropped, full.core, kept.core, full.ring, full.position);
    FindTidy(env, input, full.core, full.ring, full.position, full.position);
    if found.score > MIN_SCORE {
      var m := Delay(env, input, a, full.ring, full.position, found, 0);
      var n := Delay(env, input[dropped..], b, kept.ring, kept.position, found, 0);
      SameDelay(env, input, dropped, a, b, full.ring, full.position, found, 0);
      SameTake(env, input, dropped, full, kept, m, n);
    } else {
      SameSkip(env, input, dropped, full, kept, a, b);
    }
  }

  lemma {:induction false} SameRounds(env: Env, input: seq<Byte>, dropped: nat, full: Parse, kept: Parse)
    requires full.insertStart <= full.position <= |input| <= NO_POSITION && Tidy(full.core.ix, full.position)
    requires ParseShadows(full, kept, dropped) && KeepsWindow(env.window, full.position, dropped)
    requires SkipKept(full.position, full.skipLimit, dropped)
    ensures ParseShadows(Rounds(env, input, full), Rounds(env, input[dropped..], kept), dropped)
    ensures SkipKept(Rounds(env, input, full).position, Rounds(env, input, full).skipLimit, dropped)
    decreases |input| - full.position
  {
    hide Tidy, Round, CoreShadows, SkipKept;
    if full.position + HASH_TYPE_LENGTH < |input| {
      SameRound(env, input, dropped, full, kept);
      RoundTidy(env, input, full);
      SameRounds(env, input, dropped, Round(env, input, full), Round(env, input[dropped..], kept));
    }
  }

  /** Two finders at the same byte of the stream. */
  ghost predicate FinderShadows(full: Finder, kept: Finder, dropped: nat)
  {
    && CoreShadows(full.core, kept.core, dropped) && kept.ring == full.ring
    && dropped <= full.position && kept.position == full.position - dropped
    && kept.skipLimit == Saturating(full.skipLimit, dropped) && SkipKept(full.position, full.skipLimit, dropped)
  }

  /** A chunk is parsed into the same commands and the same ring, whether or not the finder has been
      compacted, if the window has been kept. */
  lemma SameParse(env: Env, input: seq<Byte>, dropped: nat, full: Finder, kept: Finder)
    requires full.position <= |input| <= NO_POSITION && Tidy(full.core.ix, full.position)
    requires FinderShadows(full, kept, dropped) && KeepsWindow(env.window, full.position, dropped)
    ensures ParseShadows(ParseFrom(env, input, full), ParseFrom(env, input[dropped..], kept), dropped)
    ensures FinderShadows(After(input, ParseFrom(env, input, full)),
                          After(input[dropped..], ParseFrom(env, input[dropped..], kept)), dropped)
  {
    hide Tidy, CoreShadows, SkipKept;
    var a := Parse(full.core, full.ring, full.position, full.position, full.skipLimit, []);
    var b := Parse(kept.core, kept.ring, kept.position, kept.position, kept.skipLimit, []);
    assert ParseFrom(env, input, full) == Rounds(env, input, a) &&
           ParseFrom(env, input[dropped..], kept) == Rounds(env, input[dropped..], b);
    hide Rounds;
    SameRounds(env, input, dropped, a, b);
    SkipKeptLater(Rounds(env, input, a).position, |input|, Rounds(env, input, a).skipLimit, dropped);
  }

  lemma SkipKeptLater(position: nat, later: nat, skipLimit: nat, dropped: nat)
    requires SkipKept(position, skipLimit, dropped) && position <= later
    ensures SkipKept(later, skipLimit, dropped)
  {
  }

  /** Compacting is invisible: what the compacted finder makes of the kept bytes is what the finder would
      have made of all of them. */
  lemma CompactionIsInvisible(env: Env, input: seq<Byte>, f: Finder, dropped: nat)
    requires f.position <= |input| <= NO_POSITION && Tidy(f.core.ix, f.position)
    requires KeepsWindow(env.window, f.position, dropped) && SkipKept(f.position, f.skipLimit, dropped)
    ensures var full := ParseFrom(env, input, f);
            var kept := ParseFrom(env, input[dropped..], Compacted(f, dropped));
            && kept.commands == full.commands && kept.ring == full.ring
            && kept.insertStart == full.insertStart - dropped
            && kept.skipLimit == Saturating(full.skipLimit, dropped)
            && Shadows(full.core.ix, kept.core.ix, dropped)
            && Shadows(full.core.ix, Remapped(full.core.ix, dropped), dropped)
  {
    hide Tidy, Rounds, SkipKept, ParseFrom, Remapped, Shadows;
    CompactedShadows(f, f, 0, dropped);
    SameParse(env, input, dropped, f, Compacted(f, dropped));
    ParseTidy(env, input, f);
    ShadowsItself(ParseFrom(env, input, f).core.ix);
    RemappedShadows(ParseFrom(env, input, f).core.ix, ParseFrom(env, input, f).core.ix, 0, dropped, |input|);
  }

  /** Compacting a finder that has been compacted before. */
  lemma CompactedShadows(full: Finder, kept: Finder, dropped: nat, more: nat)
    requires Tidy(full.core.ix, full.position) && dropped + more <= full.position
    requires FinderShadows(full, kept, dropped) || (kept == full && dropped == 0)
    requires SkipKept(full.position, full.skipLimit, dropped + more)
    ensures FinderShadows(full, Compacted(kept, more), dropped + more)
  {
    hide Tidy, Remapped, Shadows, SkipKept;
    ShadowsItself(full.core.ix);
    RemappedShadows(full.core.ix, kept.core.ix, dropped, more, full.position);
  }
}
