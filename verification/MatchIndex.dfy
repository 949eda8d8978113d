/** What the hash index keeps (`src/encode/match_finder.rs`): each bucket's readable positions lie before the
    current one and grow with their index, however often the 16-bit count has wrapped. */
module MatchIndex {
  import opened Arithmetic
  import opened Bytes
  import opened DictionaryMatches
  import opened Distances
  import opened MatchFinder
  import opened GreedyParse

  /** The indices whose slots have been written since the count was last zero, and not overwritten. */
  predicate Readable(count: nat, index: nat)
  {
    index < count <= index + BLOCK_SIZE
  }

  /** Positions before `bound`, or passed out of the window, which only older ones than the rest have. */
  ghost predicate TidyBucket(ix: Index, key: nat, bound: nat)
    requires key < BUCKET_COUNT
  {
    && (forall i :: Readable(ix.counts[key], i) ==>
        ix.slots[SlotAt(key, i)] == NO_POSITION || ix.slots[SlotAt(key, i)] < bound)
    && (forall i, j :: Readable(ix.counts[key], i) && Readable(ix.counts[key], j) && i < j ==>
          ix.slots[SlotAt(key, i)] == NO_POSITION || ix.slots[SlotAt(key, i)] < ix.slots[SlotAt(key, j)] != NO_POSITION)
  }

  ghost predicate Tidy(ix: Index, bound: nat)
  {
    bound <= NO_POSITION && forall key :: 0 <= key < BUCKET_COUNT ==> TidyBucket(ix, key, bound)
  }

  lemma TidyLater(ix: Index, bound: nat, later: nat)
    requires Tidy(ix, bound) && bound <= later <= NO_POSITION
    ensures Tidy(ix, later)
  {
    forall key | 0 <= key < BUCKET_COUNT
      ensures TidyBucket(ix, key, later)
    {
      assert TidyBucket(ix, key, bound);
    }
  }

  lemma SlotsApart(key: nat, i: nat, other: nat, j: nat)
    ensures SlotAt(key, i) == SlotAt(other, j) <==> key == other && i % BLOCK_SIZE == j % BLOCK_SIZE
  {
  }

  /** Nearby indices have different slots. */
  lemma NearbyApart(c: nat, i: nat)
    requires i < c < i + BLOCK_SIZE
    ensures i % BLOCK_SIZE != c % BLOCK_SIZE
  {
  }

  /** A later position goes in. */
  lemma StoredTidy(ix: Index, key: nat, position: nat, bound: nat)
    requires Tidy(ix, bound) && key < BUCKET_COUNT && bound <= position < NO_POSITION
    ensures Tidy(Stored(ix, key, position), position + 1)
  {
    var next := Stored(ix, key, position);
    hide SlotAt;
    forall k {:trigger TidyBucket(next, k, position + 1)} | 0 <= k < BUCKET_COUNT
      ensures TidyBucket(next, k, position + 1)
    {
      assert TidyBucket(ix, k, bound);
      BucketStored(ix, key, position, bound, k);
    }
  }

  /** What a slot that can be read holds once a position has gone in. */
  lemma StoredSlot(ix: Index, key: nat, position: nat, k: nat, i: nat)
    requires key < BUCKET_COUNT && k < BUCKET_COUNT && Readable(Stored(ix, key, position).counts[k], i)
    ensures Stored(ix, key, position).slots[SlotAt(k, i)] ==
            if k == key && i == ix.counts[key] then position else ix.slots[SlotAt(k, i)]
    ensures (k == key && i == ix.counts[key]) || Readable(ix.counts[k], i)
  {
    SlotsApart(k, i, key, ix.counts[key]);
    if k == key && i != ix.counts[key] {
      NearbyApart(ix.counts[key], i);
    }
  }

  lemma BucketStored(ix: Index, key: nat, position: nat, bound: nat, k: nat)
    requires key < BUCKET_COUNT && k < BUCKET_COUNT && TidyBucket(ix, k, bound) && bound <= position < NO_POSITION
    ensures TidyBucket(Stored(ix, key, position), k, position + 1)
  {
    var next := Stored(ix, key, position);
    forall i | Readable(next.counts[k], i)
      ensures next.slots[SlotAt(k, i)] == (if k == key && i == ix.counts[key] then position else ix.slots[SlotAt(k, i)])
      ensures (k == key && i == ix.counts[key]) || Readable(ix.counts[k], i)
    {
      StoredSlot(ix, key, position, k, i);
    }
    assert k != key ==> next.counts[k] == ix.counts[k];
    assert k == key ==> next.counts[k] <= ix.counts[key] + 1;
    hide SlotAt, Stored;
  }

  lemma FindTidy(env: Env, input: seq<Byte>, core: Core, ring: Ring, position: nat, bound: nat)
    requires position + 4 <= |input| && Tidy(core.ix, bound) && bound <= position < NO_POSITION
    ensures Tidy(FindLongest(env, input, core, ring, position).1.ix, position + 1)
  {
    hide Tidy, Stored, Backward, FindWord, Hash4, Candidates, Min;
    StoredTidy(core.ix, Hash4(input, position), position, bound);
  }

  lemma {:induction false} RangeTidy(ix: Index, input: seq<Byte>, start: nat, end: nat, bound: nat, later: nat)
    requires end + 4 <= |input| + 1 && |input| <= NO_POSITION && Tidy(ix, bound) && bound <= later <= NO_POSITION
    requires start < end ==> bound <= start && end <= later
    ensures Tidy(StoreRange(ix, input, start, end), later)
    decreases end - start
  {
    hide Tidy, Stored, Hash4;
    if start < end {
      StoredTidy(ix, Hash4(input, start), start, bound);
      RangeTidy(Stored(ix, Hash4(input, start), start), input, start + 1, end, start + 1, later);
    } else {
      TidyLater(ix, bound, later);
    }
  }

  lemma {:induction false} JumpTidy(ix: Index, input: seq<Byte>, position: nat, jumpEnd: nat, stride: nat, bound: nat)
    requires stride > 0 && jumpEnd + 3 <= |input| && jumpEnd + stride <= |input| + 1 && |input| <= NO_POSITION
    requires Tidy(ix, bound) && bound <= position <= |input|
    ensures var (next, p) := Jump(ix, input, position, jumpEnd, stride); Tidy(next, p)
    decreases jumpEnd - position
  {
    hide Tidy, Stored, Hash4;
    if position < jumpEnd {
      StoredTidy(ix, Hash4(input, position), position, bound);
      JumpTidy(Stored(ix, Hash4(input, position), position), input, position + stride, jumpEnd, stride, position + 1);
    } else {
      TidyLater(ix, bound, position);
    }
  }

  lemma {:induction false} DelayTidy(env: Env, input: seq<Byte>, core: Core, ring: Ring, position: nat, found: Found,
                                     delayed: nat)
    requires position + 4 < |input| <= NO_POSITION && Tidy(core.ix, position + 1)
    ensures var m := Delay(env, input, core, ring, position, found, delayed); Tidy(m.core.ix, m.position + 2)
    decreases |input| - position
  {
    hide Tidy, FindLongest;
    if delayed < env.maxLazyDelays {
      var (next, later) := FindLongest(env, input, core, ring, position + 1);
      FindTidy(env, input, core, ring, position + 1, position + 1);
      if next.score < found.score + LAZY_SCORE_DELTA {
      } else if position + 1 + 4 >= |input| {
        TidyLater(later.ix, position + 2, position + 3);
      } else {
        DelayTidy(env, input, later, ring, position + 1, next, delayed + 1);
      }
    } else {
      TidyLater(core.ix, position + 1, position + 2);
    }
  }

  lemma TakeMatchTidy(env: Env, input: seq<Byte>, st: Parse, m: Chosen)
    requires m.position + 4 <= |input| <= NO_POSITION && st.insertStart <= m.position && Tidy(m.core.ix, m.position + 2)
    requires 2 <= m.found.length <= |input| - m.position
    ensures Tidy(TakeMatch(env, input, st, m).core.ix, m.position + m.found.length)
  {
    hide Tidy, StoreRange, ComputeCode;
    var rangeEnd := Min(m.position + m.found.length, |input| - STORE_LOOKAHEAD + 1);
    RangeTidy(m.core.ix, input, RangeStart(m.position, m.found.length, m.found.distance, rangeEnd), rangeEnd,
              m.position + 2,
              m.position + m.found.length);
  }

  lemma SkipTidy(input: seq<Byte>, st: Parse, core: Core)
    requires st.position + 4 < |input| <= NO_POSITION && Tidy(core.ix, st.position + 1)
    ensures Tidy(SkipOn(input, st, core).core.ix, SkipOn(input, st, core).position)
  {
    hide Tidy, Jump;
    var position := st.position + 1;
    if position > st.skipLimit {
      if position > st.skipLimit + 4 * RANDOM_HEURISTICS_WINDOW {
        JumpTidy(core.ix, input, position, Min(position + 16, |input| - 4), 4, position);
      } else {
        JumpTidy(core.ix, input, position, Min(position + 8, |input| - 3), 2, position);
      }
    }
  }

  /** A round keeps the index tidy. */
  lemma RoundTidy(env: Env, input: seq<Byte>, st: Parse)
    requires st.position + 4 < |input| <= NO_POSITION && st.insertStart <= st.position && Tidy(st.core.ix, st.position)
    ensures Tidy(Round(env, input, st).core.ix, Round(env, input, st).position)
  {
    hide Tidy, FindLongest, Delay, TakeMatch, SkipOn, TrueFound;
    var (found, core) := FindLongest(env, input, st.core, st.ring, st.position);
    FindTidy(env, input, st.core, st.ring, st.position, st.position);
    if found.score > MIN_SCORE {
      FoundIsTrue(env, input, st.core, st.ring, st.position);
      DelayIsTrue(env, input, core, st.ring, st.position, found, 0);
      DelayTidy(env, input, core, st.ring, st.position, found, 0);
      TakeMatchTidy(env, input, st, Delay(env, input, core, st.ring, st.position, found, 0));
    } else {
      SkipTidy(input, st, core);
    }
  }

  lemma {:induction false} RoundsTidy(env: Env, input: seq<Byte>, st: Parse)
    requires st.insertStart <= st.position <= |input| <= NO_POSITION && Tidy(st.core.ix, st.position)
    ensures Tidy(Rounds(env, input, st).core.ix, Rounds(env, input, st).position)
    decreases |input| - st.position
  {
    hide Tidy, Round;
    if st.position + HASH_TYPE_LENGTH < |input| {
      RoundTidy(env, input, st);
      RoundsTidy(env, input, Round(env, input, st));
    }
  }

  /** So every chunk leaves a tidy index for the next. */
  lemma ParseTidy(env: Env, input: seq<Byte>, f: Finder)
    requires f.position <= |input| <= NO_POSITION && Tidy(f.core.ix, f.position)
    ensures Tidy(ParseFrom(env, input, f).core.ix, |input|)
  {
    hide Tidy, Rounds;
    var st := Parse(f.core, f.ring, f.position, f.position, f.skipLimit, []);
    if |input| > HASH_TYPE_LENGTH {
      RoundsTidy(env, input, st);
      TidyLater(Rounds(env, input, st).core.ix, Rounds(env, input, st).position, |input|);
    } else {
      TidyLater(f.core.ix, f.position, |input|);
    }
  }

  /** An empty index is tidy. */
  lemma FreshIsTidy(ix: Index, bound: nat)
    requires (forall key :: 0 <= key < BUCKET_COUNT ==> ix.counts[key] == 0) && bound <= NO_POSITION
    ensures Tidy(ix, bound)
  {
    forall key | 0 <= key < BUCKET_COUNT
      ensures TidyBucket(ix, key, bound)
    {
      assert ix.counts[key] == 0;
    }
  }

  /** In a tidy index the candidates are earlier positions, and the others are marked as passed out of the
      window: no search meets itself or what is still to come. */
  lemma {:induction false} CandidatesAreEarlier(ix: Index, key: nat, oldest: nat, index: nat, bound: nat)
    requires key < BUCKET_COUNT && TidyBucket(ix, key, bound) && index <= ix.counts[key] <= oldest + BLOCK_SIZE &&
             bound <= NO_POSITION
    ensures forall c :: c in Newest(ix, key, oldest, index) ==> (c >= bound <==> c == NO_POSITION)
    decreases index
  {
    hide SlotAt;
    if oldest < index {
      assert Readable(ix.counts[key], index - 1);
      CandidatesAreEarlier(ix, key, oldest, index - 1, bound);
    }
  }
}
