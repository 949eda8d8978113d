/** The greedy match finder of qualities 2 and up (`src/encode/match_finder.rs`), as functions of its state: the
    four recent distances, a ring of sixteen positions a hash bucket, and the dictionary if nothing is found. */
module MatchFinder {
  import opened Arithmetic
  import opened Bytes
  import opened Dictionary
  import opened DictionaryMatches
  import opened Distances
  import opened Outcomes

  const BUCKET_COUNT: nat := 0x8000
  const BLOCK_SIZE: nat := 16
  const COUNT_WRAP: nat := 0x1_0000
  const HASH_TYPE_LENGTH: nat := 4
  const STORE_LOOKAHEAD: nat := 4
  const LAZY_SCORE_DELTA: int := 175
  const RANDOM_HEURISTICS_WINDOW: nat := 64
  const NO_POSITION: nat := 0xffff_ffff

  /** How many positions each bucket has taken, modulo 2^16, and the last sixteen of them. */
  datatype RawIndex = RawIndex(counts: seq<nat>, slots: seq<nat>)

  predicate Shaped(ix: RawIndex)
  {
    && |ix.counts| == BUCKET_COUNT && |ix.slots| == BUCKET_COUNT * BLOCK_SIZE
    && forall key :: 0 <= key < BUCKET_COUNT ==> ix.counts[key] < COUNT_WRAP
  }

  type Index = ix: RawIndex | Shaped(ix)
    witness RawIndex(seq(BUCKET_COUNT, _ => 0), seq(BUCKET_COUNT * BLOCK_SIZE, _ => 0))

  /** What never changes: dictionary, window, distance limit and how hard to search. */
  datatype Env = Env(words: Words, table: nat -> (nat, nat), window: nat, maxDistance: nat, searchDepth: nat,
                     maxLazyDelays: nat)

  /** Hash index and dictionary counters. */
  datatype Core = Core(ix: Index, search: SearchState)

  datatype Found = Found(length: nat, lengthCode: nat, distance: nat, score: int)

  function NothingFound(): Found
  {
    Found(0, 0, 0, MIN_SCORE)
  }

  function Hash4(input: seq<Byte>, position: nat): (key: nat)
    requires position + 4 <= |input|
    ensures key < BUCKET_COUNT
  {
    LoadLe(input[position..position + 4]) * 0x1e35_a7bd % 0x1_0000_0000 / 0x2_0000
  }

  function SlotAt(key: nat, index: nat): (slot: nat)
    ensures key < BUCKET_COUNT ==> slot < BUCKET_COUNT * BLOCK_SIZE
  {
    BLOCK_SIZE * key + index % BLOCK_SIZE
  }

  /** A position enters its bucket, over the oldest one. */
  function Stored(ix: Index, key: nat, position: nat): Index
    requires key < BUCKET_COUNT
  {
    RawIndex(ix.counts[key := (ix.counts[key] + 1) % COUNT_WRAP], ix.slots[SlotAt(key, ix.counts[key]) := position])
  }

  /** The positions of a bucket with indices from `oldest` up to `index`, newest first. */
  function Newest(ix: Index, key: nat, oldest: nat, index: nat): seq<nat>
    requires key < BUCKET_COUNT
    decreases index
  {
    if index <= oldest then [] else [ix.slots[SlotAt(key, index - 1)]] + Newest(ix, key, oldest, index - 1)
  }

  function Oldest(count: nat, depth: nat): nat
  {
    var d := if depth < BLOCK_SIZE then depth else BLOCK_SIZE;
    if count < d then 0 else count - d
  }

  function Candidates(ix: Index, key: nat, depth: nat): seq<nat>
    requires key < BUCKET_COUNT
  {
    Newest(ix, key, Oldest(ix.counts[key], depth), ix.counts[key])
  }

  function LastDistanceScore(length: nat): int
  {
    SCORE_BASE + LITERAL_BYTE_SCORE * length + 15
  }

  /** What recent distances but the last one lose. */
  function LastDistancePenalty(i: nat): int
  {
    if i < 2 then 39 + 0x1ca10 % 16 / 2 * 2 else 39 + 0x1ca10 / 4 % 16 / 2 * 2
  }

  /** One of the recent distances. */
  function CheckRecent(input: seq<Byte>, backward: nat, i: nat, position: nat, maxLength: nat, maxBackward: nat,
                       best: Found): Found
    requires position + maxLength <= |input|
  {
    if backward == 0 || backward > position || backward > maxBackward then best
    else
      var previous := position - backward;
      if best.length < maxLength && input[position + best.length] != input[previous + best.length] then best
      else
        var length := Lcp(input, previous, position, maxLength);
        if !(length >= 3 || (length == 2 && i < 2)) || best.score >= LastDistanceScore(length) then best
        else
          var score := LastDistanceScore(length) - if i != 0 then LastDistancePenalty(i) else 0;
          if best.score < score then Found(length, length, backward, score) else best
  }

  /** Four bytes at two places are the same. */
  predicate SameWord(input: seq<Byte>, a: nat, b: nat)
    requires a + 4 <= |input| && b + 4 <= |input|
  {
    input[a..a + 4] == input[b..b + 4]
  }

  /** One position of the bucket. */
  function CheckCandidate(input: seq<Byte>, previous: nat, position: nat, maxLength: nat, best: Found): Found
    requires previous < position && position + maxLength <= |input|
  {
    var comparison := if best.length < 3 then 3 else best.length;
    if comparison < maxLength && !SameWord(input, position + comparison - 3, previous + comparison - 3) then best
    else
      var length := Lcp(input, previous, position, maxLength);
      if length < 4 then best
      else
        var score := BackwardReferenceScore(length, position - previous);
        if best.score < score then Found(length, length, position - previous, score) else best
  }

  /** The bucket, newest first: positions that fell out of the window are passed over, and the first one
      too far back ends the search. */
  function Scan(input: seq<Byte>, candidates: seq<nat>, position: nat, maxLength: nat, maxBackward: nat,
                best: Found): Found
    requires position + maxLength <= |input|
  {
    if candidates == [] then best
    else if candidates[0] >= position then Scan(input, candidates[1..], position, maxLength, maxBackward, best)
    else if position - candidates[0] > maxBackward then best
    else Scan(input, candidates[1..], position, maxLength, maxBackward,
              CheckCandidate(input, candidates[0], position, maxLength, best))
  }

  /** The recent distances in turn, then the bucket. */
  function Backward(input: seq<Byte>, ring: Ring, candidates: seq<nat>, position: nat, maxLength: nat,
                    maxBackward: nat): Found
    requires position + maxLength <= |input|
  {
    var a := CheckRecent(input, ring.last, 0, position, maxLength, maxBackward, NothingFound());
    var b := CheckRecent(input, ring.second, 1, position, maxLength, maxBackward, a);
    var c := CheckRecent(input, ring.third, 2, position, maxLength, maxBackward, b);
    var d := CheckRecent(input, ring.fourth, 3, position, maxLength, maxBackward, c);
    Scan(input, candidates, position, maxLength, maxBackward, d)
  }

  /** The best match at a position, which enters the index. */
  function FindLongest(env: Env, input: seq<Byte>, core: Core, ring: Ring, position: nat): (Found, Core)
    requires position + 4 <= |input|
  {
    var maxLength, maxBackward := |input| - position, Min(position, env.window);
    var key := Hash4(input, position);
    var best := Backward(input, ring, Candidates(core.ix, key, env.searchDepth), position, maxLength, maxBackward);
    var next := core.(ix := Stored(core.ix, key, position));
    if best.score != MIN_SCORE then (best, next)
    else
      var (search, hit) := FindWord(env.words, env.table, core.search, input[position..], maxLength, maxBackward,
                                    env.maxDistance, MIN_SCORE);
      (if hit.Some? then Found(hit.value.found.length, hit.value.found.lengthCode, hit.value.found.distance,
                               hit.value.score) else best,
       next.(search := search))
  }

  /** A match that is one: a true copy within reach, or a word beyond it. */
  ghost predicate TrueFound(env: Env, input: seq<Byte>, position: nat, r: Found)
  {
    && 2 <= r.length <= |input| - position && r.distance > 0 && r.lengthCode >= 2
    && if r.distance <= Min(position, env.window) then r.lengthCode == r.length
    && TrueCopy(input, position, r.distance, r.length)
       else
         && Transform(env.words, r.distance, r.lengthCode, Min(position, env.window)) ==
            Ok(input[position..position + r.length])
         && r.distance <= env.maxDistance && r.lengthCode <= MAX_WORD_LENGTH
  }

  /** As long as nothing is found the length is zero; what is found is a copy within reach. */
  ghost predicate BestSoFar(input: seq<Byte>, position: nat, maxLength: nat, maxBackward: nat, best: Found)
  {
    && best.score >= MIN_SCORE && best.length <= maxLength
    && (best.score > MIN_SCORE ==>
          2 <= best.length == best.lengthCode && 0 < best.distance <= maxBackward &&
            TrueCopy(input, position, best.distance, best.length))
  }

  lemma LcpIsCopy(input: seq<Byte>, previous: nat, position: nat, maxLength: nat)
    requires previous < position && position + maxLength <= |input|
    ensures Lcp(input, previous, position, maxLength) <= maxLength
    ensures TrueCopy(input, position, position - previous, Lcp(input, previous, position, maxLength))
  {
    var n := Lcp(input, previous, position, maxLength);
    LcpAgrees(input, previous, position, maxLength);
    hide Lcp;
    forall k | position <= k < position + n
      ensures input[k] == input[k - (position - previous)]
    {
      assert input[previous + (k - position)] == input[position + (k - position)];
    }
  }

  lemma RecentIsTrue(input: seq<Byte>, backward: nat, i: nat, position: nat, maxLength: nat, maxBackward: nat,
                     best: Found)
    requires position + maxLength <= |input| && BestSoFar(input, position, maxLength, maxBackward, best)
    ensures BestSoFar(input, position, maxLength, maxBackward,
                      CheckRecent(input, backward, i, position, maxLength, maxBackward, best))
  {
    hide TrueCopy, Lcp;
    if !(backward == 0 || backward > position || backward > maxBackward) {
      LcpIsCopy(input, position - backward, position, maxLength);
    }
  }

  lemma {:induction false} ScanIsTrue(input: seq<Byte>, candidates: seq<nat>, position: nat, maxLength: nat,
                                      maxBackward: nat, best: Found)
    requires position + maxLength <= |input| && BestSoFar(input, position, maxLength, maxBackward, best)
    ensures BestSoFar(input, position, maxLength, maxBackward,
                      Scan(input, candidates, position, maxLength, maxBackward, best))
    decreases |candidates|
  {
    hide TrueCopy, Lcp, SameWord;
    if candidates != [] {
      if candidates[0] >= position {
        ScanIsTrue(input, candidates[1..], position, maxLength, maxBackward, best);
      } else if position - candidates[0] <= maxBackward {
        LcpIsCopy(input, candidates[0], position, maxLength);
        ScanIsTrue(input, candidates[1..], position, maxLength, maxBackward,
                   CheckCandidate(input, candidates[0], position, maxLength, best));
      }
    }
  }

  lemma BackwardIsTrue(input: seq<Byte>, ring: Ring, candidates: seq<nat>, position: nat, maxLength: nat,
                       maxBackward: nat)
    requires position + maxLength <= |input|
    ensures BestSoFar(input, position, maxLength, maxBackward,
                      Backward(input, ring, candidates, position, maxLength, maxBackward))
  {
    assert BestSoFar(input, position, maxLength, maxBackward, NothingFound());
    hide CheckRecent, Scan, BestSoFar;
    var a := CheckRecent(input, ring.last, 0, position, maxLength, maxBackward, NothingFound());
    var b := CheckRecent(input, ring.second, 1, position, maxLength, maxBackward, a);
    var c := CheckRecent(input, ring.third, 2, position, maxLength, maxBackward, b);
    var d := CheckRecent(input, ring.fourth, 3, position, maxLength, maxBackward, c);
    RecentIsTrue(input, ring.last, 0, position, maxLength, maxBackward, NothingFound());
    RecentIsTrue(input, ring.second, 1, position, maxLength, maxBackward, a);
    RecentIsTrue(input, ring.third, 2, position, maxLength, maxBackward, b);
    RecentIsTrue(input, ring.fourth, 3, position, maxLength, maxBackward, c);
    ScanIsTrue(input, candidates, position, maxLength, maxBackward, d);
  }

  /** Whatever the index and the dictionary table hold: a match that scores is a true copy within reach or
      a dictionary word that the decoder turns into the bytes it covers. */
  lemma FoundIsTrue(env: Env, input: seq<Byte>, core: Core, ring: Ring, position: nat)
    requires position + 4 <= |input|
    ensures var r := FindLongest(env, input, core, ring, position).0; r.score > MIN_SCORE ==>
            TrueFound(env, input, position, r)
  {
    hide Backward, FindWord, TrueCopy, Hash4, Stored, Candidates, Transform, Min;
    var maxLength, maxBackward := |input| - position, Min(position, env.window);
    var candidates := Candidates(core.ix, Hash4(input, position), env.searchDepth);
    BackwardIsTrue(input, ring, candidates, position, maxLength, maxBackward);
    var best := Backward(input, ring, candidates, position, maxLength, maxBackward);
    if best.score > MIN_SCORE {
      assert TrueFound(env, input, position, best);
    } else {
      FindWordIsTrue(env.words, env.table, core.search, input[position..], maxLength, maxBackward, env.maxDistance,
                     MIN_SCORE);
      var hit := FindWord(env.words, env.table, core.search, input[position..], maxLength, maxBackward, env.maxDistance,
                          MIN_SCORE).1;
      if hit.Some? {
        WordFound(env, input, position, maxLength, maxBackward, hit.value);
      }
    }
  }

  lemma WordFound(env: Env, input: seq<Byte>, position: nat, maxLength: nat, maxBackward: nat, hit: DictionaryHit)
    requires position + maxLength == |input| && maxBackward == Min(position, env.window)
    requires TrueHit(env.words, input[position..], maxLength, maxBackward, env.maxDistance, MIN_SCORE, hit) &&
             hit.found.length >= 4
    ensures TrueFound(env, input, position, Found(hit.found.length, hit.found.lengthCode, hit.found.distance,
                                                  hit.score))
  {
    hide Min, Transform, TrueCopy;
    WordLength(env.words, hit.found.distance, hit.found.lengthCode, maxBackward);
    assert input[position..][..hit.found.length] == input[position..position + hit.found.length];
  }

  lemma WordLength(words: Words, distance: nat, copyLength: nat, maxBackward: nat)
    requires Transform(words, distance, copyLength, maxBackward).Ok?
    ensures MIN_WORD_LENGTH <= copyLength <= MAX_WORD_LENGTH
  {
  }
}
