/** The fast match search of qualities 0 and 1 (`src/encode/fragment.rs`): whatever older positions have
    left in the hash table, its commands tile the block with literals and true copies. */
module FragmentParse {
  import opened Arithmetic
  import opened Bytes
  import opened MetablockHeaders
  import opened Outcomes

  const FRAGMENT_MAX_DISTANCE: nat := 0x40000 - 16
  const SKIP_START: nat := 32
  const HASH_MULTIPLIER: nat := 0x1e35_a7bd
  const MIN_MATCH_LEN_Q0: nat := 5
  const MIN_MATCH_LEN_Q1_SMALL: nat := 4

  /** Literals and then a copy; the last command of a block may have no copy. */
  datatype FragmentCommand = FragmentCommand(insertLen: nat, copyLen: nat, distance: nat)

  /** A copy that reaches neither beyond the cap nor beyond any window the fragment fits in. */
  predicate InWindow(input: seq<Byte>, distance: nat)
  {
    distance <= FRAGMENT_MAX_DISTANCE && distance + WINDOW_GAP <= |input|
  }

  /** The commands cover the bytes from `pos` to `end` without gap or overlap. */
  ghost predicate Tiles(input: seq<Byte>, pos: nat, commands: seq<FragmentCommand>, end: nat)
    decreases |commands|
  {
    if commands == [] then pos == end
    else
      var c := commands[0];
      var at := pos + c.insertLen;
      if c.copyLen == 0 then c.insertLen > 0 && at == end && |commands| == 1
      else
        && TrueCopy(input, at, c.distance, c.copyLen) && InWindow(input, c.distance) && c.copyLen >= 4
        && Tiles(input, at + c.copyLen, commands[1..], end)
  }

  ghost predicate AllCopies(commands: seq<FragmentCommand>)
  {
    forall i :: 0 <= i < |commands| ==> commands[i].copyLen > 0
  }

  /** One more copy at the end. */
  lemma {:induction false} TilesCopy(input: seq<Byte>, pos: nat, commands: seq<FragmentCommand>, end: nat,
                                     c: FragmentCommand)
    requires Tiles(input, pos, commands, end) && AllCopies(commands) && c.copyLen >= 4
    requires TrueCopy(input, end + c.insertLen, c.distance, c.copyLen) && InWindow(input, c.distance)
    ensures Tiles(input, pos, commands + [c], end + c.insertLen + c.copyLen) && AllCopies(commands + [c])
    decreases |commands|
  {
    hide TrueCopy, InWindow;
    if commands != [] {
      var d := commands[0];
      TilesCopy(input, pos + d.insertLen + d.copyLen, commands[1..], end, c);
      assert (commands + [c])[1..] == commands[1..] + [c];
    } else {
      assert ([] + [c])[1..] == [];
    }
  }

  /** The literals left over. */
  lemma {:induction false} TilesTail(input: seq<Byte>, pos: nat, commands: seq<FragmentCommand>, end: nat, n: nat)
    requires Tiles(input, pos, commands, end) && AllCopies(commands) && n > 0
    ensures Tiles(input, pos, commands + [FragmentCommand(n, 0, 0)], end + n)
    decreases |commands|
  {
    hide TrueCopy, InWindow;
    var c := FragmentCommand(n, 0, 0);
    if commands != [] {
      var d := commands[0];
      TilesTail(input, pos + d.insertLen + d.copyLen, commands[1..], end, n);
      assert (commands + [c])[1..] == commands[1..] + [c];
    }
  }

  const WORD: nat := 0x1_0000_0000_0000_0000

  lemma WordIsPower(bits: nat)
    requires bits <= 64
    ensures Times(Pow2(bits), Pow2(64 - bits)) == WORD
  {
    assert Pow2(64) == WORD by {
      WordSize();
    }
    Pow2Add(bits, 64 - bits);
    hide Pow2;
  }

  lemma WordSize()
    ensures Pow2(64) == WORD
  {
    assert Pow2(16) == 0x10000 by {
      assert Pow2(8) == 256;
    }
    hide Pow2;
    Pow2Add(16, 16);
    Pow2Add(32, 32);
  }

  /** A little-endian load, the bytes that count moved to the top, multiplied, and the top bits kept. */
  function HashFragment(input: seq<Byte>, position: nat, length: nat, tableBits: nat): (h: nat)
    requires position + 8 <= |input| && 4 <= length <= 6 && tableBits <= 64
    ensures h < Pow2(tableBits)
  {
    var load := LoadLe(input[position..position + 8]);
    var product := Remainder(Times(Remainder(Times(load, Pow2(8 * (8 - length))), WORD), HASH_MULTIPLIER), WORD);
    WordIsPower(tableBits);
    QuotientBelow(product, Pow2(tableBits), Pow2(64 - tableBits));
    Quotient(product, Pow2(64 - tableBits))
  }

  /** The first `n` bytes at both positions are the same. */
  predicate IsMatchAt(input: seq<Byte>, position: nat, candidate: nat, n: nat)
    requires candidate <= position && position + n <= |input|
  {
    input[position..position + n] == input[candidate..candidate + n]
  }

  /** A match and what the match length adds to it are a true copy. */
  lemma MatchIsCopy(input: seq<Byte>, position: nat, candidate: nat, n: nat, limit: nat)
    requires candidate < position && position + n + limit <= |input| && IsMatchAt(input, position, candidate, n)
    ensures TrueCopy(input, position, position - candidate, n + Lcp(input, candidate + n, position + n, limit))
  {
    var m := Lcp(input, candidate + n, position + n, limit);
    LcpAgrees(input, candidate + n, position + n, limit);
    forall k | position <= k < position + (n + m)
      ensures input[k] == input[k - (position - candidate)]
    {
      var j := k - position;
      if j < n {
        assert input[position..position + n][j] == input[candidate..candidate + n][j];
      } else {
        assert input[candidate + n + (j - n)] == input[position + n + (j - n)];
      }
    }
  }

  /** Positions in the table, one up, are at most `bound`. */
  ghost predicate Entries(table: seq<nat>, bound: nat)
  {
    forall i :: 0 <= i < |table| ==> table[i] <= bound
  }

  lemma EntryStored(table: seq<nat>, bound: nat, i: nat, v: nat, later: nat)
    requires Entries(table, bound) && i < |table| && v <= later && bound <= later
    ensures Entries(table[i := v], later)
  {
  }

  lemma EntryRead(table: seq<nat>, bound: nat, i: nat)
    requires Entries(table, bound) && i < |table|
    ensures table[i] <= bound
  {
  }

  function SaturatingPred(n: nat): nat
  {
    if n == 0 then 0 else n - 1
  }

  /** Sets one slot. */
  method Store(table: array<nat>, slot: nat, v: nat, ghost bound: nat, ghost later: nat)
    requires slot < table.Length && Entries(table[..], bound) && v <= later && bound <= later
    modifies table
    ensures Entries(table[..], later)
  {
    EntryStored(table[..], bound, slot, v, later);
    ghost var s := table[..];
    table[slot] := v;
    assert table[..] == s[slot := v];
  }

  /** The margins that keep every load inside the fragment. */
  ghost predicate Margins(input: seq<Byte>, start: nat, end: nat, minMatch: nat, ipLimit: nat)
  {
    && 4 <= minMatch <= 6 && start <= ipLimit && start + WINDOW_GAP <= end <= |input|
    && ipLimit + minMatch <= end && ipLimit + WINDOW_GAP <= |input|
  }

  datatype Trawled = Trawled(found: bool, position: nat, candidate: nat, nextPosition: nat, nextHash: nat, skip: nat)

  /** Steps forward until the last distance or the table gives a match; the probes go into the table. */
  method Trawl(fragment: seq<Byte>, ghost start: nat, ghost end: nat, minMatch: nat, table: array<nat>, tableBits: nat,
               ipLimit: nat,
               firstPosition: nat, firstHash: nat, firstSkip: nat, lastDistance: Option<nat>) returns (r: Trawled)
    requires Margins(fragment, start, end, minMatch, ipLimit) && tableBits <= 64 && table.Length == Pow2(tableBits)
    requires start < firstPosition && Entries(table[..], firstPosition) && firstHash < table.Length &&
             firstSkip >= SKIP_START
    requires lastDistance.Some? ==> lastDistance.value > 0
    modifies table
    ensures r.found ==>
              && firstPosition <= r.position < r.nextPosition <= ipLimit && r.candidate < r.position
              && IsMatchAt(fragment, r.position, r.candidate, minMatch)
              && Entries(table[..], r.position + 1) && r.nextHash < table.Length && r.skip >= SKIP_START
    ensures !r.found ==> Entries(table[..], if firstPosition < ipLimit then ipLimit else firstPosition)
  {
    hide Entries, HashFragment, IsMatchAt;
    var nextPosition: nat, nextHash: nat, skip: nat := firstPosition, firstHash, firstSkip;
    while true
      invariant firstPosition <= nextPosition && (nextPosition == firstPosition || nextPosition <= ipLimit)
      invariant Entries(table[..], nextPosition) && nextHash < table.Length && skip >= SKIP_START
      decreases ipLimit + 1 - nextPosition
    {
      var position: nat, hash: nat := nextPosition, nextHash;
      var step := skip / 32;
      skip := skip + 1;
      nextPosition := position + step;
      if nextPosition > ipLimit {
        EntriesRise(table[..], position, if firstPosition < ipLimit then ipLimit else firstPosition);
        return Trawled(false, 0, 0, 0, 0, 0);
      }
      nextHash := HashFragment(fragment, nextPosition, minMatch, tableBits);
      if lastDistance.Some? && lastDistance.value <= position &&
         IsMatchAt(fragment, position, position - lastDistance.value, minMatch) {
        Store(table, hash, position + 1, position, position + 1);
        return Trawled(true, position, position - lastDistance.value, nextPosition, nextHash, skip);
      }
      var entry := table[hash];
      EntryRead(table[..], position, hash);
      Store(table, hash, position + 1, position, position + 1);
      var candidate := SaturatingPred(entry);
      if candidate < position && IsMatchAt(fragment, position, candidate, minMatch) {
        return Trawled(true, position, candidate, nextPosition, nextHash, skip);
      }
      EntriesRise(table[..], position + 1, nextPosition);
    }
  }

  lemma EntriesRise(table: seq<nat>, bound: nat, later: nat)
    requires Entries(table, bound) && bound <= later
    ensures Entries(table, later)
  {
  }

  /** Positions inside the copy that has just ended go into the table; the slot at its end gives the
      candidate to go on with. After literals the four-byte form hashes one position twice. */
  method StoreInteriorPositions(fragment: seq<Byte>, position: nat, minMatch: nat, table: array<nat>, tableBits: nat,
                                afterLiterals: bool)
    returns (candidate: nat)
    requires 4 <= minMatch <= 6 && minMatch <= position && position + 8 <= |fragment| && tableBits <= 64 &&
             table.Length == Pow2(tableBits)
    requires Entries(table[..], position)
    modifies table
    ensures Entries(table[..], position + 1) && candidate < position
  {
    hide Entries, HashFragment;
    if minMatch == MIN_MATCH_LEN_Q1_SMALL {
      StoreAt(fragment, position - 3, position - 3, minMatch, table, tableBits, position);
      StoreAt(fragment, position - 2, position - 2, minMatch, table, tableBits, position);
      StoreAt(fragment, if afterLiterals then position - 3 else position - 1, position - 1, minMatch, table, tableBits,
              position);
    } else {
      var back := if minMatch == MIN_MATCH_LEN_Q0 then 3 else 5;
      while back > 0
        invariant 0 <= back <= 5 && Entries(table[..], position)
      {
        StoreAt(fragment, position - back, position - back, minMatch, table, tableBits, position);
        back := back - 1;
      }
    }
    var current := HashFragment(fragment, position, minMatch, tableBits);
    EntryRead(table[..], position, current);
    candidate := SaturatingPred(table[current]);
    Store(table, current, position + 1, position, position + 1);
  }

  method StoreAt(fragment: seq<Byte>, hashed: nat, stored: nat, minMatch: nat, table: array<nat>, tableBits: nat,
                 ghost bound: nat)
    requires 4 <= minMatch <= 6 && hashed + 8 <= |fragment| && tableBits <= 64 && table.Length == Pow2(tableBits)
    requires Entries(table[..], bound) && stored < bound
    modifies table
    ensures Entries(table[..], bound)
  {
    hide Entries, HashFragment;
    var hash := HashFragment(fragment, hashed, minMatch, tableBits);
    Store(table, hash, stored + 1, bound, bound);
  }

  /** A match at hand: how far it goes, as a command. */
  method TakeMatch(fragment: seq<Byte>, ghost start: nat, end: nat, minMatch: nat, ghost ipLimit: nat, nextEmit: nat,
                   position: nat, candidate: nat,
                   commands: seq<FragmentCommand>) returns (more: seq<FragmentCommand>, matched: nat)
    requires Margins(fragment, start, end, minMatch, ipLimit) && nextEmit <= position <= ipLimit
    requires candidate < position && IsMatchAt(fragment, position, candidate, minMatch) &&
             position - candidate <= FRAGMENT_MAX_DISTANCE
    requires Tiles(fragment, start, commands, nextEmit) && AllCopies(commands)
    ensures matched >= minMatch && position + matched <= end
    ensures Tiles(fragment, start, more, position + matched) && AllCopies(more)
  {
    hide TrueCopy, IsMatchAt, Tiles, AllCopies, Lcp;
    var limit := end - position - minMatch;
    var length := MatchLength(fragment, candidate + minMatch, position + minMatch, limit);
    MatchIsCopy(fragment, position, candidate, minMatch, limit);
    LcpBounded(fragment, candidate + minMatch, position + minMatch, limit);
    matched := minMatch + length;
    var c := FragmentCommand(position - nextEmit, matched, position - candidate);
    TilesCopy(fragment, start, commands, nextEmit, c);
    more := commands + [c];
  }

  lemma LcpBounded(input: seq<Byte>, a: nat, b: nat, limit: nat)
    requires a + limit <= |input| && b + limit <= |input|
    ensures Lcp(input, a, b, limit) <= limit
  {
  }

  /** Copies that follow one another without literals in between. */
  method ChainMatches(fragment: seq<Byte>, ghost start: nat, end: nat, minMatch: nat, table: array<nat>, tableBits: nat,
                      ipLimit: nat,
                      first: nat, commands: seq<FragmentCommand>, distance: nat)
    returns (position: nat, more: seq<FragmentCommand>, lastDistance: nat)
    requires Margins(fragment, start, end, minMatch, ipLimit) && tableBits <= 64 && table.Length == Pow2(tableBits)
    requires minMatch <= first < ipLimit && Entries(table[..], first) && distance > 0
    requires Tiles(fragment, start, commands, first) && AllCopies(commands)
    modifies table
    ensures first <= position <= end && lastDistance > 0 && Tiles(fragment, start, more, position) && AllCopies(more)
    ensures Entries(table[..], if position < ipLimit then position + 1 else end)
  {
    hide Tiles, Entries, AllCopies, IsMatchAt;
    position, more, lastDistance := first, commands, distance;
    var candidate: nat := StoreInteriorPositions(fragment, position, minMatch, table, tableBits, true);
    while IsMatchAt(fragment, position, candidate, minMatch) && position - candidate <= FRAGMENT_MAX_DISTANCE
      invariant first <= position < ipLimit && candidate < position && lastDistance > 0
      invariant Tiles(fragment, start, more, position) && AllCopies(more) && Entries(table[..], position + 1)
      decreases ipLimit - position
    {
      var matched;
      more, matched := TakeMatch(fragment, start, end, minMatch, ipLimit, position, position, candidate, more);
      lastDistance := position - candidate;
      EntriesRise(table[..], position + 1, position + matched);
      position := position + matched;
      if position >= ipLimit {
        EntriesRise(table[..], position, end);
        return;
      }
      candidate := StoreInteriorPositions(fragment, position, minMatch, table, tableBits, false);
    }
  }

  lemma NoCommands(input: seq<Byte>, pos: nat)
    ensures Tiles(input, pos, [], pos) && AllCopies([])
  {
  }

  /** Parses one block of a fragment. The table may hold any positions up to the block's start; it ends
      up holding none beyond the block's end. */
  method ParseFragment(fragment: seq<Byte>, start: nat, end: nat, minMatch: nat, table: array<nat>, tableBits: nat)
    returns (commands: seq<FragmentCommand>)
    requires start < end <= |fragment| && 4 <= minMatch <= 6 && tableBits <= 64 && table.Length == Pow2(tableBits)
    requires Entries(table[..], start)
    modifies table
    ensures Tiles(fragment, start, commands, end) && Entries(table[..], end)
  {
    hide Tiles, Entries, AllCopies, HashFragment, IsMatchAt;
    var blockSize := end - start;
    if blockSize < WINDOW_GAP {
      NoCommands(fragment, start);
      TilesTail(fragment, start, [], start, blockSize);
      EntriesRise(table[..], start, end);
      assert [] + [FragmentCommand(blockSize, 0, 0)] == [FragmentCommand(blockSize, 0, 0)];
      return [FragmentCommand(blockSize, 0, 0)];
    }
    var room := |fragment| - WINDOW_GAP - start;
    var ipLimit: nat := start + if blockSize - minMatch < room then blockSize - minMatch else room;
    EntriesRise(table[..], start, start + 1);
    var nextEmit;
    commands, nextEmit := Search(fragment, start, end, minMatch, table, tableBits, ipLimit);
    if nextEmit < end {
      TilesTail(fragment, start, commands, nextEmit, end - nextEmit);
      commands := commands + [FragmentCommand(end - nextEmit, 0, 0)];
    }
  }

  /** The search itself: matches, chains of matches, and where the last of them ends. */
  method Search(fragment: seq<Byte>, start: nat, end: nat, minMatch: nat, table: array<nat>, tableBits: nat,
                ipLimit: nat)
    returns (commands: seq<FragmentCommand>, nextEmit: nat)
    requires Margins(fragment, start, end, minMatch, ipLimit) && tableBits <= 64 && table.Length == Pow2(tableBits)
    requires Entries(table[..], start + 1)
    modifies table
    ensures start <= nextEmit <= end && Tiles(fragment, start, commands, nextEmit) && AllCopies(commands)
    ensures Entries(table[..], end)
  {
    hide Tiles, Entries, AllCopies, HashFragment, IsMatchAt;
    var nextPosition: nat := start + 1;
    var nextHash: nat := HashFragment(fragment, nextPosition, minMatch, tableBits);
    var skip: nat := SKIP_START;
    var lastDistance: Option<nat> := None;
    commands, nextEmit := [], start;
    NoCommands(fragment, start);
    while true
      invariant start <= nextEmit <= nextPosition <= end && start < nextPosition
      invariant Tiles(fragment, start, commands, nextEmit) && AllCopies(commands)
      invariant lastDistance.Some? ==> lastDistance.value > 0
      invariant Entries(table[..], nextPosition) && nextHash < table.Length && skip >= SKIP_START
      decreases end - nextPosition
    {
      var t := Trawl(fragment, start, end, minMatch, table, tableBits, ipLimit, nextPosition, nextHash, skip,
                     lastDistance);
      if !t.found {
        EntriesRise(table[..], if nextPosition < ipLimit then ipLimit else nextPosition, end);
        return;
      }
      nextPosition, nextHash, skip := t.nextPosition, t.nextHash, t.skip;
      if t.position - t.candidate <= FRAGMENT_MAX_DISTANCE {
        var matched;
        commands, matched := TakeMatch(fragment, start, end, minMatch, ipLimit, nextEmit, t.position, t.candidate,
                                       commands);
        var position := t.position + matched;
        var distance := t.position - t.candidate;
        nextEmit := position;
        if position >= ipLimit {
          EntriesRise(table[..], t.position + 1, end);
          return;
        }
        EntriesRise(table[..], t.position + 1, position);
        position, commands, distance :=
          ChainMatches(fragment, start, end, minMatch, table, tableBits, ipLimit, position, commands, distance);
        nextEmit := position;
        if position >= ipLimit {
          return;
        }
        lastDistance := Some(distance);
        nextPosition := position + 1;
        nextHash := HashFragment(fragment, nextPosition, minMatch, tableBits);
        skip := SKIP_START;
      } else {
        EntriesRise(table[..], t.position + 1, nextPosition);
      }
    }
  }
}
