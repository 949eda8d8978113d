/** How the distances of `find_all_matches` grow (`src/encode/hash_tree.rs`): always among the copies, and with the
    dictionary's matches behind them exactly if the addresses that are kept never fall as the matches get longer. */
module MatchDistances {
  import opened Arithmetic
  import opened Bytes
  import opened SearchTree
  import opened HashTree
  import opened Dictionary
  import opened DictionaryMatches
  import opened Outcomes

  /** No match is nearer than one before it. */
  predicate Grows(ms: seq<TreeMatch>)
  {
    forall i, j :: 0 <= i < j < |ms| ==> ms[i].distance <= ms[j].distance
  }

  /** Of the lengths from `least` on for which the table offers a match, a longer one has no lower address. */
  predicate NeverFalls(table: seq<nat>, n: nat, least: nat, maxBackward: nat, maxDistance: nat)
    requires n <= |table|
  {
    forall a, b |
      least <= a < b < n && Offers(table, a, maxBackward, maxDistance) && Offers(table, b, maxBackward, maxDistance) ::
      table[a] / 32 <= table[b] / 32
  }

  lemma {:induction false} AtLeastAppends(a: seq<DictionaryMatch>, b: seq<DictionaryMatch>, least: nat)
    ensures AtLeast(a + b, least) == AtLeast(a, least) + AtLeast(b, least)
  {
    if a == [] {
      assert [] + b == b;
    } else {
      hide *;
      AtLeastAppends(a[1..], b, least);
      assert a + b != [] && (a + b)[0] == a[0] && (a + b)[1..] == a[1..] + b;
      FirstKept(a, least);
      FirstKept(a + b, least);
      JoinedTwice(if a[0].length >= least then [TreeMatch(a[0].distance, a[0].length, a[0].lengthCode)] else [],
                  AtLeast(a[1..], least), AtLeast(b, least));
    }
  }

  lemma JoinedTwice(a: seq<TreeMatch>, b: seq<TreeMatch>, c: seq<TreeMatch>)
    ensures a + (b + c) == a + b + c
  {
  }

  lemma FirstKept(found: seq<DictionaryMatch>, least: nat)
    requires found != []
    ensures AtLeast(found, least) ==
            (if found[0].length >= least then [TreeMatch(found[0].distance, found[0].length, found[0].lengthCode)]
             else []) +
            AtLeast(found[1..], least)
  {
  }

  function AsTreeMatch(table: seq<nat>, len: nat, maxBackward: nat): TreeMatch
    requires len < |table|
  {
    TreeMatch(maxBackward + 1 + table[len] / 32, len, table[len] % 32)
  }

  /** One length more. */
  lemma KeptStep(table: seq<nat>, n: nat, least: nat, maxBackward: nat, maxDistance: nat)
    requires 0 < n <= |table|
    ensures AtLeast(Collected(table, n, maxBackward, maxDistance), least) ==
            AtLeast(Collected(table, n - 1, maxBackward, maxDistance), least) +
            if n - 1 >= least && Offers(table, n - 1, maxBackward, maxDistance) then
                [AsTreeMatch(table, n - 1, maxBackward)] else []
  {
    var last := if Offers(table, n - 1, maxBackward, maxDistance) then [MatchAt(table, n - 1, maxBackward)] else [];
    AtLeastAppends(Collected(table, n - 1, maxBackward, maxDistance), last, least);
    hide Collected;
    if last != [] {
      assert last[1..] == [];
    }
  }

  /** What is kept is what the table offers from `least` on. */
  lemma {:induction false} KeptAre(table: seq<nat>, n: nat, least: nat, maxBackward: nat, maxDistance: nat)
    requires n <= |table|
    ensures var kept := AtLeast(Collected(table, n, maxBackward, maxDistance), least);
            && (forall i | 0 <= i < |kept| ::
                  && least <= kept[i].length < n && Offers(table, kept[i].length, maxBackward, maxDistance)
                  && kept[i] == AsTreeMatch(table, kept[i].length, maxBackward))
            && (forall len :: least <= len < n && Offers(table, len, maxBackward, maxDistance) ==>
                  AsTreeMatch(table, len, maxBackward) in kept)
  {
    hide AtLeast, Collected, Offers;
    if n == 0 {
      NothingKept(table, least, maxBackward, maxDistance);
    } else {
      KeptAre(table, n - 1, least, maxBackward, maxDistance);
      KeptStep(table, n, least, maxBackward, maxDistance);
    }
  }

  lemma NothingKept(table: seq<nat>, least: nat, maxBackward: nat, maxDistance: nat)
    ensures AtLeast(Collected(table, 0, maxBackward, maxDistance), least) == []
  {
  }

  /** The kept matches grow in distance exactly if their addresses never fall. */
  lemma {:induction false} KeptGrow(table: seq<nat>, n: nat, least: nat, maxBackward: nat, maxDistance: nat)
    requires n <= |table|
    ensures Grows(AtLeast(Collected(table, n, maxBackward, maxDistance), least)) <==>
            NeverFalls(table, n, least, maxBackward, maxDistance)
  {
    hide AtLeast, Collected, Offers;
    if n == 0 {
      NothingKept(table, least, maxBackward, maxDistance);
    } else {
      var before := AtLeast(Collected(table, n - 1, maxBackward, maxDistance), least);
      KeptGrow(table, n - 1, least, maxBackward, maxDistance);
      KeptStep(table, n, least, maxBackward, maxDistance);
      if n - 1 >= least && Offers(table, n - 1, maxBackward, maxDistance) {
        KeptAre(table, n - 1, least, maxBackward, maxDistance);
        OneMoreGrows(before, AsTreeMatch(table, n - 1, maxBackward));
        LastNeverFalls(table, n, least, maxBackward, maxDistance, before);
      } else {
        assert before + [] == before;
        assert NeverFalls(table, n, least, maxBackward, maxDistance) ==
               NeverFalls(table, n - 1, least, maxBackward, maxDistance);
      }
    }
  }

  lemma OneMoreGrows(ms: seq<TreeMatch>, m: TreeMatch)
    ensures Grows(ms + [m]) <==> Grows(ms) && forall i :: 0 <= i < |ms| ==> ms[i].distance <= m.distance
  {
    var all := ms + [m];
    if Grows(all) {
      forall i | 0 <= i < |ms|
        ensures ms[i].distance <= m.distance
      {
        assert all[i] == ms[i] && all[|ms|] == m;
      }
      forall i, j | 0 <= i < j < |ms|
        ensures ms[i].distance <= ms[j].distance
      {
        assert all[i] == ms[i] && all[j] == ms[j];
      }
    }
  }

  lemma LastNeverFalls(table: seq<nat>, n: nat, least: nat, maxBackward: nat, maxDistance: nat, before: seq<TreeMatch>)
    requires least < n <= |table| && Offers(table, n - 1, maxBackward, maxDistance)
    requires forall i | 0 <= i < |before| ::
               && least <= before[i].length < n - 1 && Offers(table, before[i].length, maxBackward, maxDistance)
               && before[i] == AsTreeMatch(table, before[i].length, maxBackward)
    requires forall len :: least <= len < n - 1 && Offers(table, len, maxBackward, maxDistance) ==>
               AsTreeMatch(table, len, maxBackward) in before
    ensures NeverFalls(table, n, least, maxBackward, maxDistance) <==>
            NeverFalls(table, n - 1, least, maxBackward, maxDistance) &&
            forall i :: 0 <= i < |before| ==> before[i].distance <= AsTreeMatch(table, n - 1, maxBackward).distance
  {
    hide Offers;
    if forall i :: 0 <= i < |before| ==> before[i].distance <= AsTreeMatch(table, n - 1, maxBackward).distance {
      forall a | least <= a < n - 1 && Offers(table, a, maxBackward, maxDistance)
        ensures table[a] / 32 <= table[n - 1] / 32
      {
        assert AsTreeMatch(table, a, maxBackward) in before;
      }
    }
  }

  /** Copies within the backward limit, then matches beyond it. */
  lemma CopiesFirst(copies: seq<TreeMatch>, beyond: seq<TreeMatch>, maxBackward: nat)
    requires forall i :: 0 <= i < |copies| ==> copies[i].distance <= maxBackward
    requires forall i, j :: 0 <= i < j < |copies| ==> copies[i].distance <= copies[j].distance
    requires forall i :: 0 <= i < |beyond| ==> maxBackward < beyond[i].distance
    ensures Grows(copies + beyond) <==> Grows(beyond)
  {
    var all := copies + beyond;
    if Grows(all) {
      forall i, j | 0 <= i < j < |beyond|
        ensures beyond[i].distance <= beyond[j].distance
      {
        assert all[|copies| + i] == beyond[i] && all[|copies| + j] == beyond[j];
      }
    }
  }

  /** The whole result grows in distance exactly if no dictionary match could be kept, or the addresses
      that are kept never fall as the matches get longer. */
  lemma GrowthIsOrder(words: Words, lut: nat -> seq<LutWord>, input: seq<Byte>, position: nat, maxLength: nat,
                      maxBackward: nat, maxDistance: nat, matches: seq<TreeMatch>, copies: nat, table: seq<nat>)
    requires AllMatches(words, lut, input, position, maxLength, maxBackward, maxDistance, matches, copies, table)
    ensures BestCopy(matches, copies) < maxLength ==> |table| == MAX_MATCH_LENGTH + 1
    ensures Grows(matches) <==>
            BestCopy(matches, copies) >= maxLength ||
            NeverFalls(table, MAX_MATCH_LENGTH + 1, Max(BestCopy(matches, copies) + 1, 4), maxBackward, maxDistance)
  {
    hide *;
    UnpackMatches(words, lut, input, position, maxLength, maxBackward, maxDistance, matches, copies, table);
    FourAtLeast(BestCopy(matches, copies));
    var lz, kept, least := matches[..copies], matches[copies..], Max(BestCopy(matches, copies) + 1, 4);
    CopiesGrow(input, position, maxLength, maxBackward, lz);
    BeyondTheWindow(words, input, position, least, maxLength, maxBackward, maxDistance, kept);
    KeptOf(words, lut, input, position, maxLength, maxBackward, maxDistance, BestCopy(matches, copies), table, kept);
    CopiesFirst(lz, kept, maxBackward);
    assert lz + kept == matches;
    if BestCopy(matches, copies) < maxLength {
      KeptGrow(table, MAX_MATCH_LENGTH + 1, least, maxBackward, maxDistance);
    } else {
      FewGrow(kept);
    }
  }

  lemma UnpackMatches(words: Words, lut: nat -> seq<LutWord>, input: seq<Byte>, position: nat, maxLength: nat,
                      maxBackward: nat, maxDistance: nat, matches: seq<TreeMatch>, copies: nat, table: seq<nat>)
    requires AllMatches(words, lut, input, position, maxLength, maxBackward, maxDistance, matches, copies, table)
    ensures position <= |input| && copies <= |matches|
    ensures Progressive(input, position, maxLength, position - maxBackward, position, 1, matches[..copies])
    ensures Gathered(words, lut, input, position, maxLength, maxBackward, maxDistance, BestCopy(matches, copies), table,
                     matches[copies..])
    ensures TrueWords(words, input, position, Max(BestCopy(matches, copies) + 1, 4), maxLength, maxBackward,
                      maxDistance, matches[copies..])
  {
    hide Progressive, Gathered, TrueWords;
  }

  lemma FourAtLeast(best: nat)
    ensures Max(best + 1, 4) >= 4
  {
  }

  lemma FewGrow(ms: seq<TreeMatch>)
    requires |ms| <= 1 || forall i, j :: 0 <= i < j < |ms| ==> ms[i].distance == ms[j].distance
    ensures Grows(ms)
  {
  }

  lemma CopiesGrow(input: seq<Byte>, position: nat, maxLength: nat, maxBackward: nat, lz: seq<TreeMatch>)
    requires Progressive(input, position, maxLength, position - maxBackward, position, 1, lz)
    ensures forall i :: 0 <= i < |lz| ==> lz[i].distance <= maxBackward
    ensures forall i, j :: 0 <= i < j < |lz| ==> lz[i].distance <= lz[j].distance
    ensures lz != [] ==> 0 < lz[0].distance <= position
  {
    forall i | 0 <= i < |lz|
      ensures 0 < lz[i].distance <= Min(position, maxBackward)
    {
      assert lz[i] in lz;
    }
  }

  lemma KeptOf(words: Words, lut: nat -> seq<LutWord>, input: seq<Byte>, position: nat, maxLength: nat,
               maxBackward: nat, maxDistance: nat, best: nat, table: seq<nat>, ms: seq<TreeMatch>)
    requires position <= |input|
    requires Gathered(words, lut, input, position, maxLength, maxBackward, maxDistance, best, table, ms)
    ensures best >= maxLength ==> ms == []
    ensures best < maxLength ==>
              && |table| == MAX_MATCH_LENGTH + 1
              && ms == AtLeast(Collected(table, MAX_MATCH_LENGTH + 1, maxBackward, maxDistance), Max(best + 1, 4))
  {
    hide AtLeast, Collected, OffersWords;
  }

  lemma BeyondTheWindow(words: Words, input: seq<Byte>, position: nat, least: nat, maxLength: nat, maxBackward: nat,
                        maxDistance: nat, ms: seq<TreeMatch>)
    requires TrueWords(words, input, position, least, maxLength, maxBackward, maxDistance, ms)
    ensures forall i :: 0 <= i < |ms| ==> maxBackward < ms[i].distance <= maxDistance
    ensures forall i :: 0 <= i < |ms| ==> least <= ms[i].length <= maxLength && position + ms[i].length <= |input|
    ensures forall i, j :: 0 <= i < j < |ms| ==> ms[i].length < ms[j].length
  {
    hide Transform;
  }

  /** A caller can tell beforehand that the result will grow: the limit leaves the dictionary no more than
      one distance, or there is no room for matches of two lengths. */
  predicate LittleRoom(input: seq<Byte>, position: nat, maxLength: nat, maxBackward: nat, maxDistance: nat)
    requires position <= |input|
  {
    maxDistance <= maxBackward + 1 || Min(maxLength, |input| - position) <= 4
  }

  lemma LittleRoomGrows(words: Words, lut: nat -> seq<LutWord>, input: seq<Byte>, position: nat, maxLength: nat,
                        maxBackward: nat, maxDistance: nat, matches: seq<TreeMatch>, copies: nat, table: seq<nat>)
    requires AllMatches(words, lut, input, position, maxLength, maxBackward, maxDistance, matches, copies, table)
    requires LittleRoom(input, position, maxLength, maxBackward, maxDistance)
    ensures Grows(matches)
  {
    hide *;
    UnpackMatches(words, lut, input, position, maxLength, maxBackward, maxDistance, matches, copies, table);
    FourAtLeast(BestCopy(matches, copies));
    var lz, kept, least := matches[..copies], matches[copies..], Max(BestCopy(matches, copies) + 1, 4);
    CopiesGrow(input, position, maxLength, maxBackward, lz);
    BeyondTheWindow(words, input, position, least, maxLength, maxBackward, maxDistance, kept);
    NoChoice(input, position, maxLength, maxBackward, maxDistance, kept);
    CopiesFirst(lz, kept, maxBackward);
    assert lz + kept == matches;
  }

  lemma NoChoice(input: seq<Byte>, position: nat, maxLength: nat, maxBackward: nat, maxDistance: nat,
                 ms: seq<TreeMatch>)
    requires position <= |input| && LittleRoom(input, position, maxLength, maxBackward, maxDistance)
    requires forall i :: 0 <= i < |ms| ==> maxBackward < ms[i].distance <= maxDistance
    requires forall i :: 0 <= i < |ms| ==> 4 <= ms[i].length <= maxLength && position + ms[i].length <= |input|
    requires forall i, j :: 0 <= i < j < |ms| ==> ms[i].length < ms[j].length
    ensures Grows(ms)
  {
    if |ms| >= 2 {
      assert ms[0].length < ms[1].length;
    }
  }

  const TIME: seq<Byte> := [116, 105, 109, 101]
  const TIMEX: seq<Byte> := [116, 105, 109, 101, 120]

  /** A dictionary in which the longer of two words has the lower number. */
  function ShortWordLast(): Words
  {
    (length: nat, index: nat) =>
      if length == 4 && index == 1 then TIME else if length == 5 && index == 0 then TIMEX else seq(length, _ => 0)
  }

  function TwoWords(): nat -> seq<LutWord>
  {
    _ => [LutWord(4, IDENTITY, 1), LutWord(5, IDENTITY, 0)]
  }

  /** With more room than that there are a dictionary and an input whose matches do not grow: the longer
      word is found at the lower address. */
  lemma MoreRoomFalls(maxLength: nat, maxBackward: nat, maxDistance: nat, matches: seq<TreeMatch>, copies: nat,
                      table: seq<nat>)
    requires !LittleRoom(TIMEX, 0, maxLength, maxBackward, maxDistance)
    requires AllMatches(ShortWordLast(), TwoWords(), TIMEX, 0, maxLength, maxBackward, maxDistance, matches, copies,
                        table)
    ensures ValidLut(ShortWordLast(), TwoWords()) && !Grows(matches)
  {
    hide *;
    TwoWordsAreValid();
    CopiesNowhere(maxLength, maxBackward, maxDistance, matches, copies, table);
    var found := BothOffered(maxLength, maxBackward, maxDistance, matches, table);
    BeyondTheWindow(ShortWordLast(), TIMEX, 0, 4, maxLength, maxBackward, maxDistance, matches);
    var i, j := BothKept(found, matches, maxBackward);
    TimeIsFar(maxLength, maxBackward, maxDistance, matches, i);
    Fallen(matches, i, j);
  }

  lemma Fallen(ms: seq<TreeMatch>, i: nat, j: nat)
    requires i < j < |ms| && ms[i].distance > ms[j].distance
    ensures !Grows(ms)
  {
  }

  lemma TwoWordsAreValid()
    ensures ValidLut(ShortWordLast(), TwoWords())
  {
    WordCounts();
  }

  /** At the start of the input nothing can be copied. */
  lemma CopiesNowhere(maxLength: nat, maxBackward: nat, maxDistance: nat, matches: seq<TreeMatch>, copies: nat,
                      table: seq<nat>)
    requires AllMatches(ShortWordLast(), TwoWords(), TIMEX, 0, maxLength, maxBackward, maxDistance, matches, copies,
                        table)
    requires !LittleRoom(TIMEX, 0, maxLength, maxBackward, maxDistance)
    ensures copies == 0 && Gathered(ShortWordLast(), TwoWords(), TIMEX, 0, maxLength, maxBackward, maxDistance, 1,
                                    table, matches)
    ensures TrueWords(ShortWordLast(), TIMEX, 0, 4, maxLength, maxBackward, maxDistance, matches)
  {
    CopiesGrow(TIMEX, 0, maxLength, maxBackward, matches[..copies]);
    hide Progressive, TrueWords, Gathered;
    assert |matches[..copies]| == copies;
    assert matches[0..] == matches;
  }

  lemma BothOffered(maxLength: nat, maxBackward: nat, maxDistance: nat, matches: seq<TreeMatch>, table: seq<nat>)
    returns (found: seq<DictionaryMatch>)
    requires Gathered(ShortWordLast(), TwoWords(), TIMEX, 0, maxLength, maxBackward, maxDistance, 1, table, matches)
    requires !LittleRoom(TIMEX, 0, maxLength, maxBackward, maxDistance)
    ensures matches == AtLeast(found, 4)
    ensures exists m :: m in found && m.length == 4 && m.distance <= maxBackward + 2
    ensures exists m :: m in found && m.length == 5 && m.distance <= maxBackward + 1
  {
    hide AtLeast, FromTable, OffersWords;
    found :| && matches == AtLeast(found, 4) && FromTable(found, table, maxBackward, maxDistance)
             && OffersWords(ShortWordLast(), TwoWords(), TIMEX, 0, maxLength, maxBackward, maxDistance, found);
    BothStand(maxLength, maxBackward, maxDistance, found);
  }

  lemma BothStand(maxLength: nat, maxBackward: nat, maxDistance: nat, found: seq<DictionaryMatch>)
    requires OffersWords(ShortWordLast(), TwoWords(), TIMEX, 0, maxLength, maxBackward, maxDistance, found)
    requires !LittleRoom(TIMEX, 0, maxLength, maxBackward, maxDistance)
    ensures exists m :: m in found && m.length == 4 && m.distance <= maxBackward + 2
    ensures exists m :: m in found && m.length == 5 && m.distance <= maxBackward + 1
  {
    hide Hash15;
    var four, five := LutWord(4, IDENTITY, 1), LutWord(5, IDENTITY, 0);
    assert TIMEX[0..] == TIMEX && TIMEX[..4] == TIME && TIMEX[..5] == TIMEX;
    var bucket := TwoWords()(Hash15(TIMEX[0..]));
    assert bucket == [four, five] && four in bucket && five in bucket;
    assert StandsWhole(ShortWordLast(), TIMEX[0..], four) && StandsWhole(ShortWordLast(), TIMEX[0..], five);
    assert OffersWord(found, four, maxBackward, maxDistance) && OffersWord(found, five, maxBackward, maxDistance);
  }

  lemma {:induction false} KeptIn(found: seq<DictionaryMatch>, least: nat, m: DictionaryMatch)
    requires m in found && m.length >= least
    ensures TreeMatch(m.distance, m.length, m.lengthCode) in AtLeast(found, least)
  {
    if found[0] != m {
      KeptIn(found[1..], least, m);
    }
  }

  lemma BothKept(found: seq<DictionaryMatch>, matches: seq<TreeMatch>, maxBackward: nat) returns (i: nat, j: nat)
    requires matches == AtLeast(found, 4) && forall a, b :: 0 <= a < b < |matches| ==>
             matches[a].length < matches[b].length
    requires exists m :: m in found && m.length == 4 && m.distance <= maxBackward + 2
    requires exists m :: m in found && m.length == 5 && m.distance <= maxBackward + 1
    ensures i < j < |matches| && matches[i].length == 4 && matches[j].length == 5
    ensures matches[i].distance <= maxBackward + 2 && matches[j].distance <= maxBackward + 1
  {
    hide AtLeast;
    var four :| four in found && four.length == 4 && four.distance <= maxBackward + 2;
    var five :| five in found && five.length == 5 && five.distance <= maxBackward + 1;
    KeptIn(found, 4, four);
    KeptIn(found, 4, five);
    i :| 0 <= i < |matches| && matches[i] == TreeMatch(four.distance, four.length, four.lengthCode);
    j :| 0 <= j < |matches| && matches[j] == TreeMatch(five.distance, five.length, five.lengthCode);
  }

  /** No first word of any length is the shorter one. */
  lemma TimeIsFar(maxLength: nat, maxBackward: nat, maxDistance: nat, matches: seq<TreeMatch>, i: nat)
    requires TrueWords(ShortWordLast(), TIMEX, 0, 4, maxLength, maxBackward, maxDistance, matches)
    requires i < |matches| && matches[i].length == 4
    ensures matches[i].distance > maxBackward + 1
  {
    hide Transform;
    var m := matches[i];
    assert TrueWord(ShortWordLast(), TIMEX, 0, 4, maxLength, maxBackward, maxDistance, m);
    assert TIMEX[0..4] == TIME;
    if m.distance == maxBackward + 1 {
      FirstWord(m.lengthCode, maxBackward);
    }
  }

  lemma FirstWord(lengthCode: nat, maxBackward: nat)
    ensures Transform(ShortWordLast(), maxBackward + 1, lengthCode, maxBackward) != Ok(TIME)
  {
    hide TransformWord;
    var words := ShortWordLast();
    if SizeBits(lengthCode) != 0 {
      FirstAddress(Pow2(SizeBits(lengthCode)));
      PlainWord(words(lengthCode, 0));
      if |words(lengthCode, 0)| == 4 {
        assert words(lengthCode, 0)[0] == 0;
      }
    }
  }

  lemma FirstAddress(p: nat)
    requires p > 0
    ensures Quotient(0, p) == 0 && Remainder(0, p) == 0
  {
  }

  lemma PlainWord(word: seq<Byte>)
    ensures 0 < TRANSFORM_COUNT && TransformWord(word, 0) == word
  {
    FirstIsIdentity();
    assert [] + word + [] == word;
  }
}
