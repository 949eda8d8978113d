/** Kraft's inequality: codewords of which none starts another never need more than the whole code
    space. It turns "least among lengths that fit" into "least among all prefix codes". */
module Kraft {
  import opened Arithmetic
  import opened HuffmanTree
  import opened LengthLimitedCode
  import opened CanonicalCode

  /** Neither word starts the other. */
  predicate Apart(v: seq<bool>, w: seq<bool>)
  {
    !(v <= w) && !(w <= v)
  }

  predicate ApartFrom(v: seq<bool>, words: seq<seq<bool>>)
  {
    words == [] || (Apart(v, words[0]) && ApartFrom(v, words[1..]))
  }

  predicate AllApart(words: seq<seq<bool>>)
  {
    words == [] || (ApartFrom(words[0], words[1..]) && AllApart(words[1..]))
  }

  predicate UpTo(words: seq<seq<bool>>, limit: nat)
  {
    words == [] || (|words[0]| <= limit && UpTo(words[1..], limit))
  }

  function Room(words: seq<seq<bool>>, limit: nat): nat
    requires UpTo(words, limit)
  {
    if words == [] then 0 else Pow2(limit - |words[0]|) + Room(words[1..], limit)
  }

  predicate NoneEmpty(words: seq<seq<bool>>)
  {
    words == [] || (words[0] != [] && NoneEmpty(words[1..]))
  }

  /** What follows the first bit, of the words that start with `bit`. */
  function Tails(words: seq<seq<bool>>, bit: bool): seq<seq<bool>>
  {
    if words == [] then []
    else if words[0] != [] && words[0][0] == bit then [words[0][1..]] + Tails(words[1..], bit)
    else Tails(words[1..], bit)
  }

  lemma TailsCons(w: seq<bool>, rest: seq<seq<bool>>)
    ensures ([w] + rest)[1..] == rest && ([w] + rest)[0] == w
  {
  }

  lemma {:induction false} TailsApartFrom(v: seq<bool>, words: seq<seq<bool>>, bit: bool)
    requires v != [] && v[0] == bit && ApartFrom(v, words)
    ensures ApartFrom(v[1..], Tails(words, bit))
  {
    if words != [] {
      TailsApartFrom(v, words[1..], bit);
      var w := words[0];
      if w != [] && w[0] == bit {
        assert v == [bit] + v[1..] && w == [bit] + w[1..];
        TailsCons(w[1..], Tails(words[1..], bit));
      }
    }
  }

  lemma {:induction false} TailsAllApart(words: seq<seq<bool>>, bit: bool)
    requires AllApart(words)
    ensures AllApart(Tails(words, bit))
  {
    if words != [] {
      TailsAllApart(words[1..], bit);
      var w := words[0];
      if w != [] && w[0] == bit {
        TailsApartFrom(w, words[1..], bit);
        TailsCons(w[1..], Tails(words[1..], bit));
      }
    }
  }

  lemma {:induction false} TailsRoom(words: seq<seq<bool>>, limit: nat)
    requires limit > 0 && UpTo(words, limit) && NoneEmpty(words)
    ensures UpTo(Tails(words, false), limit - 1) && UpTo(Tails(words, true), limit - 1)
    ensures Room(words, limit) == Room(Tails(words, false), limit - 1) + Room(Tails(words, true), limit - 1)
  {
    if words != [] {
      TailsRoom(words[1..], limit);
      var w := words[0];
      TailsCons(w[1..], Tails(words[1..], w[0]));
      assert limit - |w| == (limit - 1) - |w[1..]|;
    }
  }

  /** An empty word starts every other, so it is alone. */
  lemma {:induction false} EmptyIsAlone(words: seq<seq<bool>>)
    requires AllApart(words) && !NoneEmpty(words)
    ensures |words| == 1 && words[0] == []
  {
    if words[0] == [] {
      NothingApartFromEmpty(words[1..]);
    } else {
      EmptyIsAlone(words[1..]);
      EmptyStartsAll(words[0]);
      assert false;
    }
  }

  lemma EmptyStartsAll(w: seq<bool>)
    ensures !Apart([], w) && !Apart(w, [])
  {
  }

  lemma NothingApartFromEmpty(words: seq<seq<bool>>)
    requires ApartFrom([], words)
    ensures words == []
  {
    if words != [] {
      EmptyStartsAll(words[0]);
      assert false;
    }
  }

  lemma {:induction false} WordsFit(words: seq<seq<bool>>, limit: nat)
    requires AllApart(words) && UpTo(words, limit)
    ensures Room(words, limit) <= Pow2(limit)
    decreases limit
  {
    if !NoneEmpty(words) {
      EmptyIsAlone(words);
      assert Room(words[1..], limit) == 0;
    } else if words != [] {
      TailsRoom(words, limit);
      TailsAllApart(words, false);
      TailsAllApart(words, true);
      WordsFit(Tails(words, false), limit - 1);
      WordsFit(Tails(words, true), limit - 1);
    }
  }

  /** A prefix code for an alphabet: one word per symbol, empty for symbols it leaves out. */
  ghost predicate IsPrefixCode(words: seq<seq<bool>>)
  {
    forall i, j :: 0 <= i < |words| && 0 <= j < |words| && i != j && words[i] != [] && words[j] != [] ==>
      !(words[i] <= words[j])
  }

  function Lengths(words: seq<seq<bool>>): (ls: seq<nat>)
    ensures |ls| == |words| && forall i :: 0 <= i < |ls| ==> ls[i] == |words[i]|
  {
    seq(|words|, i requires 0 <= i < |words| => |words[i]|)
  }

  function Present(words: seq<seq<bool>>): seq<seq<bool>>
  {
    if words == [] then [] else (if words[0] == [] then [] else [words[0]]) + Present(words[1..])
  }

  lemma {:induction false} PresentApartFrom(v: seq<bool>, words: seq<seq<bool>>)
    requires v != [] && forall j :: 0 <= j < |words| && words[j] != [] ==> Apart(v, words[j])
    ensures ApartFrom(v, Present(words))
  {
    if words != [] {
      PresentApartFrom(v, words[1..]);
      TailsCons(words[0], Present(words[1..]));
      assert [] + Present(words[1..]) == Present(words[1..]);
    }
  }

  lemma {:induction false} PresentApart(words: seq<seq<bool>>)
    requires IsPrefixCode(words)
    ensures AllApart(Present(words))
  {
    if words != [] {
      var rest := words[1..];
      forall i, j | 0 <= i < |rest| && 0 <= j < |rest| && i != j && rest[i] != [] && rest[j] != []
        ensures !(rest[i] <= rest[j])
      {
        assert rest[i] == words[i + 1] && rest[j] == words[j + 1];
      }
      PresentApart(rest);
      assert [] + Present(rest) == Present(rest);
      if words[0] != [] {
        forall j | 0 <= j < |rest| && rest[j] != []
          ensures Apart(words[0], rest[j])
        {
          assert rest[j] == words[j + 1];
        }
        PresentApartFrom(words[0], rest);
        TailsCons(words[0], Present(rest));
      }
    }
  }

  lemma {:induction false} PresentRoom(words: seq<seq<bool>>, limit: nat)
    requires forall i :: 0 <= i < |words| ==> |words[i]| <= limit
    ensures UpTo(Present(words), limit) && Room(Present(words), limit) == Space(Lengths(words), limit)
  {
    if words != [] {
      var rest := words[1..];
      assert forall i :: 0 <= i < |rest| ==> rest[i] == words[i + 1];
      PresentRoom(rest, limit);
      assert Lengths(words)[1..] == Lengths(rest);
      TailsCons(words[0], Present(rest));
      assert [] + Present(rest) == Present(rest);
    }
  }

  /** The inequality itself. */
  lemma KraftInequality(words: seq<seq<bool>>, limit: nat)
    requires IsPrefixCode(words) && forall i :: 0 <= i < |words| ==> |words[i]| <= limit
    ensures Space(Lengths(words), limit) <= Pow2(limit)
  {
    hide Room, AllApart, UpTo, Space;
    PresentApart(words);
    PresentRoom(words, limit);
    WordsFit(Present(words), limit);
  }

  lemma {:induction false} LongestWord(words: seq<seq<bool>>) returns (limit: nat)
    ensures forall i :: 0 <= i < |words| ==> |words[i]| <= limit
  {
    limit := 0;
    if words != [] {
      limit := LongestWord(words[1..]);
      if limit < |words[0]| {
        limit := |words[0]|;
      }
      assert forall i :: 0 < i < |words| ==> words[i] == words[1..][i - 1];
    }
  }

  /** Minimal lengths cost no more than any prefix code for the symbols that occur. */
  lemma MinimalAmongPrefixCodes(ws: seq<nat>, lengths: seq<nat>, words: seq<seq<bool>>)
    requires Minimal(ws, lengths) && IsPrefixCode(words) && |words| == |ws|
    requires forall s :: 0 <= s < |ws| && ws[s] != 0 ==> words[s] != []
    ensures Cost(ws, lengths) <= Cost(ws, Lengths(words))
  {
    hide Cost, Space, Pow2;
    var limit := LongestWord(words);
    KraftInequality(words, limit);
    assert Competes(ws, Lengths(words), limit);
  }

  /** The canonical codewords of lengths that fit are themselves such a code. */
  lemma CanonicalIsPrefixCode(lengths: seq<nat>)
    requires Fits(lengths)
    ensures var words := seq(|lengths|, s requires 0 <= s < |lengths| => Codeword(lengths, s));
            IsPrefixCode(words) && Lengths(words) == lengths
  {
    hide Fits, Codeword;
    var words := seq(|lengths|, s requires 0 <= s < |lengths| => Codeword(lengths, s));
    forall i, j | 0 <= i < |words| && 0 <= j < |words| && i != j && words[i] != [] && words[j] != []
      ensures !(words[i] <= words[j])
    {
      PrefixFree(lengths, i, j);
    }
  }
}
