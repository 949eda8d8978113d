/** Reading what the encoder writes: the bit-by-bit search returns the symbol of any codeword it is
    given, and takes exactly the codeword's bits. */
module PrefixReading {
  import opened CanonicalCode
  import opened CanonicalTables
  import opened ComplexPrefixDecoder
  import opened BlockStates
  import opened CompressedBlock
  import opened Outcomes

  /** What the encoder writes for a symbol; a symbol alone in its code takes no bits. */
  function SymbolWord(lengths: seq<nat>, s: nat): seq<bool>
    requires s < |lengths|
  {
    if NonZero(lengths) == 1 then [] else Codeword(lengths, s)
  }

  lemma LookupHit(t: Tables, lengths: seq<nat>, seen: seq<bool>, code: nat, length: nat, bit: bool) returns (s: nat)
    requires TablesFor(t, lengths) && At(t, lengths, seen, code, length)
    ensures Fits(lengths)
    ensures var c, l := 2 * code + (if bit then 1 else 0), length + 1;
            match Lookup(t, c, l)
            case Some(symbol) => symbol == s < |lengths| && lengths[s] > 0 && Codeword(lengths, s) == seen + [bit]
            case None => At(t, lengths, seen + [bit], c, l)
  {
    hide TablesFor, At, Codeword, Fits;
    s := Advance(t, lengths, seen, code, length, bit);
  }

  /** The rest of a codeword, from `k` bits on, completes the search with its symbol. */
  lemma {:induction false} ReadsRest(t: Tables, lengths: seq<nat>, s: nat, k: nat, code: nat, rest: seq<bool>)
    requires TablesFor(t, lengths) && s < |lengths| && k < lengths[s] &&
             At(t, lengths, Codeword(lengths, s)[..k], code, k)
    ensures SymbolRun(Canonical(t), Search(code, k), Codeword(lengths, s)[k..] + rest) == (NoSearch(), Some(s), rest)
    decreases lengths[s] - k
  {
    var w := Codeword(lengths, s);
    var bit := w[k];
    var found := LookupHit(t, lengths, w[..k], code, k, bit);
    var c := 2 * code + if bit then 1 else 0;
    TakeBit(w, k, rest);
    ReadBit(t, code, k, bit, w[k + 1..] + rest);
    hide TablesFor, At, Codeword, Fits, Lookup, SymbolRun;
    if Lookup(t, c, k + 1).Some? {
      SameCodeword(lengths, s, found, k + 1);
      assert w[k + 1..] + rest == rest;
    } else {
      NotYet(t, lengths, s, k + 1, c);
      ReadsRest(t, lengths, s, k + 1, c, rest);
    }
  }

  lemma TakeBit(w: seq<bool>, k: nat, rest: seq<bool>)
    requires k < |w|
    ensures w[..k] + [w[k]] == w[..k + 1] && w[k..] + rest == [w[k]] + (w[k + 1..] + rest)
  {
  }

  lemma ReadBit(t: Tables, code: nat, length: nat, bit: bool, more: seq<bool>)
    ensures var c := 2 * code + if bit then 1 else 0;
            SymbolRun(Canonical(t), Search(code, length), [bit] + more) ==
            match Lookup(t, c, length + 1)
            case Some(symbol) => (NoSearch(), Some(symbol), more)
            case None => SymbolRun(Canonical(t), Search(c, length + 1), more)
  {
    hide Lookup;
    assert ([bit] + more)[..1] == [bit] && ([bit] + more)[1..] == more;
  }

  lemma SameCodeword(lengths: seq<nat>, s: nat, t: nat, k: nat)
    requires Fits(lengths) && s < |lengths| && t < |lengths| && lengths[t] > 0 && k <= lengths[s] &&
             Codeword(lengths, t) == Codeword(lengths, s)[..k]
    ensures s == t && k == lengths[s]
  {
    hide Codeword, Fits;
    if s != t && k > 0 {
      PrefixFree(lengths, t, s);
      assert false;
    }
  }

  lemma NotYet(t: Tables, lengths: seq<nat>, s: nat, k: nat, code: nat)
    requires TablesFor(t, lengths) && s < |lengths| && 0 < k <= lengths[s] &&
             At(t, lengths, Codeword(lengths, s)[..k], code, k)
    ensures k < lengths[s]
  {
    var w := Codeword(lengths, s);
    ValueIs(t, lengths, w[..k], code, k);
    assert w[..lengths[s]] == w;
    hide Codeword, Fits, At, Searching, Value;
    NoCodewordYet(lengths, w[..k], s);
    if k == lengths[s] {
      assert false;
    }
  }

  lemma ValueIs(t: Tables, lengths: seq<nat>, seen: seq<bool>, code: nat, k: nat)
    requires TablesFor(t, lengths) && At(t, lengths, seen, code, k)
    ensures Fits(lengths) && Searching(lengths, Value(seen), |seen|)
  {
  }

  /** Any code for the lengths reads back any symbol that has a length. */
  lemma SymbolRoundTrip(code: PrefixCode, lengths: seq<nat>, s: nat, rest: seq<bool>)
    requires CodeFor(code, lengths) && s < |lengths| && lengths[s] > 0
    ensures SymbolRun(code, NoSearch(), SymbolWord(lengths, s) + rest) == (NoSearch(), Some(s), rest)
  {
    match code {
      case Single(only) =>
        OnlyUsed(lengths, s, only);
        assert [] + rest == rest;
        assert rest[..0] == [] && rest[0..] == rest;
      case Canonical(t) =>
        StartAt(t, lengths);
        assert Codeword(lengths, s)[..0] == [];
        ReadsRest(t, lengths, s, 0, 0, rest);
        assert Codeword(lengths, s)[0..] == Codeword(lengths, s);
    }
  }

  lemma StartAt(t: Tables, lengths: seq<nat>)
    requires TablesFor(t, lengths)
    ensures At(t, lengths, [], 0, 0)
  {
    NothingPending(lengths);
    SearchResumes(t, lengths, 0, 0);
  }
}
