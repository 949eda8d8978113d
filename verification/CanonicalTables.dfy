/** The two sides of a canonical code: the encoder's codeword table (`src/encode/prefix_code.rs`) and the
    decoder's count, first-code and symbol tables with its bit-by-bit search (`src/decode/prefix_code.rs`). */
module CanonicalTables {
  import opened Arithmetic
  import opened HuffmanTree
  import opened CanonicalCode
  import opened Outcomes

  datatype SymbolCode = SymbolCode(code: nat, bits: nat)

  /** The longest length. */
  method MaxLength(lengths: seq<nat>) returns (longest: nat)
    ensures forall s :: 0 <= s < |lengths| ==> lengths[s] <= longest
    ensures longest != 0 ==> longest in lengths
  {
    longest := 0;
    for s := 0 to |lengths|
      invariant forall t :: 0 <= t < s ==> lengths[t] <= longest
      invariant longest != 0 ==> longest in lengths
    {
      if longest < lengths[s] {
        longest := lengths[s];
      }
    }
  }

  /** How often each length occurs. */
  method CountLengths(lengths: seq<nat>, longest: nat) returns (counts: seq<nat>)
    requires forall s :: 0 <= s < |lengths| ==> lengths[s] <= longest
    ensures |counts| == longest + 1 && forall b :: 0 <= b <= longest ==> counts[b] == CountOf(lengths, b)
  {
    var table := new nat[longest + 1](_ => 0);
    hide CountOf;
    for b := 0 to longest + 1
      invariant forall a :: 0 <= a < b ==> table[a] == 0 == CountOf(lengths[..0], a)
      invariant forall a :: b <= a <= longest ==> table[a] == 0
    {
      NoneIn(b);
      assert lengths[..0] == [];
    }
    for s := 0 to |lengths|
      invariant forall b :: 0 <= b <= longest ==> table[b] == CountOf(lengths[..s], b)
    {
      forall b | 0 <= b <= longest
        ensures CountOf(lengths[..s + 1], b) == CountOf(lengths[..s], b) + if lengths[s] == b != 0 then 1 else 0
      {
        CountUpTo(lengths, s, b);
      }
      if lengths[s] != 0 {
        table[lengths[s]] := table[lengths[s]] + 1;
      }
    }
    assert lengths[..|lengths|] == lengths;
    counts := table[..];
  }

  lemma NoneIn(b: nat)
    ensures CountOf([], b) == 0
  {
  }

  /** The first codeword of each length, computed without overflowing 16 bits. */
  method FirstCodes(lengths: seq<nat>, counts: seq<nat>) returns (first: seq<nat>)
    requires 0 < |counts| <= MAX_LENGTH + 1 && forall b :: 0 <= b < |counts| ==> counts[b] == CountOf(lengths, b)
    requires Fits(lengths)
    ensures |first| == |counts| && forall b :: 0 <= b < |first| ==> first[b] == FirstCode(lengths, b) <= 0xffff
  {
    hide CountOf, Fits, End, FirstCode;
    var table := new nat[|counts|](_ => 0);
    var code: nat := 0;
    assert FirstCode(lengths, 0) == 0 by {
      FirstCodeStart(lengths);
    }
    for bits := 1 to |counts|
      invariant code == FirstCode(lengths, bits - 1)
      invariant forall b :: 0 <= b < bits ==> table[b] == FirstCode(lengths, b) <= 0xffff
    {
      FirstCodeStep(lengths, bits);
      code := (code + counts[bits - 1]) * 2;
      table[bits] := code;
    }
    first := table[..];
  }

  lemma FirstCodeStart(lengths: seq<nat>)
    ensures FirstCode(lengths, 0) == 0
  {
  }

  lemma FirstCodeStep(lengths: seq<nat>, bits: nat)
    requires 0 < bits <= MAX_LENGTH && Fits(lengths)
    ensures FirstCode(lengths, bits) == (FirstCode(lengths, bits - 1) + CountOf(lengths, bits - 1)) * 2 <= 0xffff
  {
    hide Fits, CountOf;
    CodesFit(lengths, bits - 1);
    Pow2Monotone(bits - 1, 14);
    Pow2Values();
  }

  lemma Pow2Values()
    ensures Pow2(14) == 0x4000 && Pow2(15) == 0x8000
  {
    assert Pow2(4) == 16;
    assert Pow2(8) == 256 by {
      Pow2Add(4, 4);
    }
    assert Pow2(12) == 4096 by {
      Pow2Add(8, 4);
    }
    assert Pow2(14) == 0x4000;
  }

  lemma NoneInAny()
    ensures forall b: nat :: CountOf([], b) == 0
  {
  }

  /** What each length's next codeword is once the first `s` symbols have theirs. */
  ghost predicate Assigned(lengths: seq<nat>, s: nat, next: seq<nat>)
    requires s <= |lengths|
  {
    forall b :: 0 <= b < |next| ==> next[b] == FirstCode(lengths, b) + CountOf(lengths[..s], b)
  }

  /** Symbol `s` takes the next codeword of its length, which is its own and has at most sixteen bits. */
  lemma AssignNext(lengths: seq<nat>, s: nat, next: seq<nat>)
    requires s < |lengths| && lengths[s] < |next| && Assigned(lengths, s, next)
    ensures lengths[s] == 0 ==> Assigned(lengths, s + 1, next)
    ensures lengths[s] != 0 ==>
              next[lengths[s]] == Code(lengths, s) && Assigned(lengths, s + 1, next[lengths[s] := Code(lengths, s) + 1])
  {
    hide CountOf, FirstCode, Code;
    CodeIs(lengths, s);
    forall b | 0 <= b < |next|
      ensures CountOf(lengths[..s + 1], b) == CountOf(lengths[..s], b) + if lengths[s] == b != 0 then 1 else 0
    {
      CountUpTo(lengths, s, b);
    }
  }

  lemma AssignFirst(lengths: seq<nat>, next: seq<nat>)
    requires forall b :: 0 <= b < |next| ==> next[b] == FirstCode(lengths, b)
    ensures Assigned(lengths, 0, next)
  {
    hide FirstCode;
    assert lengths[..0] == [];
    forall b | 0 <= b < |next|
      ensures next[b] == FirstCode(lengths, b) + CountOf(lengths[..0], b)
    {
      NoneIn(b);
    }
  }

  lemma CodeIs(lengths: seq<nat>, s: nat)
    requires s < |lengths|
    ensures Code(lengths, s) == FirstCode(lengths, lengths[s]) + CountOf(lengths[..s], lengths[s])
  {
  }

  /** No codeword needs more bits than its length, which fits sixteen. */
  lemma CodeBounded(lengths: seq<nat>, s: nat)
    requires Fits(lengths) && s < |lengths| && 0 < lengths[s] <= MAX_LENGTH
    ensures Code(lengths, s) < Pow2(lengths[s]) <= 0x8000
  {
    hide Fits, CountOf, FirstCode;
    CodesFit(lengths, lengths[s]);
    RankBelowCount(lengths, s);
    Pow2Monotone(lengths[s], 15);
    Pow2Values();
  }

  /** The table of the first symbols: absent ones have no code, the others theirs. */
  predicate Tabled(lengths: seq<nat>, codes: seq<Option<SymbolCode>>)
    requires |codes| <= |lengths|
  {
    forall s :: 0 <= s < |codes| ==>
      && codes[s] == (if lengths[s] == 0 then None else Some(SymbolCode(Code(lengths, s), lengths[s])))
      && (codes[s].Some? ==> codes[s].value.code < Pow2(lengths[s]) <= 0x8000)
  }

  lemma TabledNext(lengths: seq<nat>, codes: seq<Option<SymbolCode>>)
    requires Fits(lengths) && |codes| < |lengths| && Tabled(lengths, codes)
    ensures var s := |codes|;
            Tabled(lengths, codes + [if lengths[s] == 0 then None else Some(SymbolCode(Code(lengths, s), lengths[s]))])
  {
    if lengths[|codes|] > 0 {
      CodeBounded(lengths, |codes|);
    }
    hide Fits, Code, Pow2;
  }

  /** The encoder's table, computed without overflowing 16 bits. */
  method CanonicalCodes(lengths: seq<nat>) returns (codes: seq<Option<SymbolCode>>)
    requires Fits(lengths)
    ensures |codes| == |lengths|
    ensures forall s :: 0 <= s < |lengths| ==>
              codes[s] == if lengths[s] == 0 then None else Some(SymbolCode(Code(lengths, s), lengths[s]))
    ensures forall s :: 0 <= s < |lengths| ==> codes[s].Some? ==> codes[s].value.code < Pow2(lengths[s]) <= 0x8000
  {
    var maxBits := MaxLength(lengths);
    var counts := CountLengths(lengths, maxBits);
    assert |counts| <= MAX_LENGTH + 1;
    var first := FirstCodes(lengths, counts);
    codes := AssignCodes(lengths, first);
    hide Fits, Code, Pow2, CountOf;
  }

  /** Hands out the codewords of each length in order of symbol. */
  method AssignCodes(lengths: seq<nat>, first: seq<nat>) returns (codes: seq<Option<SymbolCode>>)
    requires Fits(lengths) && forall b :: 0 <= b < |first| ==> first[b] == FirstCode(lengths, b)
    requires forall s :: 0 <= s < |lengths| ==> lengths[s] < |first|
    ensures |codes| == |lengths| && Tabled(lengths, codes)
  {
    hide *;
    var nextCode := new nat[|first|](b requires 0 <= b < |first| => first[b]);
    codes := [];
    assert nextCode[..] == first;
    AssignFirst(lengths, first);
    TabledNone(lengths);
    for s := 0 to |lengths|
      invariant |codes| == s && Tabled(lengths, codes)
      invariant Assigned(lengths, s, nextCode[..])
    {
      ghost var was := nextCode[..];
      AssignNext(lengths, s, was);
      TabledNext(lengths, codes);
      if lengths[s] == 0 {
        codes := codes + [None];
      } else {
        var bits := lengths[s];
        var code := nextCode[bits];
        nextCode[bits] := nextCode[bits] + 1;
        assert nextCode[..] == was[bits := code + 1];
        codes := codes + [Some(SymbolCode(code, bits))];
      }
    }
  }

  lemma TabledNone(lengths: seq<nat>)
    ensures Tabled(lengths, [])
  {
  }

  datatype PrefixCodeError = Empty | InvalidCodeLength | Incomplete | Oversubscribed

  datatype Tables = Tables(counts: seq<nat>, firstCode: seq<nat>, firstSymbol: seq<nat>, symbols: seq<nat>,
                           maxLen: nat) {

    /** Whether some codeword of `length` bits is `code`. */
    predicate Hit(code: nat, length: nat)
      requires length < |counts| && length < |firstCode|
    {
      counts[length] != 0 && code >= firstCode[length] && code - firstCode[length] < counts[length]
    }
  }

  /** How many symbols have shorter codewords. */
  function FirstSymbol(lengths: seq<nat>, bits: nat): nat
  {
    if bits == 0 then 0 else FirstSymbol(lengths, bits - 1) + CountOf(lengths, bits - 1)
  }

  /** Where a symbol stands when symbols are listed by length, then by number. */
  function Position(lengths: seq<nat>, s: nat): nat
    requires s < |lengths|
  {
    FirstSymbol(lengths, lengths[s]) + Rank(lengths, s)
  }

  lemma {:induction false} FirstSymbolGrows(lengths: seq<nat>, a: nat, b: nat)
    requires a < b
    ensures FirstSymbol(lengths, a) + CountOf(lengths, a) <= FirstSymbol(lengths, b)
    decreases b
  {
    if a < b - 1 {
      FirstSymbolGrows(lengths, a, b - 1);
    }
  }

  lemma PositionsDiffer(lengths: seq<nat>, s: nat, t: nat)
    requires s < t < |lengths| && lengths[s] > 0 && lengths[t] > 0
    ensures Position(lengths, s) != Position(lengths, t)
  {
    hide CountOf, FirstSymbol, Rank;
    RankBelowCount(lengths, s);
    RankBelowCount(lengths, t);
    if lengths[s] < lengths[t] {
      FirstSymbolGrows(lengths, lengths[s], lengths[t]);
    } else if lengths[t] < lengths[s] {
      FirstSymbolGrows(lengths, lengths[t], lengths[s]);
    } else {
      RankInjective(lengths, s, t);
    }
  }

  lemma PositionBelow(lengths: seq<nat>, s: nat, b: nat)
    requires s < |lengths| && 0 < lengths[s] < b
    ensures Position(lengths, s) < FirstSymbol(lengths, b)
  {
    hide CountOf, FirstSymbol, Rank;
    RankBelowCount(lengths, s);
    FirstSymbolGrows(lengths, lengths[s], b);
  }

  /** What the decoder's tables say about the lengths they were built from. */
  ghost predicate TablesFor(t: Tables, lengths: seq<nat>)
  {
    && Complete(lengths)
    && |t.counts| == |t.firstCode| == |t.firstSymbol| == MAX_LENGTH + 1
    && (forall b :: 0 <= b <= MAX_LENGTH ==>
         && t.counts[b] == CountOf(lengths, b) && t.firstCode[b] == FirstCode(lengths, b)
         && t.firstSymbol[b] == FirstSymbol(lengths, b))
    && Listed(t.symbols, lengths, |lengths|)
    && t.maxLen <= MAX_LENGTH && forall s :: 0 <= s < |lengths| ==> lengths[s] <= t.maxLen
  }

  /** The first `n` symbols stand where they belong. */
  ghost predicate Listed(symbols: seq<nat>, lengths: seq<nat>, n: nat)
    requires n <= |lengths|
  {
    forall s :: 0 <= s < n && lengths[s] > 0 ==> Position(lengths, s) < |symbols| && symbols[Position(lengths, s)] == s
  }

  lemma ListOne(symbols: seq<nat>, lengths: seq<nat>, n: nat)
    requires n < |lengths| && Listed(symbols, lengths, n)
    ensures lengths[n] == 0 ==> Listed(symbols, lengths, n + 1)
    ensures lengths[n] > 0 && Position(lengths, n) < |symbols| ==>
            Listed(symbols[Position(lengths, n) := n], lengths, n + 1)
  {
    hide Position;
    forall s | 0 <= s < n && lengths[s] > 0 && lengths[n] > 0
      ensures Position(lengths, s) != Position(lengths, n)
    {
      PositionsDiffer(lengths, s, n);
    }
  }

  /** Where each length's symbols start in the list, and where the list ends. */
  method FirstSymbols(lengths: seq<nat>, counts: seq<nat>) returns (first: seq<nat>)
    requires |counts| == MAX_LENGTH + 1 && forall b :: 0 <= b <= MAX_LENGTH ==> counts[b] == CountOf(lengths, b)
    ensures |first| == MAX_LENGTH + 1 && forall b :: 0 <= b <= MAX_LENGTH ==> first[b] == FirstSymbol(lengths, b)
  {
    hide CountOf;
    var table := new nat[MAX_LENGTH + 1](_ => 0);
    var offset: nat := 0;
    NoCountOfZero(lengths);
    for length := 1 to MAX_LENGTH + 1
      invariant offset == FirstSymbol(lengths, length)
      invariant forall b :: 0 <= b < length ==> table[b] == FirstSymbol(lengths, b)
    {
      table[length] := offset;
      offset := offset + counts[length];
    }
    first := table[..];
  }

  /** The code space in use, in units of one codeword of the longest length. */
  method UsedSpace(lengths: seq<nat>, counts: seq<nat>) returns (used: nat)
    requires |counts| == MAX_LENGTH + 1 && forall b :: 0 <= b <= MAX_LENGTH ==> counts[b] == CountOf(lengths, b)
    ensures used == Space(lengths, MAX_LENGTH)
  {
    hide CountOf, Space, End, FirstCode;
    used := 0;
    EndIsSpace(lengths, 0);
    NoCountOfZero(lengths);
    for length := 1 to MAX_LENGTH + 1
      invariant used == End(lengths, length - 1) * Pow2(MAX_LENGTH - (length - 1))
    {
      UsedStep(lengths, length);
      used := used + counts[length] * Pow2(MAX_LENGTH - length);
    }
    EndIsSpace(lengths, MAX_LENGTH);
  }

  lemma UsedStep(lengths: seq<nat>, length: nat)
    requires 0 < length <= MAX_LENGTH
    ensures End(lengths, length) * Pow2(MAX_LENGTH - length) ==
            End(lengths, length - 1) * Pow2(MAX_LENGTH - (length - 1)) +
              CountOf(lengths, length) * Pow2(MAX_LENGTH - length)
  {
    var e, p, n := End(lengths, length - 1), Pow2(MAX_LENGTH - length), CountOf(lengths, length);
    hide CountOf;
    assert End(lengths, length) == 2 * e + n;
    hide End, FirstCode;
    assert Pow2(MAX_LENGTH - (length - 1)) == 2 * p;
    Widen(e, n, p);
  }

  lemma Widen(e: nat, n: nat, p: nat)
    ensures (2 * e + n) * p == e * (2 * p) + n * p
  {
  }

  /** How many symbols have a length. */
  function NonZero(lengths: seq<nat>): nat
  {
    if lengths == [] then 0 else (if lengths[0] != 0 then 1 else 0) + NonZero(lengths[1..])
  }

  lemma {:induction false} ListLength(lengths: seq<nat>, b: nat)
    ensures FirstSymbol(lengths, b + 1) == ShorterThan(lengths, b + 1)
  {
    NoCountOfZero(lengths);
    NoneShorter(lengths);
    if b > 0 {
      ListLength(lengths, b - 1);
      ShorterStep(lengths, b);
    }
  }

  function ShorterThan(lengths: seq<nat>, b: nat): nat
  {
    if lengths == [] then 0 else (if 0 < lengths[0] < b then 1 else 0) + ShorterThan(lengths[1..], b)
  }

  lemma {:induction false} NoneShorter(lengths: seq<nat>)
    ensures ShorterThan(lengths, 1) == 0
  {
    if lengths != [] {
      NoneShorter(lengths[1..]);
    }
  }

  lemma {:induction false} ShorterStep(lengths: seq<nat>, b: nat)
    requires b > 0
    ensures ShorterThan(lengths, b + 1) == ShorterThan(lengths, b) + CountOf(lengths, b)
  {
    if lengths != [] {
      ShorterStep(lengths[1..], b);
    }
  }

  lemma {:induction false} AllShorter(lengths: seq<nat>, b: nat)
    requires forall s :: 0 <= s < |lengths| ==> lengths[s] < b
    ensures NonZero(lengths) == ShorterThan(lengths, b)
  {
    if lengths != [] {
      AllShorter(lengths[1..], b);
    }
  }

  /** Every symbol's place lies inside the list of all symbols that have a length. */
  lemma PositionInList(lengths: seq<nat>, s: nat)
    requires s < |lengths| && 0 < lengths[s] && forall t :: 0 <= t < |lengths| ==> lengths[t] <= MAX_LENGTH
    ensures Position(lengths, s) < NonZero(lengths)
  {
    hide FirstSymbol, Position;
    PositionBelow(lengths, s, MAX_LENGTH + 1);
    ListLength(lengths, MAX_LENGTH);
    AllShorter(lengths, MAX_LENGTH + 1);
  }

  /** Symbols sorted by length, then by number. */
  method ListSymbols(lengths: seq<nat>, firstSymbol: seq<nat>, nonZero: nat) returns (symbols: seq<nat>)
    requires forall s :: 0 <= s < |lengths| ==> lengths[s] <= MAX_LENGTH
    requires |firstSymbol| == MAX_LENGTH + 1 && forall b :: 0 <= b <= MAX_LENGTH ==>
             firstSymbol[b] == FirstSymbol(lengths, b)
    requires nonZero == NonZero(lengths)
    ensures |symbols| == nonZero && Listed(symbols, lengths, |lengths|)
  {
    hide FirstSymbol, CountOf, NonZero, Listed;
    var next := new nat[MAX_LENGTH + 1](b requires 0 <= b < |firstSymbol| => firstSymbol[b]);
    symbols := seq(nonZero, _ => 0);
    assert lengths[..0] == [];
    NoneInAny();
    ListNone(symbols, lengths);
    for s := 0 to |lengths|
      invariant |symbols| == nonZero && Listed(symbols, lengths, s)
      invariant forall b :: 0 <= b <= MAX_LENGTH ==> next[b] == FirstSymbol(lengths, b) + CountOf(lengths[..s], b)
    {
      forall b | 0 <= b <= MAX_LENGTH
        ensures CountOf(lengths[..s + 1], b) == CountOf(lengths[..s], b) + if lengths[s] == b != 0 then 1 else 0
      {
        CountUpTo(lengths, s, b);
      }
      if lengths[s] != 0 {
        PositionInList(lengths, s);
      }
      ListOne(symbols, lengths, s);
      if lengths[s] != 0 {
        var length := lengths[s];
        symbols := symbols[next[length] := s];
        next[length] := next[length] + 1;
      }
    }
  }

  lemma ListNone(symbols: seq<nat>, lengths: seq<nat>)
    ensures Listed(symbols, lengths, 0)
  {
  }

  /** Builds the tables, or says exactly what is wrong with the lengths. */
  method FromCodeLengths(lengths: seq<nat>) returns (r: Result<Tables, PrefixCodeError>)
    ensures match r
            case Ok(t) => TablesFor(t, lengths) && t.maxLen in lengths
            case Err(InvalidCodeLength) => exists s :: 0 <= s < |lengths| && lengths[s] > MAX_LENGTH
            case Err(Empty) => forall s :: 0 <= s < |lengths| ==> lengths[s] == 0
            case Err(Incomplete) => Fits(lengths) && !Complete(lengths)
            case Err(Oversubscribed) => !Fits(lengths) && forall s :: 0 <= s < |lengths| ==> lengths[s] <= MAX_LENGTH
    ensures r.Ok? <==> Complete(lengths)
  {
    hide CountOf, Space, FirstSymbol, FirstCode, End;
    var maxLen := MaxLength(lengths);
    if maxLen > MAX_LENGTH {
      return Err(InvalidCodeLength);
    }
    var counts := CountLengths(lengths, MAX_LENGTH);
    var nonZero := CountNonZero(lengths);
    if nonZero == 0 {
      NoSpace(lengths);
      return Err(Empty);
    }
    var full := Pow2(MAX_LENGTH);
    var used := UsedSpace(lengths, counts);
    if used < full {
      return Err(Incomplete);
    }
    if used > full {
      return Err(Oversubscribed);
    }
    var firstCode := FirstCodes(lengths, counts);
    var firstSymbol := FirstSymbols(lengths, counts);
    var symbols := ListSymbols(lengths, firstSymbol, nonZero);
    SomeLength(lengths, maxLen);
    return Ok(Tables(counts, firstCode, firstSymbol, symbols, maxLen));
  }

  method CountNonZero(lengths: seq<nat>) returns (n: nat)
    ensures n == NonZero(lengths)
  {
    n := 0;
    assert lengths[0..] == lengths;
    for s := 0 to |lengths|
      invariant n + NonZero(lengths[s..]) == NonZero(lengths)
    {
      assert lengths[s..][1..] == lengths[s + 1..];
      if lengths[s] != 0 {
        n := n + 1;
      }
    }
  }

  lemma {:induction false} NoSpace(lengths: seq<nat>)
    requires NonZero(lengths) == 0
    ensures Space(lengths, MAX_LENGTH) == 0 && forall s :: 0 <= s < |lengths| ==> lengths[s] == 0
  {
    if lengths != [] {
      NoSpace(lengths[1..]);
      assert forall s :: 0 < s < |lengths| ==> lengths[s] == lengths[1..][s - 1];
    }
  }

  lemma SomeLength(lengths: seq<nat>, maxLen: nat)
    requires Complete(lengths) && forall s :: 0 <= s < |lengths| ==> lengths[s] <= maxLen
    ensures maxLen != 0
  {
    hide Space, CountOf, Pow2;
    EndIsSpace(lengths, MAX_LENGTH);
    NoCountOfZero(lengths);
    if maxLen == 0 {
      NoLongerCodes(lengths, 0, MAX_LENGTH);
    }
  }

  /** If bits start with the encoder's codeword of a symbol, that symbol is the answer. */
  ghost predicate Answers(lengths: seq<nat>, bits: seq<bool>, symbol: Option<nat>)
  {
    forall s :: 0 <= s < |lengths| && lengths[s] > 0 && Codeword(lengths, s) <= bits ==> symbol == Some(s)
  }

  lemma NoAnswer(lengths: seq<nat>, bits: seq<bool>)
    requires Fits(lengths) && Searching(lengths, Value(bits), |bits|)
    ensures Answers(lengths, bits, None)
  {
    hide Codeword, Searching, Fits, Value;
    forall s | 0 <= s < |lengths| && lengths[s] > 0
      ensures !(Codeword(lengths, s) <= bits)
    {
      NoCodewordYet(lengths, bits, s);
    }
  }

  lemma OnlyAnswer(lengths: seq<nat>, bits: seq<bool>, s: nat, n: nat)
    requires Fits(lengths) && s < |lengths| && lengths[s] > 0 && n <= |bits| && bits[..n] == Codeword(lengths, s)
    ensures Answers(lengths, bits, Some(s))
  {
    hide Codeword, Fits;
    forall t | 0 <= t < |lengths| && lengths[t] > 0 && Codeword(lengths, t) <= bits
      ensures t == s
    {
      if t != s {
        PrefixFree(lengths, s, t);
        PrefixFree(lengths, t, s);
        PrefixesNest(Codeword(lengths, s), Codeword(lengths, t), bits);
        assert false;
      }
    }
  }

  lemma PrefixesNest(v: seq<bool>, w: seq<bool>, bits: seq<bool>)
    requires v <= bits && w <= bits
    ensures v <= w || w <= v
  {
  }

  /** The decoder's resumable search: the bits of an unfinished codeword. */
  class PrefixSymbolDecoder {
    var code: nat
    var length: nat

    constructor ()
      ensures code == 0 && length == 0
    {
      code, length := 0, 0;
    }

    /** The bits read since the last symbol. */
    ghost function Pending(): seq<bool>
      reads this
    {
      Msb(code, length)
    }

    ghost predicate Valid(lengths: seq<nat>)
      reads this
    {
      Searching(lengths, code, length)
    }

    /** Reads bits until they complete a codeword, whatever earlier calls have read of it. With a
        complete code that takes at most as many bits as the longest length. */
    method Decode(t: Tables, ghost lengths: seq<nat>, bits: seq<bool>) returns (symbol: Option<nat>, used: nat)
      requires TablesFor(t, lengths) && Valid(lengths)
      modifies this
      ensures Valid(lengths) && used <= |bits|
      ensures match symbol
              case Some(s) =>
                && s < |lengths| && lengths[s] > 0 && Pending() == []
                && old(Pending()) + bits[..used] == Codeword(lengths, s)
              case None => used == |bits| && Pending() == old(Pending()) + bits && |Pending()| < t.maxLen
      ensures Answers(lengths, old(Pending()) + bits, symbol)
    {
      hide TablesFor, Searching, Matches, Answers, Fits, Value, Msb, Codeword, At;
      used := 0;
      ghost var start := Pending();
      ghost var seen := start;
      SearchResumes(t, lengths, code, length);
      while used < |bits|
        invariant used <= |bits| && seen == start + bits[..used]
        invariant At(t, lengths, seen, code, length)
        decreases |bits| - used
      {
        var bit := bits[used];
        ghost var s := Advance(t, lengths, seen, code, length, bit);
        seen := seen + [bit];
        used := used + 1;
        assert start + bits[..used] == seen == (start + bits)[..|start| + used];
        code, length := 2 * code + (if bit then 1 else 0), length + 1;
        if t.Hit(code, length) {
          symbol := Some(t.symbols[t.firstSymbol[length] + (code - t.firstCode[length])]);
          code, length := 0, 0;
          NothingPending(lengths);
          OnlyAnswer(lengths, start + bits, s, |start| + used);
          return;
        }
      }
      assert bits[..used] == bits;
      symbol := None;
      SearchPauses(t, lengths, seen, code, length);
    }
  }

  /** The search after reading `seen`. */
  ghost predicate At(t: Tables, lengths: seq<nat>, seen: seq<bool>, code: nat, length: nat)
  {
    && Searching(lengths, code, length) && length < t.maxLen
    && Msb(code, length) == seen && Value(seen) == code
  }

  lemma SearchResumes(t: Tables, lengths: seq<nat>, code: nat, length: nat)
    requires TablesFor(t, lengths) && Searching(lengths, code, length)
    ensures At(t, lengths, Msb(code, length), code, length)
  {
    PendingValue(lengths, code, length);
    StillSearching(t, lengths, code, length);
  }

  lemma SearchPauses(t: Tables, lengths: seq<nat>, seen: seq<bool>, code: nat, length: nat)
    requires TablesFor(t, lengths) && At(t, lengths, seen, code, length)
    ensures Searching(lengths, code, length) && Msb(code, length) == seen && |seen| < t.maxLen
    ensures Answers(lengths, seen, None)
  {
    hide Searching, Value, Answers;
    NoAnswer(lengths, seen);
  }

  /** One more bit: a hit is a codeword and the table names its symbol, otherwise the search goes on. */
  lemma Advance(t: Tables, lengths: seq<nat>, seen: seq<bool>, code: nat, length: nat, bit: bool) returns (s: nat)
    requires TablesFor(t, lengths) && At(t, lengths, seen, code, length)
    ensures Fits(lengths)
    ensures var c, l := 2 * code + (if bit then 1 else 0), length + 1;
            && l < |t.counts| == |t.firstCode| == |t.firstSymbol|
            && (t.Hit(c, l) ==>
                 && s < |lengths| && lengths[s] > 0 && Codeword(lengths, s) == seen + [bit]
                 && t.firstSymbol[l] + (c - t.firstCode[l]) < |t.symbols|
                 && t.symbols[t.firstSymbol[l] + (c - t.firstCode[l])] == s)
            && (!t.Hit(c, l) ==> At(t, lengths, seen + [bit], c, l))
  {
    hide Searching, Matches, Value, Msb, Codeword, FirstCode, End, CountOf, FirstSymbol;
    var c, l: nat := 2 * code + (if bit then 1 else 0), length + 1;
    ValueSnoc(seen, bit);
    MsbOfValue(seen + [bit]);
    SearchStep(lengths, code, length, bit);
    TableLookup(t, lengths, l);
    if t.Hit(c, l) {
      s := FoundSymbol(t, lengths, seen + [bit]);
    } else {
      s := 0;
      NotMatched(lengths, c, l);
      StillSearching(t, lengths, c, l);
    }
  }

  lemma PendingValue(lengths: seq<nat>, code: nat, length: nat)
    requires Searching(lengths, code, length)
    ensures Value(Msb(code, length)) == code
  {
    ValueOfMsb(code, length);
  }

  lemma NothingPending(lengths: seq<nat>)
    ensures Searching(lengths, 0, 0) && Msb(0, 0) == []
  {
    NoCountOfZero(lengths);
  }

  lemma StillSearching(t: Tables, lengths: seq<nat>, code: nat, length: nat)
    requires TablesFor(t, lengths) && Searching(lengths, code, length)
    ensures length < t.maxLen
  {
    SearchEnds(lengths, code, length, t.maxLen);
  }

  lemma TableLookup(t: Tables, lengths: seq<nat>, length: nat)
    requires TablesFor(t, lengths) && length <= t.maxLen
    ensures length < |t.counts| && length < |t.firstCode| && length < |t.firstSymbol|
    ensures t.counts[length] == CountOf(lengths, length) && t.firstCode[length] == FirstCode(lengths, length)
    ensures t.firstSymbol[length] == FirstSymbol(lengths, length)
  {
  }

  lemma NotMatched(lengths: seq<nat>, code: nat, length: nat)
    requires Matches(lengths, code, length) || Searching(lengths, code, length)
    requires !(CountOf(lengths, length) != 0 && code >= FirstCode(lengths, length) &&
               code - FirstCode(lengths, length) < CountOf(lengths, length))
    ensures Searching(lengths, code, length)
  {
    hide CountOf, FirstCode;
  }

  lemma FoundSymbol(t: Tables, lengths: seq<nat>, bits: seq<bool>) returns (s: nat)
    requires TablesFor(t, lengths) && |bits| <= t.maxLen
    requires FirstCode(lengths, |bits|) <= Value(bits) && Value(bits) - FirstCode(lengths, |bits|) < CountOf(lengths,
            |bits|)
    ensures var index := FirstSymbol(lengths, |bits|) + (Value(bits) - FirstCode(lengths, |bits|));
            index < |t.symbols| && t.symbols[index] == s
    ensures s < |lengths| && lengths[s] > 0 && Codeword(lengths, s) == bits
  {
    hide CountOf, FirstCode, FirstSymbol, Codeword, Value, Complete;
    assert Matches(lengths, Value(bits), |bits|);
    MatchedCodeword(lengths, bits);
    s := SymbolAt(lengths, |bits|, Value(bits) - FirstCode(lengths, |bits|));
  }
}
