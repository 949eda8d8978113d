/** Writing a complex prefix code: tokens, the code for the tokens, and the bits of both
    (`src/encode/prefix_code.rs`). */
module ComplexPrefixEncoder {
  import opened Arithmetic
  import opened HuffmanTree
  import opened HuffmanLengths
  import opened LengthLimitedCode
  import opened CanonicalCode
  import opened CanonicalTables
  import opened CodeLengthTokens
  import opened ComplexPrefixFormat
  import opened BitStream
  import opened Outcomes

  /** Runs worth repeating: how many entries they cover and how many there are. */
  function LongRuns(lengths: seq<nat>, index: nat, end: nat, zero: bool): (nat, nat)
    requires index <= end <= |lengths|
    decreases end - index
  {
    if index == end then (0, 0) else
    var n := RunLength(lengths, index, end);
    var rest := LongRuns(lengths, index + n, end, zero);
    if (lengths[index] == 0) == zero && n >= (if zero then 3 else 4) then (rest.0 + n, rest.1 + 1) else rest
  }

  method CountRun(lengths: seq<nat>, index: nat, end: nat) returns (repetitions: nat)
    requires index < end <= |lengths|
    ensures repetitions == RunLength(lengths, index, end)
  {
    repetitions := 1;
    while index + repetitions < end && lengths[index + repetitions] == lengths[index]
      invariant 1 <= repetitions <= end - index && lengths[index + repetitions - 1] == lengths[index]
      invariant RunLength(lengths, index, end) == repetitions - 1 + RunLength(lengths, index + repetitions - 1, end)
      decreases end - repetitions
    {
      repetitions := repetitions + 1;
    }
  }

  function Plus(a: (nat, nat), b: (nat, nat)): (nat, nat)
  {
    (a.0 + b.0, a.1 + b.1)
  }

  /** Repeats pay off when the long runs are more than twice as long as there are runs, plus one. */
  method DecideOverRleUse(lengths: seq<nat>, end: nat) returns (rle: RleUse)
    requires end <= |lengths|
    ensures rle == RleUse(LongRuns(lengths, 0, end, false).0 > (LongRuns(lengths, 0, end, false).1 + 1) * 2,
                          LongRuns(lengths, 0, end, true).0 > (LongRuns(lengths, 0, end, true).1 + 1) * 2)
  {
    hide LongRuns;
    var totalZero: nat, totalNonZero: nat, countZero: nat, countNonZero: nat := 0, 0, 1, 1;
    var index: nat := 0;
    while index < end
      invariant index <= end && countZero > 0 && countNonZero > 0
      invariant LongRuns(lengths, 0, end, true) == Plus((totalZero, countZero - 1), LongRuns(lengths, index, end, true))
      invariant LongRuns(lengths, 0, end, false) == Plus((totalNonZero, countNonZero - 1),
                                                         LongRuns(lengths, index, end, false))
      decreases end - index
    {
      var value := lengths[index];
      var repetitions := CountRun(lengths, index, end);
      LongRunsStep(lengths, index, end, true);
      LongRunsStep(lengths, index, end, false);
      if repetitions >= 3 && value == 0 {
        totalZero, countZero := totalZero + repetitions, countZero + 1;
      }
      if repetitions >= 4 && value != 0 {
        totalNonZero, countNonZero := totalNonZero + repetitions, countNonZero + 1;
      }
      index := index + repetitions;
    }
    NoLongRuns(lengths, end);
    rle := RleUse(totalNonZero > countNonZero * 2, totalZero > countZero * 2);
  }

  lemma LongRunsStep(lengths: seq<nat>, index: nat, end: nat, zero: bool)
    requires index < end <= |lengths|
    ensures var n := RunLength(lengths, index, end);
            LongRuns(lengths, index, end, zero) ==
            Plus(if (lengths[index] == 0) == zero && n >= (if zero then 3 else 4) then (n, 1) else (0, 0),
                 LongRuns(lengths, index + n, end, zero))
  {
  }

  lemma NoLongRuns(lengths: seq<nat>, end: nat)
    requires end <= |lengths|
    ensures LongRuns(lengths, end, end, true) == LongRuns(lengths, end, end, false) == (0, 0)
  {
  }

  function Reversed(ts: seq<Token>): seq<Token>
  {
    if ts == [] then [] else Reversed(ts[1..]) + [ts[0]]
  }

  lemma {:induction false} ReversedSnoc(ts: seq<Token>, t: Token)
    ensures Reversed(ts + [t]) == [t] + Reversed(ts)
  {
    if ts == [] {
      assert [] + [t] == [t] && [t][1..] == [];
      assert [t] + Reversed([]) == [t];
      assert Reversed([t]) == Reversed([]) + [t] == [t];
    } else {
      assert (ts + [t])[1..] == ts[1..] + [t];
      ReversedSnoc(ts[1..], t);
    }
  }

  method Reverse(ts: seq<Token>) returns (r: seq<Token>)
    ensures r == Reversed(ts)
  {
    r := [];
    assert ts[0..] == ts;
    for i := 0 to |ts|
      invariant Reversed(ts) == Reversed(ts[i..]) + r
    {
      assert ts[i..][1..] == ts[i + 1..];
      r := [ts[i]] + r;
    }
  }

  lemma ChainStep(symbol: nat, r: nat)
    ensures var base := Base(symbol);
            Chain(symbol, r) == (if r / base == 0 then [] else Chain(symbol, r / base - 1)) + [Token(symbol, r % base)]
  {
  }

  lemma PushDigit(symbol: nat, r: nat, pushed: seq<Token>, whole: seq<Token>)
    requires whole == Chain(symbol, r) + Reversed(pushed)
    ensures var base := Base(symbol);
            whole == (if r / base == 0 then [] else Chain(symbol, r / base - 1)) +
              Reversed(pushed + [Token(symbol, r % base)])
  {
    ChainStep(symbol, r);
    hide Chain, Reversed, Base;
    ReversedSnoc(pushed, Token(symbol, r % Base(symbol)));
  }

  lemma NothingReversed()
    ensures Reversed([]) == []
  {
  }

  lemma Regroup(tokens: seq<Token>, run: seq<Token>, rest: seq<Token>)
    ensures tokens + (run + rest) == (tokens + run) + rest
  {
  }

  /** Pushes digits from the least significant on, then reverses them. */
  method PushChain(symbol: nat, run: nat, tokens: seq<Token>) returns (more: seq<Token>)
    ensures more == tokens + Chain(symbol, run)
  {
    hide Chain, Base, Reversed;
    var base := Base(symbol);
    var pushed: seq<Token> := [];
    assert Reversed([]) == [] by {
      NothingReversed();
    }
    var repetitions := run;
    var more' := true;
    while more'
      invariant base == Base(symbol)
      invariant Chain(symbol, run) == (if more' then Chain(symbol, repetitions) else []) + Reversed(pushed)
      decreases more', repetitions
    {
      PushDigit(symbol, repetitions, pushed, Chain(symbol, run));
      pushed := pushed + [Token(symbol, repetitions % base)];
      repetitions := repetitions / base;
      if repetitions == 0 {
        more' := false;
      } else {
        repetitions := repetitions - 1;
      }
    }
    var reversed := Reverse(pushed);
    more := tokens + reversed;
  }

  method PushLiterals(v: nat, n: nat, tokens: seq<Token>) returns (more: seq<Token>)
    ensures more == tokens + Literals(v, n)
  {
    more := tokens;
    for i := 0 to n
      invariant more + Literals(v, n - i) == tokens + Literals(v, n)
    {
      more := more + [Token(v, 0)];
    }
  }

  /** A run of nonzero lengths. */
  method WriteRepetitions(previous: nat, v: nat, count: nat, tokens: seq<Token>) returns (more: seq<Token>)
    requires count > 0
    ensures more == tokens + RunTokens(previous, v, count)
  {
    hide Chain, Literals;
    more := tokens;
    var repetitions := count;
    if previous != v {
      more := more + [Token(v, 0)];
      repetitions := repetitions - 1;
    }
    if repetitions == 7 {
      more := more + [Token(v, 0)];
      repetitions := repetitions - 1;
    }
    if repetitions < 3 {
      more := PushLiterals(v, repetitions, more);
    } else {
      more := PushChain(REPEAT_PREVIOUS, repetitions - 3, more);
    }
  }

  /** A run of zeros. */
  method WriteZeroRepetitions(count: nat, tokens: seq<Token>) returns (more: seq<Token>)
    requires count > 0
    ensures more == tokens + ZeroTokens(count)
  {
    hide Chain, Literals;
    more := tokens;
    var repetitions := count;
    if repetitions == 11 {
      more := more + [Token(0, 0)];
      repetitions := repetitions - 1;
    }
    if repetitions < 3 {
      more := PushLiterals(0, repetitions, more);
    } else {
      more := PushChain(REPEAT_ZERO, repetitions - 3, more);
    }
  }

  /** One past the last length that is not zero. */
  method UsedLength(lengths: seq<nat>) returns (end: nat)
    ensures UsedEnd(lengths, end)
  {
    end := |lengths|;
    while end > 0 && lengths[end - 1] == 0
      invariant end <= |lengths| && forall i :: end <= i < |lengths| ==> lengths[i] == 0
    {
      end := end - 1;
    }
  }

  /** All tokens of the lengths, up to the last that is not zero. */
  method TokenizeCodeLengths(lengths: seq<nat>) returns (tokens: seq<Token>, ghost end: nat, ghost rle: RleUse)
    ensures UsedEnd(lengths, end)
    ensures tokens == TokensFrom(lengths, 0, end, INITIAL_REPEATED_CODE_LENGTH, rle)
    ensures rle != RleUse(false, false) ==> |lengths| > 50
  {
    var newLength := UsedLength(lengths);
    end := newLength;
    var use := RleUse(false, false);
    if |lengths| > 50 {
      use := DecideOverRleUse(lengths, newLength);
    }
    rle := use;
    assert newLength <= |lengths|;
    hide ZeroTokens, RunTokens, TokensFrom, RunOf, TokensOfRun, Repetitions, UsedEnd, RleUse.For, ToWrite;
    var previousValue := INITIAL_REPEATED_CODE_LENGTH;
    tokens := [];
    var index: nat := 0;
    ghost var all := TokensFrom(lengths, 0, newLength, INITIAL_REPEATED_CODE_LENGTH, use);
    NothingWritten(lengths, newLength, use, all);
    while index < newLength
      invariant index <= newLength && ToWrite(all, tokens, lengths, index, newLength, previousValue, use)
      decreases newLength - index
    {
      var value := lengths[index];
      var repetitions: nat := 1;
      if use.For(value) {
        repetitions := CountRun(lengths, index, newLength);
      }
      RunChosen(lengths, index, newLength, use, repetitions, previousValue);
      RunWritten(all, tokens, lengths, index, newLength, previousValue, use, repetitions);
      if value == 0 {
        tokens := WriteZeroRepetitions(repetitions, tokens);
      } else {
        tokens := WriteRepetitions(previousValue, value, repetitions, tokens);
        previousValue := value;
      }
      index := index + repetitions;
    }
    AllWritten(all, tokens, lengths, newLength, previousValue, use);
  }

  /** What is still to be written after `tokens`, to make `all`. */
  ghost predicate ToWrite(all: seq<Token>, tokens: seq<Token>, lengths: seq<nat>, index: nat, end: nat, previous: nat,
                          rle: RleUse)
  {
    index <= end <= |lengths| && all == tokens + TokensFrom(lengths, index, end, previous, rle)
  }

  lemma NothingWritten(lengths: seq<nat>, end: nat, rle: RleUse, all: seq<Token>)
    requires end <= |lengths| && all == TokensFrom(lengths, 0, end, INITIAL_REPEATED_CODE_LENGTH, rle)
    ensures ToWrite(all, [], lengths, 0, end, INITIAL_REPEATED_CODE_LENGTH, rle)
  {
  }

  lemma AllWritten(all: seq<Token>, tokens: seq<Token>, lengths: seq<nat>, end: nat, previous: nat, rle: RleUse)
    requires ToWrite(all, tokens, lengths, end, end, previous, rle)
    ensures tokens == all
  {
  }

  lemma RunWritten(all: seq<Token>, tokens: seq<Token>, lengths: seq<nat>, index: nat, end: nat, previous: nat,
                   rle: RleUse, n: nat)
    requires index < end && ToWrite(all, tokens, lengths, index, end, previous, rle) &&
             n == Repetitions(lengths, index, end, rle)
    ensures ToWrite(all, tokens + TokensOfRun(lengths, index, n, previous), lengths, index + n, end,
                    if lengths[index] == 0 then previous else lengths[index], rle)
  {
    var next := if lengths[index] == 0 then previous else lengths[index];
    TokensStep(lengths, index, end, previous, rle, n, next);
    hide TokensFrom, TokensOfRun;
    Regroup(tokens, TokensOfRun(lengths, index, n, previous), TokensFrom(lengths, index + n, end, next, rle));
  }

  lemma RunChosen(lengths: seq<nat>, index: nat, end: nat, rle: RleUse, n: nat, previous: nat)
    requires index < end <= |lengths| && n == if rle.For(lengths[index]) then RunLength(lengths, index, end) else 1
    ensures n == Repetitions(lengths, index, end, rle)
    ensures TokensOfRun(lengths, index, n, previous) ==
            if lengths[index] == 0 then ZeroTokens(n) else RunTokens(previous, lengths[index], n)
  {
  }

  lemma NoTokens(lengths: seq<nat>, end: nat, previous: nat, rle: RleUse)
    requires end <= |lengths|
    ensures TokensFrom(lengths, end, end, previous, rle) == []
  {
  }

  lemma {:induction false} LiteralsLength(v: nat, n: nat)
    ensures |Literals(v, n)| == n && forall t :: t in Literals(v, n) ==> t == Token(v, 0)
  {
    if n > 0 {
      LiteralsLength(v, n - 1);
    }
  }

  lemma {:induction false} ChainLength(symbol: nat, r: nat)
    ensures |Chain(symbol, r)| <= r + 3 && forall t :: t in Chain(symbol, r) ==> t.symbol == symbol
    decreases r
  {
    ChainStep(symbol, r);
    hide Chain, Base;
    if r / Base(symbol) > 0 {
      ChainLength(symbol, r / Base(symbol) - 1);
    }
  }

  /** A run never takes more tokens than it has entries, and only tokens of its own length. */
  lemma RunLengthBound(lengths: seq<nat>, index: nat, n: nat, previous: nat)
    requires index < |lengths| && n > 0 && lengths[index] <= MAX_LENGTH
    ensures |TokensOfRun(lengths, index, n, previous)| <= n
    ensures forall t :: t in TokensOfRun(lengths, index, n, previous) ==> t.symbol < CODE_LENGTH_CODES
  {
    hide Chain, Literals;
    var v := lengths[index];
    LiteralsLength(v, if n < 3 then n else 0);
    LiteralsLength(v, if n < 4 then n - 1 else 0);
    ChainLength(REPEAT_PREVIOUS, if n >= 3 then n - 3 else 0);
    ChainLength(REPEAT_PREVIOUS, if n >= 4 then n - 4 else 0);
    ChainLength(REPEAT_PREVIOUS, 3);
    ChainLength(REPEAT_ZERO, if n >= 3 then n - 3 else 0);
    ChainLength(REPEAT_ZERO, 7);
  }

  lemma {:induction false} TokensBound(lengths: seq<nat>, index: nat, end: nat, previous: nat, rle: RleUse)
    requires index <= end <= |lengths| && forall i :: 0 <= i < |lengths| ==> lengths[i] <= MAX_LENGTH
    ensures |TokensFrom(lengths, index, end, previous, rle)| <= end - index
    ensures forall t :: t in TokensFrom(lengths, index, end, previous, rle) ==> t.symbol < CODE_LENGTH_CODES
    decreases end - index
  {
    if index < end {
      var n := Repetitions(lengths, index, end, rle);
      var next := if lengths[index] == 0 then previous else lengths[index];
      TokensStep(lengths, index, end, previous, rle, n, next);
      hide TokensFrom, TokensOfRun, Repetitions, RunOf;
      RunLengthBound(lengths, index, n, previous);
      TokensBound(lengths, index + n, end, next, rle);
    } else {
      NoTokens(lengths, end, previous, rle);
    }
  }

  /** How often each token symbol is used. */
  method CountTokens(tokens: seq<Token>) returns (frequencies: seq<nat>)
    requires forall t :: t in tokens ==> t.symbol < CODE_LENGTH_CODES
    ensures |frequencies| == CODE_LENGTH_CODES && Total(frequencies) == |tokens|
    ensures forall t :: t in tokens ==> frequencies[t.symbol] > 0
    ensures forall s :: 0 <= s < CODE_LENGTH_CODES && frequencies[s] > 0 ==> exists t :: t in tokens && t.symbol == s
  {
    hide Total;
    frequencies := Zeros(CODE_LENGTH_CODES);
    ZerosTotal(CODE_LENGTH_CODES);
    for i := 0 to |tokens|
      invariant |frequencies| == CODE_LENGTH_CODES && Total(frequencies) == i
      invariant forall j :: 0 <= j < i ==> frequencies[tokens[j].symbol] > 0
      invariant forall s :: 0 <= s < CODE_LENGTH_CODES && frequencies[s] > 0 ==>
                exists t :: t in tokens && t.symbol == s
    {
      var s := tokens[i].symbol;
      TotalOne(frequencies, s);
      frequencies := frequencies[s := frequencies[s] + 1];
    }
  }

  lemma {:induction false} ActiveIsNonZero(counts: seq<nat>, lengths: seq<nat>)
    requires |counts| == |lengths| && forall s :: 0 <= s < |counts| ==> (lengths[s] > 0 <==> counts[s] > 0)
    ensures Active(counts) == NonZero(lengths) <= |lengths|
  {
    if counts != [] {
      ActiveIsNonZero(counts[1..], lengths[1..]);
    }
  }

  lemma {:induction false} SomeActive(counts: seq<nat>, s: nat)
    requires s < |counts| && counts[s] > 0
    ensures Active(counts) > 0
  {
    if s > 0 {
      SomeActive(counts[1..], s - 1);
    }
  }

  lemma {:induction false} ActiveBound(counts: seq<nat>)
    ensures Active(counts) <= |counts|
  {
    if counts != [] {
      ActiveBound(counts[1..]);
    }
  }

  /** Whatever is within five bits and its own space is within the fifteen of a symbol code. */
  lemma ShortFits(cl: seq<nat>)
    requires CodeLengthCode(cl)
    ensures Fits(cl)
  {
    if NonZero(cl) == 1 {
      hide Space, Pow2, NonZero;
      OneBitSpace(cl);
      assert Pow2(MAX_LENGTH - 1) <= Pow2(MAX_LENGTH) by {
        Pow2Monotone(MAX_LENGTH - 1, MAX_LENGTH);
      }
    } else {
      CompleteCodeLengthCode(cl);
    }
  }

  lemma {:induction false} OneBitSpace(cl: seq<nat>)
    requires forall s :: 0 <= s < |cl| ==> cl[s] <= 1
    ensures Space(cl, MAX_LENGTH) == NonZero(cl) * Pow2(MAX_LENGTH - 1)
  {
    if cl != [] {
      hide Pow2;
      OneBitSpace(cl[1..]);
      ShareSplits(NonZero(cl[1..]), if cl[0] != 0 then 1 else 0, Pow2(MAX_LENGTH - 1));
    }
  }

  /** What the encoder writes for each token symbol. */
  ghost predicate WritesSymbols(codes: seq<Option<SymbolCode>>, cl: seq<nat>)
  {
    && |codes| == |cl| == CODE_LENGTH_CODES
    && forall s :: 0 <= s < |cl| && cl[s] > 0 ==>
      codes[s].Some? && Msb(codes[s].value.code, codes[s].value.bits) == SymbolBits(cl, s)
  }

  /** The code for the tokens; a token symbol that is alone takes no bits. */
  method MakeCodeLengthCode(frequencies: seq<nat>) returns (cl: seq<nat>, codes: seq<Option<SymbolCode>>)
    requires |frequencies| == CODE_LENGTH_CODES && Active(frequencies) > 0 && Total(frequencies) <= MAX_TOTAL
    ensures CodeLengthCode(cl) && WritesSymbols(codes, cl) && NonZero(cl) == Active(frequencies)
    ensures forall s :: 0 <= s < CODE_LENGTH_CODES ==> (cl[s] > 0 <==> frequencies[s] > 0)
  {
    hide Active, Total, Minimal, TooTall, Space, NonZero, Fits, Code;
    ActiveBound(frequencies);
    ghost var limit;
    cl, limit := HuffmanCodeLengthsWithLimit(frequencies, CODE_LENGTH_CODE_BITS);
    ActiveIsNonZero(frequencies, cl);
    assert CodeLengthCode(cl);
    ShortFits(cl);
    codes := CanonicalCodes(cl);
    SymbolCodesOf(codes, cl);
    var active := CountNonZero(frequencies);
    ActiveIsNonZero(frequencies, frequencies);
    if active == 1 {
      var symbol := FirstUsed(frequencies);
      codes := codes[symbol := Some(SymbolCode(0, 0))];
    }
  }

  lemma SymbolCodesOf(codes: seq<Option<SymbolCode>>, cl: seq<nat>)
    requires |codes| == |cl| == CODE_LENGTH_CODES
    requires forall s :: 0 <= s < |cl| ==> codes[s] == if cl[s] == 0 then None else Some(SymbolCode(Code(cl, s), cl[s]))
    ensures NonZero(cl) != 1 ==> WritesSymbols(codes, cl)
  {
    hide NonZero, Code, Msb;
  }

  /** One length in the fixed code. */
  method WriteCodeLengthValue(v: nat, writer: seq<bool>) returns (more: seq<bool>)
    requires v <= CODE_LENGTH_CODE_BITS
    ensures more == writer + ValueBits(v)
  {
    var bits: nat, count: nat;
    match v {
      case 0 => bits, count := 0x0, 2;
      case 1 => bits, count := 0x7, 4;
      case 2 => bits, count := 0x3, 3;
      case 3 => bits, count := 0x2, 2;
      case 4 => bits, count := 0x1, 2;
      case _ => bits, count := 0xf, 4;
    }
    assert Lsb(bits, count) == ValueBits(v);
    more := writer + Lsb(bits, count);
  }

  /** The places skipped, then the lengths in order up to the last in use. */
  method WriteCodeLengthCode(cl: seq<nat>, frequencies: seq<nat>, writer: seq<bool>) returns (more: seq<bool>)
    requires CodeLengthCode(cl) && |frequencies| == CODE_LENGTH_CODES && NonZero(cl) == Active(frequencies)
    ensures Skip(cl) <= Stored(cl)
    ensures more == writer + (Lsb(Skip(cl), 2) + HeaderFrom(cl, Skip(cl), Stored(cl)))
  {
    hide NonZero, Active, Space, ValueBits;
    OrderIsPermutation();
    SkipBeforeStored(cl);
    var numCodes := CountNonZero(frequencies);
    ActiveIsNonZero(frequencies, frequencies);
    var codesToStore: nat := |CODE_LENGTH_ORDER|;
    if numCodes > 1 {
      while codesToStore > 0 && cl[CODE_LENGTH_ORDER[codesToStore - 1]] == 0
        invariant codesToStore <= CODE_LENGTH_CODES && LastUsed(cl, CODE_LENGTH_CODES) == LastUsed(cl, codesToStore)
      {
        codesToStore := codesToStore - 1;
      }
    }
    assert codesToStore == Stored(cl);
    var skip: nat := 0;
    if cl[CODE_LENGTH_ORDER[0]] == 0 && cl[CODE_LENGTH_ORDER[1]] == 0 {
      skip := 2;
      if cl[CODE_LENGTH_ORDER[2]] == 0 {
        skip := 3;
      }
    }
    assert skip == Skip(cl);
    hide *;
    more := WriteValues(cl, skip, codesToStore, writer + Lsb(skip, 2));
    assert writer + Lsb(skip, 2) + HeaderFrom(cl, skip, codesToStore) == writer +
           (Lsb(skip, 2) + HeaderFrom(cl, skip, codesToStore));
  }

  lemma HeaderFirst(cl: seq<nat>, i: nat, end: nat, writer: seq<bool>)
    requires CodeLengthCode(cl) && i < end <= CODE_LENGTH_CODES
    ensures writer + HeaderFrom(cl, i, end) == writer + ValueBits(Ordered(cl, i)) + HeaderFrom(cl, i + 1, end)
  {
    hide ValueBits, Ordered;
  }

  method WriteValues(cl: seq<nat>, skip: nat, codesToStore: nat, writer: seq<bool>) returns (more: seq<bool>)
    requires CodeLengthCode(cl) && skip <= codesToStore <= CODE_LENGTH_CODES
    ensures more == writer + HeaderFrom(cl, skip, codesToStore)
  {
    hide NonZero, Space, ValueBits, PlaceOf;
    OrderIsPermutation();
    more := writer;
    for i := skip to codesToStore
      invariant more + HeaderFrom(cl, i, codesToStore) == writer + HeaderFrom(cl, skip, codesToStore)
    {
      HeaderFirst(cl, i, codesToStore, more);
      more := WriteCodeLengthValue(cl[CODE_LENGTH_ORDER[i]], more);
    }
    assert more + [] == more;
  }

  lemma {:induction false} AllCoded(cl: seq<nat>, ts: seq<Token>)
    requires |cl| == CODE_LENGTH_CODES && forall t :: t in ts ==> t.symbol < CODE_LENGTH_CODES && cl[t.symbol] > 0
    ensures Coded(cl, ts)
  {
    if ts != [] {
      AllCoded(cl, ts[1..]);
    }
  }

  lemma CodedAt(cl: seq<nat>, ts: seq<Token>, i: nat)
    requires i <= |ts| && Coded(cl, ts)
    ensures Coded(cl, ts[i..]) && (i < |ts| ==> ts[i].symbol < CODE_LENGTH_CODES && cl[ts[i].symbol] > 0)
    decreases i
  {
    if i > 0 {
      CodedAt(cl, ts[1..], i - 1);
      assert ts[1..][i - 1..] == ts[i..];
    } else {
      assert ts[0..] == ts;
    }
  }

  /** The tokens' codewords, each with its digit. */
  method WriteTokens(tokens: seq<Token>, ghost cl: seq<nat>, codes: seq<Option<SymbolCode>>, writer: seq<bool>)
    returns (more: seq<bool>)
    requires Coded(cl, tokens) && WritesSymbols(codes, cl)
    ensures more == writer + TokensBits(cl, tokens)
  {
    hide SymbolBits, Msb, Lsb, Coded;
    more := writer;
    CodedAt(cl, tokens, 0);
    assert tokens[0..] == tokens;
    for i := 0 to |tokens|
      invariant Coded(cl, tokens[i..])
      invariant more + TokensBits(cl, tokens[i..]) == writer + TokensBits(cl, tokens)
    {
      CodedAt(cl, tokens, i);
      CodedAt(cl, tokens, i + 1);
      var token := tokens[i];
      var code := codes[token.symbol].value;
      TokenFirst(cl, tokens, i, more);
      more := more + Msb(code.code, code.bits);
      if token.symbol == 16 {
        more := more + Lsb(token.extra, 2);
      } else if token.symbol == 17 {
        more := more + Lsb(token.extra, 3);
      }
    }
    assert tokens[|tokens|..] == [];
    assert more + [] == more;
  }

  lemma TokenFirst(cl: seq<nat>, ts: seq<Token>, i: nat, writer: seq<bool>)
    requires i < |ts| && Coded(cl, ts[i..]) && Coded(cl, ts[i + 1..])
    ensures ts[i].symbol < CODE_LENGTH_CODES && |cl| == CODE_LENGTH_CODES
    ensures writer + TokensBits(cl, ts[i..]) ==
            writer + SymbolBits(cl, ts[i].symbol) + DigitBits(ts[i]) + TokensBits(cl, ts[i + 1..])
  {
    assert ts[i..][1..] == ts[i + 1..] && ts[i..][0] == ts[i];
    var a, b := SymbolBits(cl, ts[i].symbol), DigitBits(ts[i]);
    var c := TokensBits(cl, ts[i + 1..]);
    assert TokensBits(cl, ts[i..]) == a + b + c;
    hide *;
    assert writer + (a + b + c) == writer + a + b + c;
  }

  /** Writes a complete code. What is written is the stream form of tokens whose reading gives back
      the lengths. */
  method WriteComplexPrefixCode(lengths: seq<nat>, writer: seq<bool>)
    returns (more: seq<bool>, ghost cl: seq<nat>, ghost tokens: seq<Token>, ghost read: Progress)
    requires Complete(lengths) && |lengths| <= 0xffff
    ensures CodeLengthCode(cl) && Coded(cl, tokens) && Skip(cl) <= Stored(cl)
    ensures more == writer + (Lsb(Skip(cl), 2) + Body(cl, tokens))
    ensures Advances(Start(), |lengths|, tokens, read) && read.space == 0 && |read.lengths| <= |lengths|
    ensures read.lengths + Copies(0, |lengths| - |read.lengths|) == lengths
  {
    hide *;
    ghost var end, rle;
    var ts;
    ts, end, rle := TokenizeCodeLengths(lengths);
    read := TokensRoundTrip(lengths, end, rle);
    AdvancesSome(|lengths|, ts, read);
    LengthsOf(lengths);
    EndOf(lengths, end);
    TokensBound(lengths, 0, end, INITIAL_REPEATED_CODE_LENGTH, rle);
    var frequencies := CountTokens(ts);
    SomeActive(frequencies, ts[0].symbol);
    SmallTotal(|ts|);
    var codeLengths, codes := MakeCodeLengthCode(frequencies);
    cl, tokens := codeLengths, ts;
    WellCoded(cl);
    AllCoded(cl, ts);
    more := WriteCodeLengthCode(codeLengths, frequencies, writer);
    more := WriteTokens(ts, cl, codes, more);
    BodyOf(cl, ts, writer);
  }

  lemma BodyOf(cl: seq<nat>, ts: seq<Token>, writer: seq<bool>)
    requires CodeLengthCode(cl) && Coded(cl, ts) && Skip(cl) <= Stored(cl)
    ensures writer + (Lsb(Skip(cl), 2) + HeaderFrom(cl, Skip(cl), Stored(cl))) + TokensBits(cl, ts) == writer +
            (Lsb(Skip(cl), 2) + Body(cl, ts))
  {
    hide HeaderFrom, TokensBits, Lsb, Skip, Stored;
  }

  lemma SmallTotal(n: nat)
    requires n <= 0xffff
    ensures n <= MAX_TOTAL
  {
  }

  lemma WellCoded(cl: seq<nat>)
    requires CodeLengthCode(cl)
    ensures |cl| == CODE_LENGTH_CODES
  {
  }

  lemma EndOf(lengths: seq<nat>, end: nat)
    requires UsedEnd(lengths, end)
    ensures end <= |lengths|
  {
  }

  lemma LengthsOf(lengths: seq<nat>)
    requires Complete(lengths)
    ensures forall i :: 0 <= i < |lengths| ==> lengths[i] <= MAX_LENGTH
  {
  }

  /** Filling the space takes at least one token. */
  lemma AdvancesSome(size: nat, ts: seq<Token>, e: Progress)
    requires Advances(Start(), size, ts, e) && e.space == 0
    ensures ts != []
  {
  }
}
