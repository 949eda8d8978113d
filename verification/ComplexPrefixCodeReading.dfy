/** The decoder object, call by call. */
module ComplexPrefixCodeReading {
  import opened Arithmetic
  import opened HuffmanTree
  import opened CanonicalCode
  import opened CanonicalTables
  import opened CodeLengthTokens
  import opened ComplexPrefixFormat
  import opened ComplexPrefixDecoder
  import opened ComplexPrefixMachine
  import opened BitStream
  import opened Outcomes

  datatype State = CodeLengthAlphabet | CodeLengths | RepeatExtra(symbol: nat) | Done

  /** What the header says so far. */
  ghost predicate HeaderKept(i: nat, part: seq<nat>, space: int, nonZero: nat)
  {
    && i <= CODE_LENGTH_CODES && BlankFrom(part, i) && (forall s :: 0 <= s < |part| ==>
                                                        part[s] <= CODE_LENGTH_CODE_BITS)
    && space == 32 - Space(part, CODE_LENGTH_CODE_BITS) >= 0 && nonZero == NonZero(part)
  }

  lemma HeaderStep(i: nat, part: seq<nat>, space: int, nonZero: nat, v: nat)
    requires HeaderKept(i, part, space, nonZero) && i < CODE_LENGTH_CODES && v <= CODE_LENGTH_CODE_BITS
    ensures CODE_LENGTH_ORDER[i] < |part|
    ensures var more := part[CODE_LENGTH_ORDER[i] := v];
            var left := if v == 0 then space else space - Pow2(CODE_LENGTH_CODE_BITS - v);
            && left == 32 - Space(more, CODE_LENGTH_CODE_BITS)
            && (left >= 0 ==> HeaderKept(i + 1, more, left, if v == 0 then nonZero else nonZero + 1))
  {
    hide Space, NonZero, Pow2, BlankFrom;
    BlankStep(part, i, v);
    var s := CODE_LENGTH_ORDER[i];
    SpaceUpdate(part, CODE_LENGTH_CODE_BITS, s, v);
    NonZeroUpdate(part, s, v);
  }

  lemma HeaderStart(skip: nat)
    requires skip <= 3
    ensures HeaderKept(skip, seq(CODE_LENGTH_CODES, _ => 0), 32, 0)
  {
    var blank := seq(CODE_LENGTH_CODES, _ => 0);
    AllZeroNonZero(blank);
    OneShortLength(blank);
  }

  /** A header that ends as it should has a code. */
  lemma HeaderMakesCode(i: nat, part: seq<nat>, space: int, nonZero: nat)
    requires HeaderKept(i, part, space, nonZero) && (space == 0 || nonZero == 1)
    ensures |part| == CODE_LENGTH_CODES && (NonZero(part) == 1 || (NonZero(part) != 0 && Complete(part)))
  {
    if nonZero != 1 {
      hide Pow2, BlankFrom;
      SpaceOfFive();
      if nonZero == 0 {
        NoneUsed(part);
        OneShortLength(part);
      }
      hide Space, NonZero;
      CompleteCodeLengthCode(part);
    }
  }

  datatype Step = NeedInput | Continue | Finished(code: PrefixCode) | Failed(error: ComplexPrefixCodeError)

  class ComplexPrefixCodeDecoder {
    const alphabetSize: nat
    const fixedDecoder: CodeLengthValueDecoder
    const codeLengthSymbol: PrefixSymbolDecoder
    var state: State
    var codeLengthIndex: nat
    var codeLengthLengths: seq<nat>
    var codeLengthSpace: int
    var codeLengthNonzero: nat
    var codeLengthCode: Option<PrefixCode>
    var lengths: seq<nat>
    var symbolIndex: nat
    var previousNonzero: nat
    var repeat: nat
    var repeatCodeLength: nat
    var nonzeroCount: nat
    var space: int

    ghost function Read(): Progress
      reads this
    {
      Progress(if symbolIndex <= |lengths| then lengths[..symbolIndex] else [], previousNonzero, repeat,
               repeatCodeLength, nonzeroCount, space)
    }

    /** The lengths beyond those read are zero. */
    ghost predicate LengthsValid()
      reads this
    {
      && |lengths| == alphabetSize && symbolIndex <= alphabetSize
      && lengths == lengths[..symbolIndex] + Copies(0, alphabetSize - symbolIndex)
    }

    ghost predicate SymbolsValid()
      reads this, codeLengthSymbol
    {
      && codeLengthCode.Some? && |codeLengthLengths| == CODE_LENGTH_CODES
      && CodeFor(codeLengthCode.value, codeLengthLengths)
      && (if codeLengthCode.value.Single? then codeLengthSymbol.Pending() == []
          else codeLengthSymbol.Valid(codeLengthLengths))
    }

    /** No length has been read yet, the header perhaps in part. */
    ghost predicate AtHeader()
      reads this, codeLengthSymbol, fixedDecoder
    {
      && state == CodeLengthAlphabet && LengthsValid() && Read() == Start()
      && codeLengthSymbol.code == codeLengthSymbol.length == 0
      && HeaderKept(codeLengthIndex, codeLengthLengths, codeLengthSpace, codeLengthNonzero)
      && (codeLengthIndex >= CODE_LENGTH_CODES || codeLengthSpace <= 0 ==> fixedDecoder.Pending() == [])
    }

    /** Between tokens, or within the codeword of one. */
    ghost predicate AtTokens()
      reads this, codeLengthSymbol
    {
      && state == CodeLengths && LengthsValid() && Kept(Read(), alphabetSize) && SymbolsValid()
      && (space == 0 ==> codeLengthSymbol.Pending() == [])
    }

    /** Before the digit of a repeat. */
    ghost predicate AtDigit()
      reads this, codeLengthSymbol
    {
      && state.RepeatExtra? && REPEAT_PREVIOUS <= state.symbol <= REPEAT_ZERO && LengthsValid()
      && Kept(Read(), alphabetSize)
      && SymbolsValid() && codeLengthSymbol.Pending() == [] && symbolIndex < alphabetSize
    }

    ghost predicate Valid()
      reads this, codeLengthSymbol, fixedDecoder
    {
      AtHeader() || AtTokens() || AtDigit()
    }

    /** The header goes on as planned. */
    ghost predicate HeaderExpects(plan: Option<Plan>, stream: seq<bool>)
      reads this, fixedDecoder
    {
      plan.Some? ==> InHeader(plan.value, fixedDecoder.Pending() + stream, codeLengthIndex, codeLengthLengths,
                              alphabetSize)
    }

    ghost predicate TokensExpected(plan: Option<Plan>, stream: seq<bool>)
      reads this, codeLengthSymbol
    {
      plan.Some? ==>
        codeLengthLengths == plan.value.cl && InTokens(plan.value, codeLengthSymbol.Pending() + stream, Read(),
                                                       alphabetSize)
    }

    ghost predicate DigitExpected(plan: Option<Plan>, stream: seq<bool>)
      reads this
    {
      plan.Some? ==>
        codeLengthLengths == plan.value.cl && state.RepeatExtra? &&
          InDigit(plan.value, stream, Read(), alphabetSize, state.symbol)
    }

    /** If there is a plan, the stream from here on follows it. */
    ghost predicate Expects(plan: Option<Plan>, stream: seq<bool>)
      reads this, fixedDecoder, codeLengthSymbol
    {
      match state
      case CodeLengthAlphabet => HeaderExpects(plan, stream)
      case CodeLengths => TokensExpected(plan, stream)
      case RepeatExtra(_) => DigitExpected(plan, stream)
      case Done => true
    }

    constructor (alphabetSize: nat, skip: nat)
      requires skip == 0 || skip == 2 || skip == 3
      ensures Valid() && this.alphabetSize == alphabetSize && state == CodeLengthAlphabet && codeLengthIndex == skip
      ensures codeLengthLengths == seq(CODE_LENGTH_CODES, _ => 0) && fixedDecoder.Pending() == []
      ensures fresh(fixedDecoder) && fresh(codeLengthSymbol)
    {
      this.alphabetSize := alphabetSize;
      fixedDecoder := new CodeLengthValueDecoder();
      codeLengthSymbol := new PrefixSymbolDecoder();
      state := CodeLengthAlphabet;
      codeLengthIndex, codeLengthLengths, codeLengthSpace, codeLengthNonzero := skip, seq(CODE_LENGTH_CODES, _ => 0),
        32, 0;
      codeLengthCode := None;
      lengths, symbolIndex := seq(alphabetSize, _ => 0), 0;
      previousNonzero, repeat, repeatCodeLength, nonzeroCount := INITIAL_REPEATED_CODE_LENGTH, 0, 0, 0;
      space := Pow2(MAX_LENGTH);
      new;
      hide Space, NonZero, Pow2, BlankFrom;
      HeaderStart(skip);
      StartKept(alphabetSize);
      assert lengths == [] + Copies(0, alphabetSize);
      assert lengths[..0] == [];
    }

    /** The literal token: one more length. */
    method PushOne(length: nat) returns (r: Option<ComplexPrefixCodeError>)
      requires LengthsValid() && symbolIndex < alphabetSize && length < 16
      modifies `lengths, `symbolIndex, `previousNonzero, `repeat, `nonzeroCount, `space
      ensures LengthsValid()
      ensures match r
              case None => Ok(Read()) == PushLength(old(Read()), length)
              case Some(e) => Err(e) == PushLength(old(Read()), length)
    {
      hide Pow2, Copies;
      repeat := 0;
      FillOne(lengths, symbolIndex, length);
      lengths := lengths[symbolIndex := length];
      symbolIndex := symbolIndex + 1;
      if length != 0 {
        previousNonzero := length;
        nonzeroCount := nonzeroCount + 1;
        space := space - Pow2(MAX_LENGTH - length);
        if space < 0 {
          return Some(ComplexPrefixCodeError.Oversubscribed);
        }
      }
      return None;
    }

    /** The repeat token: the chain's repeats so far times four or eight, and a digit. */
    method PushMany(symbol: nat, extra: nat) returns (r: Option<ComplexPrefixCodeError>)
      requires LengthsValid() && REPEAT_PREVIOUS <= symbol <= REPEAT_ZERO && Sound(Read())
      modifies `lengths, `symbolIndex, `repeat, `repeatCodeLength, `nonzeroCount, `space
      ensures r.None? ==> LengthsValid()
      ensures match r
              case None => Ok(Read()) == PushRepeat(old(Read()), alphabetSize, symbol, extra)
              case Some(e) => Err(e) == PushRepeat(old(Read()), alphabetSize, symbol, extra)
    {
      hide Pow2, Filled, Copies;
      var extraBits := symbol - 14;
      var codeLength := if symbol == REPEAT_PREVIOUS then previousNonzero else 0;
      if repeatCodeLength != codeLength {
        repeat := 0;
        repeatCodeLength := codeLength;
      }
      var oldRepeat := repeat;
      ChainGrows(oldRepeat, symbol);
      var base: nat := if oldRepeat == 0 then 0 else (oldRepeat - 2) * Pow2(extraBits);
      var more := base + (extra + 3);
      var delta: nat := more - oldRepeat;
      var end := symbolIndex + delta;
      if end > alphabetSize {
        return Some(RepeatPastAlphabet);
      }
      FillMany(lengths, symbolIndex, codeLength, delta);
      lengths := Filled(lengths, symbolIndex, codeLength, delta);
      symbolIndex := end;
      repeat := more;
      if codeLength != 0 {
        nonzeroCount := nonzeroCount + delta;
        space := space - delta * Pow2(MAX_LENGTH - codeLength);
        if space < 0 {
          return Some(ComplexPrefixCodeError.Oversubscribed);
        }
      }
      return None;
    }

    /** One place of the header. */
    method ReadPlace(bits: seq<bool>, ghost plan: Option<Plan>, ghost stream: seq<bool>) returns (r: Step, used: nat)
      requires AtHeader() && codeLengthIndex < CODE_LENGTH_CODES && codeLengthSpace > 0
      requires bits <= stream && HeaderExpects(plan, stream)
      modifies `codeLengthIndex, `codeLengthLengths, `codeLengthSpace, `codeLengthNonzero, fixedDecoder
      ensures used <= |bits| && !r.Finished?
      ensures r.NeedInput? ==> AtHeader() && HeaderExpects(plan, stream[used..]) && |bits| - used < 2
      ensures r.NeedInput? && plan.Some? ==> |bits| < |stream|
      ensures r.Continue? ==>
              AtHeader() && HeaderExpects(plan, stream[used..]) && codeLengthIndex == old(codeLengthIndex) + 1
      ensures r.Failed? ==> plan.None?
    {
      hide Space, Pow2, NonZero, InHeader, HeaderKept, Start, Copies, ValueBits;
      ghost var pending := fixedDecoder.Pending();
      var value;
      value, used := fixedDecoder.Decode(bits);
      if plan.Some? {
        HeaderContinues(plan.value, pending, stream, bits, codeLengthIndex, codeLengthLengths, alphabetSize,
                        codeLengthSpace, codeLengthNonzero, value, used);
      }
      if value.None? {
        return NeedInput, used;
      }
      var length := value.value;
      HeaderStep(codeLengthIndex, codeLengthLengths, codeLengthSpace, codeLengthNonzero, length);
      codeLengthLengths := codeLengthLengths[CODE_LENGTH_ORDER[codeLengthIndex] := length];
      codeLengthIndex := codeLengthIndex + 1;
      if length != 0 {
        codeLengthNonzero := codeLengthNonzero + 1;
        codeLengthSpace := codeLengthSpace - Pow2(CODE_LENGTH_CODE_BITS - length);
        if codeLengthSpace < 0 {
          return Failed(InvalidCodeLengthAlphabet), used;
        }
      }
      return Continue, used;
    }

    /** Reads the header as far as the bits go, and makes its code once it is complete. */
    method ReadHeader(bits: seq<bool>, ghost plan: Option<Plan>, ghost stream: seq<bool>) returns (r: Step, used: nat)
      requires AtHeader() && bits <= stream && HeaderExpects(plan, stream)
      modifies `state, `codeLengthIndex, `codeLengthLengths, `codeLengthSpace, `codeLengthNonzero, `codeLengthCode,
               fixedDecoder
      ensures used <= |bits| && !r.Finished?
      ensures r.NeedInput? ==> AtHeader() && HeaderExpects(plan, stream[used..]) && |bits| - used < 2
      ensures r.NeedInput? && plan.Some? ==> |bits| < |stream|
      ensures r.Continue? ==> state == CodeLengths && AtTokens() && TokensExpected(plan, stream[used..])
      ensures r.Failed? ==> plan.None?
    {
      hide InHeader, InTokens, HeaderKept, Start, Copies, NonZero, Complete, CodeFor, Kept, Pow2;
      used := 0;
      while codeLengthIndex < CODE_LENGTH_CODES && codeLengthSpace > 0
        invariant used <= |bits| && AtHeader() && HeaderExpects(plan, stream[used..])
        decreases CODE_LENGTH_CODES - codeLengthIndex
      {
        var step, n := ReadPlace(bits[used..], plan, stream[used..]);
        assert stream[used..][n..] == stream[used + n..];
        used := used + n;
        if !step.Continue? {
          return step, used;
        }
      }
      if plan.Some? {
        HeaderEnds(plan.value, fixedDecoder.Pending() + stream[used..], codeLengthIndex, codeLengthLengths,
                   alphabetSize,
                   codeLengthSpace, codeLengthNonzero);
      }
      if codeLengthSpace != 0 && codeLengthNonzero != 1 {
        return Failed(InvalidCodeLengthAlphabet), used;
      }
      NothingPending(codeLengthLengths);
      HeaderMakesCode(codeLengthIndex, codeLengthLengths, codeLengthSpace, codeLengthNonzero);
      var code := MakePrefixCode(codeLengthLengths);
      StartKept(alphabetSize);
      codeLengthCode := Some(code.value);
      state := CodeLengths;
      r := Continue;
    }

    /** The next symbol of the code-length code, as far as the bits go. */
    method ReadSymbol(bits: seq<bool>, ghost plan: Option<Plan>, ghost stream: seq<bool>)
      returns (symbol: Option<nat>, used: nat)
      requires AtTokens() && space != 0 && bits <= stream && TokensExpected(plan, stream)
      modifies codeLengthSymbol
      ensures used <= |bits|
      ensures symbol.None? ==> used == |bits| && AtTokens() && TokensExpected(plan, stream[used..])
      ensures symbol.None? && plan.Some? ==> |bits| < |stream|
      ensures symbol.Some? ==> AtTokens() && codeLengthSymbol.Pending() == [] && symbol.value < CODE_LENGTH_CODES
      ensures symbol.Some? ==> TokenRead(plan, stream, used, symbol.value, old(codeLengthSymbol.Pending()), Read(),
                                         alphabetSize)
    {
      assert codeLengthCode.value.Canonical? ==> Fits(codeLengthLengths);
      assert codeLengthCode.value.Single? ==> codeLengthCode.value.symbol < CODE_LENGTH_CODES;
      hide InTokens, Start, Copies, NonZero, Kept, Pow2, Msb, Value, Codeword, TablesFor, Searching, Answers, TokenRead,
           Fits;
      var code := codeLengthCode.value;
      ghost var pending := codeLengthSymbol.Pending();
      match code {
        case Single(s) =>
          symbol, used := Some(s), 0;
          SingleRead(plan, stream, s, codeLengthLengths, Read(), alphabetSize);
        case Canonical(t) =>
          symbol, used := codeLengthSymbol.Decode(t, codeLengthLengths, bits);
          CodewordRead(plan, pending, stream, bits, codeLengthLengths, Read(), alphabetSize, symbol, used);
      }
    }

    /** A length is pushed at once; a repeat waits for its digit. */
    method AcceptSymbol(symbol: nat, ghost plan: Option<Plan>, ghost stream: seq<bool>, ghost used: nat,
                        ghost pending: seq<bool>)
      returns (r: Step, ghost next: Option<Plan>)
      requires AtTokens() && codeLengthSymbol.Pending() == [] && symbolIndex < alphabetSize && space != 0
      requires symbol < CODE_LENGTH_CODES && used <= |stream|
      requires plan.Some? ==> codeLengthLengths == plan.value.cl
      requires TokenRead(plan, stream, used, symbol, pending, Read(), alphabetSize)
      modifies `state, `lengths, `symbolIndex, `previousNonzero, `repeat, `nonzeroCount, `space
      ensures r.Continue? || (r.Failed? && plan.None?)
      ensures r.Continue? ==> SamePlan(plan, next) && Expects(next, stream[used..])
      ensures r.Continue? && symbol < 16 ==> AtTokens() && symbolIndex > old(symbolIndex)
      ensures r.Continue? && symbol >= 16 ==> AtDigit() && symbolIndex == old(symbolIndex)
    {
      hide InTokens, InDigit, Start, Copies, NonZero, Kept, Pow2, Msb, CodeFor, PushLength, PushRepeat, SymbolBits;
      ghost var before := Read();
      next := plan;
      if symbol < 16 {
        next := LengthRead(plan, stream, used, symbol, pending, before, alphabetSize);
        KeptIsSound(before, alphabetSize);
        var error := PushOne(symbol);
        if error.Some? {
          return Failed(error.value), next;
        }
        ghost var after := ApplyKeeps(before, alphabetSize, Token(symbol, 0));
        assert [] + stream[used..] == stream[used..];
        return Continue, next;
      }
      RepeatRead(plan, stream, used, symbol, pending, before, alphabetSize);
      state := RepeatExtra(symbol);
      return Continue, next;
    }

    /** The digit of a repeat, as far as the bits go. */
    method ReadDigit(bits: seq<bool>, ghost plan: Option<Plan>, ghost stream: seq<bool>)
      returns (r: Step, used: nat, ghost next: Option<Plan>)
      requires AtDigit() && bits <= stream && DigitExpected(plan, stream)
      modifies `state, `lengths, `symbolIndex, `repeat, `repeatCodeLength, `nonzeroCount, `space
      ensures used <= |bits| && !r.Finished?
      ensures r.NeedInput? ==> used == 0 && AtDigit() && next == plan && DigitExpected(next, stream) && |bits| < 3
      ensures r.NeedInput? && plan.Some? ==> |bits| < |stream|
      ensures r.Continue? ==>
              AtTokens() && SamePlan(plan, next) && TokensExpected(next, stream[used..]) &&
              symbolIndex > old(symbolIndex)
      ensures r.Failed? ==> plan.None?
    {
      hide InTokens, InDigit, Start, Copies, NonZero, Kept, Pow2, Msb, CodeFor, PushLength, PushRepeat, FromLsb;
      ghost var before := Read();
      next := plan;
      var symbol := state.symbol;
      var extraBits := symbol - 14;
      if |bits| < extraBits {
        DigitNeeds(plan, stream, before, alphabetSize, symbol);
        return NeedInput, 0, next;
      }
      used := extraBits;
      var extra := FromLsb(bits[..extraBits]);
      next := DigitRead(plan, stream, bits, symbol, before, alphabetSize);
      KeptIsSound(before, alphabetSize);
      var error := PushMany(symbol, extra);
      if error.Some? {
        return Failed(error.value), used, next;
      }
      ghost var after := ApplyKeeps(before, alphabetSize, Token(symbol, extra));
      state := CodeLengths;
      assert [] + stream[used..] == stream[used..];
      return Continue, used, next;
    }

    /** With the space used up, the lengths are complete, so making the code cannot fail. */
    method Finish() returns (code: PrefixCode)
      requires AtTokens() && space == 0
      modifies `state
      ensures state == Done && Complete(lengths) && NonZero(lengths) >= 2 && CodeFor(code, lengths)
      ensures lengths == Read().lengths + Copies(0, alphabetSize - |Read().lengths|) && |Read().lengths| <= alphabetSize
      ensures |lengths| == alphabetSize
    {
      hide Start, Copies, NonZero, Pow2, Msb, CodeFor, Complete, Kept, Space;
      FullMeansComplete(Read(), alphabetSize, lengths);
      assert nonzeroCount >= 2;
      var made := MakePrefixCode(lengths);
      state := Done;
      code := made.value;
    }

    /** Decodes as far as the bits go. The lengths it finishes with are complete. If the stream is one
        the encoder wrote, there is no error: either the plan goes on behind the bits used, or all of
        its bits have been used and no more, and the lengths are those it was made from. */
    method Decode(bits: seq<bool>, ghost plan: Option<Plan>, ghost stream: seq<bool>)
      returns (r: Step, used: nat, ghost next: Option<Plan>)
      requires Valid() && bits <= stream && Expects(plan, stream)
      modifies this, fixedDecoder, codeLengthSymbol
      ensures used <= |bits| && !r.Continue?
      ensures r.NeedInput? ==> Valid() && SamePlan(plan, next) && Expects(next, stream[used..]) && |bits| - used < 3
      ensures r.NeedInput? && plan.Some? ==> |bits| < |stream|
      ensures r.Finished? ==> |lengths| == alphabetSize && Complete(lengths) && NonZero(lengths) >= 2
      ensures r.Finished? ==> CodeFor(r.code, lengths)
      ensures r.Finished? && plan.Some? ==>
                && stream[used..] == plan.value.rest && |plan.value.read.lengths| <= alphabetSize
                && lengths == plan.value.read.lengths + Copies(0, alphabetSize - |plan.value.read.lengths|)
      ensures r.Failed? ==> plan.None?
    {
      hide InHeader, InTokens, InDigit, HeaderKept, Kept, Start, Copies, NonZero, Pow2, Msb, CodeFor, Complete,
           TokenRead, SymbolsValid;
      used := 0;
      next := plan;
      assert stream[0..] == stream;
      while true
        invariant used <= |bits| && Valid() && SamePlan(plan, next) && Expects(next, stream[used..])
        decreases if state.CodeLengthAlphabet? then 1 else 0, alphabetSize - symbolIndex, if state.CodeLengths? then 1
                  else 0
      {
        ghost var left := stream[used..];
        var n;
        if state.CodeLengthAlphabet? {
          r, n := ReadHeader(bits[used..], next, left);
          DropTwice(stream, used, n);
          used := used + n;
          if !r.Continue? {
            return;
          }
        } else if state.CodeLengths? {
          if space == 0 {
            if next.Some? {
              TokensDone(next.value, codeLengthSymbol.Pending() + left, Read(), alphabetSize);
              assert [] + left == left;
            }
            var code := Finish();
            return Finished(code), used, next;
          }
          if symbolIndex == alphabetSize {
            if next.Some? {
              NextToken(next.value, codeLengthSymbol.Pending() + left, Read(), alphabetSize);
            }
            return Failed(UnusedCodeSpace), used, next;
          }
          ghost var pending := codeLengthSymbol.Pending();
          var symbol;
          symbol, n := ReadSymbol(bits[used..], next, left);
          DropTwice(stream, used, n);
          used := used + n;
          if symbol.None? {
            return NeedInput, used, next;
          }
          r, next := AcceptSymbol(symbol.value, next, left, n, pending);
          if !r.Continue? {
            return;
          }
        } else {
          r, n, next := ReadDigit(bits[used..], next, left);
          DropTwice(stream, used, n);
          used := used + n;
          if !r.Continue? {
            return;
          }
        }
      }
    }
  }

  lemma SameLength(bits: seq<bool>, stream: seq<bool>)
    requires bits <= stream
    ensures |bits| < |stream| || bits == stream
  {
  }

  ghost predicate SamePlan(plan: Option<Plan>, next: Option<Plan>)
  {
    plan.Some? == next.Some? && (plan.Some? ==>
                                 plan.value.rest == next.value.rest && plan.value.read == next.value.read &&
                                 plan.value.cl == next.value.cl)
  }

  lemma DropTwice(s: seq<bool>, m: nat, n: nat)
    requires m + n <= |s|
    ensures s[m..][n..] == s[m + n..]
  {
  }

  lemma LengthRead(plan: Option<Plan>, stream: seq<bool>, used: nat, symbol: nat, pending: seq<bool>, d: Progress,
                   size: nat)
    returns (next: Option<Plan>)
    requires TokenRead(plan, stream, used, symbol, pending, d, size) && symbol < 16 && d.space != 0
    ensures SamePlan(plan, next)
    ensures plan.Some? ==> PushLength(d, symbol).Ok? && used <= |stream| &&
                           InTokens(next.value, [] + stream[used..], PushLength(d, symbol).value, size)
  {
    hide InTokens, PushLength, SymbolBits;
    next := plan;
    if plan.Some? {
      var p := LengthToken(plan.value, pending + stream, d, size);
      next := Some(p);
      assert [] + stream[used..] == stream[used..];
    }
  }

  lemma RepeatRead(plan: Option<Plan>, stream: seq<bool>, used: nat, symbol: nat, pending: seq<bool>, d: Progress,
                   size: nat)
    requires TokenRead(plan, stream, used, symbol, pending, d, size) && symbol >= 16 && d.space != 0
    ensures plan.Some? ==> used <= |stream| && InDigit(plan.value, stream[used..], d, size, symbol)
  {
    hide InTokens, InDigit, SymbolBits;
    if plan.Some? {
      NextToken(plan.value, pending + stream, d, size);
    }
  }

  lemma DigitNeeds(plan: Option<Plan>, stream: seq<bool>, d: Progress, size: nat, symbol: nat)
    requires plan.Some? ==> InDigit(plan.value, stream, d, size, symbol)
    ensures plan.Some? ==> |stream| >= ExtraBits(symbol)
  {
    if plan.Some? {
      var p := DigitToken(plan.value, stream, d, size, symbol);
    }
  }

  lemma DigitRead(plan: Option<Plan>, stream: seq<bool>, bits: seq<bool>, symbol: nat, d: Progress, size: nat)
    returns (next: Option<Plan>)
    requires plan.Some? ==> InDigit(plan.value, stream, d, size, symbol)
    requires bits <= stream && REPEAT_PREVIOUS <= symbol <= REPEAT_ZERO && ExtraBits(symbol) <= |bits|
    ensures SamePlan(plan, next)
    ensures plan.Some? ==>
              var extra := FromLsb(bits[..ExtraBits(symbol)]);
              PushRepeat(d, size, symbol, extra).Ok? &&
              InTokens(next.value, [] + stream[ExtraBits(symbol)..], PushRepeat(d, size, symbol, extra).value, size)
  {
    hide InTokens, InDigit, PushRepeat, FromLsb, ExtraBits;
    next := plan;
    if plan.Some? {
      var p := DigitToken(plan.value, stream, d, size, symbol);
      next := Some(p);
      var w := Lsb(plan.value.ts[0].extra, ExtraBits(symbol));
      assert bits[..ExtraBits(symbol)] == w;
      ValueOfLsb(plan.value.ts[0].extra, ExtraBits(symbol));
      assert [] + stream[ExtraBits(symbol)..] == stream[ExtraBits(symbol)..];
    }
  }

  lemma {:induction false} HalfSpace(lengths: seq<nat>)
    ensures Space(lengths, MAX_LENGTH) <= NonZero(lengths) * Pow2(MAX_LENGTH - 1)
  {
    if lengths != [] {
      hide Pow2;
      HalfSpace(lengths[1..]);
      var n, p := NonZero(lengths[1..]), Pow2(MAX_LENGTH - 1);
      if 0 < lengths[0] <= MAX_LENGTH {
        Pow2Monotone(MAX_LENGTH - lengths[0], MAX_LENGTH - 1);
      }
      ShareSplits(n, 1, p);
    }
  }

  /** Full space takes at least two symbols, and the lengths that fill it are complete. */
  lemma FullMeansComplete(d: Progress, size: nat, lengths: seq<nat>)
    requires Kept(d, size) && d.space == 0 && lengths == d.lengths + Copies(0, size - |d.lengths|)
    ensures Complete(lengths) && NonZero(lengths) == d.nonZero >= 2
  {
    hide Space, NonZero, Share;
    var zeros := Copies(0, size - |d.lengths|);
    SpaceAppend(d.lengths, zeros, MAX_LENGTH);
    SpaceOfCopies(0, |zeros|, MAX_LENGTH);
    SharePositive(0);
    NonZeroAppend(d.lengths, zeros);
    NonZeroCopies(0, |zeros|);
    HalfSpace(d.lengths);
    assert Pow2(MAX_LENGTH) == 2 * Pow2(MAX_LENGTH - 1);
    TwoHalves(d.nonZero, Pow2(MAX_LENGTH - 1));
    assert |lengths| == size;
  }

  lemma TwoHalves(n: nat, p: nat)
    requires 2 * p <= n * p && p > 0
    ensures n >= 2
  {
    if n < 2 {
      MulMonotone(p, n, 1);
    }
  }

  /** The symbol read is the plan's next token's, and the rest of the plan follows it. */
  ghost predicate TokenRead(plan: Option<Plan>, stream: seq<bool>, used: nat, symbol: nat, pending: seq<bool>,
                            d: Progress, size: nat)
  {
    plan.Some? ==>
      && |plan.value.cl| == CODE_LENGTH_CODES && used <= |stream|
      && InTokens(plan.value, pending + stream, d, size)
      && plan.value.ts != [] && plan.value.ts[0].symbol == symbol < CODE_LENGTH_CODES
      && SymbolBits(plan.value.cl, symbol) <= pending + stream
      && (pending + stream)[|SymbolBits(plan.value.cl, symbol)|..] == stream[used..]
  }

  lemma SingleRead(plan: Option<Plan>, stream: seq<bool>, s: nat, cl: seq<nat>, d: Progress, size: nat)
    requires plan.Some? ==> cl == plan.value.cl && InTokens(plan.value, [] + stream, d, size)
    requires NonZero(cl) == 1 && s < |cl| && cl[s] > 0 && d.space != 0
    ensures TokenRead(plan, stream, 0, s, [], d, size)
  {
    hide InTokens, NonZero, Codeword;
    if plan.Some? {
      PlanCode(plan.value, [] + stream, d, size);
      NextToken(plan.value, [] + stream, d, size);
      OnlyUsed(cl, s, plan.value.ts[0].symbol);
      assert [] + stream == stream;
    }
  }

  lemma PlanCode(p: Plan, bits: seq<bool>, d: Progress, size: nat)
    requires InTokens(p, bits, d, size)
    ensures |p.cl| == CODE_LENGTH_CODES && CodeLengthCode(p.cl)
  {
  }

  lemma CodewordRead(plan: Option<Plan>, pending: seq<bool>, stream: seq<bool>, bits: seq<bool>, cl: seq<nat>,
                     d: Progress, size: nat,
                     symbol: Option<nat>, n: nat)
    requires plan.Some? ==> cl == plan.value.cl && InTokens(plan.value, pending + stream, d, size)
    requires NonZero(cl) != 1 && d.space != 0 && bits <= stream && n <= |bits| && Fits(cl)
    requires symbol.Some? ==>
             symbol.value < |cl| && cl[symbol.value] > 0 && pending + bits[..n] == Codeword(cl, symbol.value)
    requires symbol.None? ==> n == |bits| && Answers(cl, pending + bits, None)
    ensures plan.Some? && symbol.None? ==>
            InTokens(plan.value, pending + bits + stream[n..], d, size) && |bits| < |stream|
    ensures symbol.Some? ==> TokenRead(plan, stream, n, symbol.value, pending, d, size)
  {
    hide InTokens, NonZero, Codeword, Fits, Answers;
    assert bits[..n] == stream[..n];
    if n == |bits| {
      assert pending + bits + stream[n..] == pending + stream;
    }
    if plan.Some? && symbol.None? {
      PlanCode(plan.value, pending + stream, d, size);
      NextToken(plan.value, pending + stream, d, size);
      SameLength(bits, stream);
      assert SymbolBits(cl, plan.value.ts[0].symbol) == Codeword(cl, plan.value.ts[0].symbol);
      AnswersNone(cl, pending + bits, plan.value.ts[0].symbol);
    }
    if plan.Some? && symbol.Some? {
      var s := symbol.value;
      NextToken(plan.value, pending + stream, d, size);
      PlanCode(plan.value, pending + stream, d, size);
      var w := Codeword(cl, s);
      assert (pending + stream)[..|w|] == w;
      assert SymbolBits(cl, plan.value.ts[0].symbol) == Codeword(cl, plan.value.ts[0].symbol);
      OnlyAnswer(cl, pending + stream, s, |w|);
      AnswerIs(cl, pending + stream, s, plan.value.ts[0].symbol);
      assert (pending + stream)[|w|..] == stream[n..];
    }
  }

  lemma AnswersNone(cl: seq<nat>, bits: seq<bool>, t: nat)
    requires Answers(cl, bits, None) && t < |cl| && cl[t] > 0
    ensures !(Codeword(cl, t) <= bits)
  {
  }

  lemma AnswerIs(cl: seq<nat>, bits: seq<bool>, s: nat, t: nat)
    requires Answers(cl, bits, Some(s)) && t < |cl| && cl[t] > 0 && Codeword(cl, t) <= bits
    ensures s == t
  {
  }

  /** Where the reader of the header stops, the plan's tokens begin. */
  lemma HeaderEnds(p: Plan, bits: seq<bool>, i: nat, part: seq<nat>, size: nat, space: int, nonZero: nat)
    requires InHeader(p, bits, i, part, size) && HeaderKept(i, part, space, nonZero) &&
             (i >= CODE_LENGTH_CODES || space <= 0)
    ensures part == p.cl && InTokens(p, bits, Start(), size) && (space == 0 || nonZero == 1)
  {
    hide Space, NonZero, Coded, Advances, TokensBits, HeaderFrom, BlankFrom, Partial, Start;
    StopsTogether(part, p.cl, i);
    HeaderDone(p, bits, i, part, size);
    SpaceOfFive();
  }

  /** A value read where the plan has one is that value, and the plan goes on behind it. */
  lemma HeaderContinues(p: Plan, pending: seq<bool>, stream: seq<bool>, bits: seq<bool>, i: nat, part: seq<nat>,
                        size: nat,
                        space: int, nonZero: nat, value: Option<nat>, n: nat)
    requires InHeader(p, pending + stream, i, part, size) && HeaderKept(i, part, space, nonZero)
    requires i < CODE_LENGTH_CODES && space > 0 && bits <= stream && n <= |bits|
    requires value.Some? ==> value.value <= CODE_LENGTH_CODE_BITS && pending + bits[..n] == ValueBits(value.value)
    requires value.None? ==> Unfinished(pending + bits)
    ensures value.None? ==> |bits| < |stream|
    ensures value.None? ==> InHeader(p, pending + bits[..n] + stream[n..], i, part, size)
    ensures value.Some? ==>
              && CODE_LENGTH_ORDER[i] < |part|
              && InHeader(p, [] + stream[n..], i + 1, part[CODE_LENGTH_ORDER[i] := value.value], size)
              && 32 - Space(part[CODE_LENGTH_ORDER[i] := value.value], CODE_LENGTH_CODE_BITS) >= 0
  {
    hide Space, NonZero, Coded, Advances, TokensBits, ValueBits, CodeLengthCode, HeaderFrom, BlankFrom, Ordered;
    assert bits[..n] == stream[..n];
    assert pending + bits[..n] + stream[n..] == pending + stream;
    StopsTogether(part, p.cl, i);
    HeaderValue(p, pending + stream, i, part, size);
    if value.None? {
      SameLength(bits, stream);
    } else {
      var v := ValueBits(value.value);
      assert (pending + stream)[..|v|] == v;
      ValuesApart(value.value, Ordered(p.cl, i), pending + stream);
      assert (pending + stream)[|v|..] == stream[n..] == [] + stream[n..];
      StopsTogether(part[CODE_LENGTH_ORDER[i] := value.value], p.cl, i + 1);
    }
  }

  lemma StartKept(size: nat)
    ensures Kept(Start(), size)
  {
  }

  lemma FillOne(lengths: seq<nat>, i: nat, v: nat)
    requires i < |lengths| && lengths == lengths[..i] + Copies(0, |lengths| - i)
    ensures var more := lengths[i := v];
            more[..i + 1] == lengths[..i] + [v] && more == more[..i + 1] + Copies(0, |lengths| - i - 1)
  {
    var more := lengths[i := v];
    assert more[..i + 1] == lengths[..i] + [v];
  }

  /** The vector with `n` entries from `i` on set to `v`. */
  function Filled(lengths: seq<nat>, i: nat, v: nat, n: nat): seq<nat>
    requires i + n <= |lengths|
  {
    lengths[..i] + Copies(v, n) + lengths[i + n..]
  }

  lemma FillMany(lengths: seq<nat>, i: nat, v: nat, n: nat)
    requires i + n <= |lengths| && lengths == lengths[..i] + Copies(0, |lengths| - i)
    ensures var more := Filled(lengths, i, v, n);
            |more| == |lengths| && more[..i + n] == lengths[..i] + Copies(v, n) &&
              more == more[..i + n] + Copies(0, |lengths| - (i + n))
  {
    var more := Filled(lengths, i, v, n);
    assert more[..i + n] == lengths[..i] + Copies(v, n);
    assert lengths[i + n..] == Copies(0, |lengths| - i - n);
  }
}
