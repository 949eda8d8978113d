/** The state machine that rebuilds a complex prefix code from its stream form, across any number of
    calls, and what it makes of bits the encoder wrote. */
module ComplexPrefixMachine {
  import opened Arithmetic
  import opened HuffmanTree
  import opened CanonicalCode
  import opened CanonicalTables
  import opened CodeLengthTokens
  import opened ComplexPrefixFormat
  import opened BitStream

  /** The first `i` places have been read, the others are still zero. */
  ghost predicate Partial(part: seq<nat>, cl: seq<nat>, i: nat)
  {
    |part| == |cl| == CODE_LENGTH_CODES && forall s :: 0 <= s < CODE_LENGTH_CODES ==> part[s] == if PlaceOf(s) < i then
      cl[s] else 0
  }

  /** The places from `i` on are still zero. */
  ghost predicate BlankFrom(part: seq<nat>, i: nat)
  {
    |part| == CODE_LENGTH_CODES && forall s :: 0 <= s < CODE_LENGTH_CODES && PlaceOf(s) >= i ==> part[s] == 0
  }

  lemma PartialStep(part: seq<nat>, cl: seq<nat>, i: nat)
    requires i < CODE_LENGTH_CODES && Partial(part, cl, i)
    ensures CODE_LENGTH_ORDER[i] < CODE_LENGTH_CODES
    ensures Partial(part[CODE_LENGTH_ORDER[i] := Ordered(cl, i)], cl, i + 1)
  {
    OrderIsPermutation();
    var s := CODE_LENGTH_ORDER[i];
    forall t | 0 <= t < CODE_LENGTH_CODES && t != s
      ensures PlaceOf(t) != i
    {
    }
  }

  lemma BlankStep(part: seq<nat>, i: nat, v: nat)
    requires i < CODE_LENGTH_CODES && BlankFrom(part, i)
    ensures CODE_LENGTH_ORDER[i] < CODE_LENGTH_CODES == |part| && part[CODE_LENGTH_ORDER[i]] == 0
    ensures BlankFrom(part[CODE_LENGTH_ORDER[i] := v], i + 1)
  {
    OrderIsPermutation();
  }

  lemma {:induction false} NonZeroUpdate(s: seq<nat>, i: nat, v: nat)
    requires i < |s| && s[i] == 0
    ensures NonZero(s[i := v]) == NonZero(s) + if v != 0 then 1 else 0
  {
    if i > 0 {
      NonZeroUpdate(s[1..], i - 1, v);
      assert s[i := v][1..] == s[1..][i - 1 := v];
    } else {
      assert s[i := v][1..] == s[1..];
    }
  }

  /** Leaving lengths out never needs more space, and less unless none is left out. */
  lemma {:induction false} PartialSpace(part: seq<nat>, cl: seq<nat>)
    requires |part| == |cl| && forall s :: 0 <= s < |cl| ==>
             cl[s] <= CODE_LENGTH_CODE_BITS && (part[s] == 0 || part[s] == cl[s])
    ensures Space(part, CODE_LENGTH_CODE_BITS) <= Space(cl, CODE_LENGTH_CODE_BITS)
    ensures Space(part, CODE_LENGTH_CODE_BITS) == Space(cl, CODE_LENGTH_CODE_BITS) ==> part == cl
  {
    if cl != [] {
      hide Pow2;
      PartialSpace(part[1..], cl[1..]);
      assert part == [part[0]] + part[1..] && cl == [cl[0]] + cl[1..];
    }
  }

  lemma {:induction false} OneShortLength(cl: seq<nat>)
    requires forall s :: 0 <= s < |cl| ==> cl[s] <= 1
    ensures Space(cl, CODE_LENGTH_CODE_BITS) == NonZero(cl) * 16
  {
    if cl != [] {
      OneShortLength(cl[1..]);
      assert Pow2(4) == 16;
    }
  }

  lemma SpaceOfFive()
    ensures Pow2(CODE_LENGTH_CODE_BITS) == 32
  {
  }

  /** Reading in order, the reader stops exactly where the writer did. */
  lemma StopsTogether(part: seq<nat>, cl: seq<nat>, i: nat)
    requires CodeLengthCode(cl) && Partial(part, cl, i) && i <= Stored(cl)
    ensures Space(part, CODE_LENGTH_CODE_BITS) <= 32
    ensures i < CODE_LENGTH_CODES && Space(part, CODE_LENGTH_CODE_BITS) < 32 <==> i < Stored(cl)
    ensures i == Stored(cl) ==> part == cl
  {
    hide Space, Pow2, NonZero, PlaceOf;
    PartialSpace(part, cl);
    SpaceOfFive();
    OrderIsPermutation();
    if NonZero(cl) == 1 {
      OneShortLength(cl);
    } else if i < Stored(cl) {
      var s := CODE_LENGTH_ORDER[Stored(cl) - 1];
      assert Ordered(cl, Stored(cl) - 1) == cl[s] > 0 && part[s] == 0;
    }
    if i == Stored(cl) {
      forall s | 0 <= s < CODE_LENGTH_CODES
        ensures part[s] == cl[s]
      {
        assert cl[s] == Ordered(cl, PlaceOf(s));
      }
      assert part == cl;
    }
  }

  lemma StartPartial(cl: seq<nat>, skip: nat)
    requires CodeLengthCode(cl) && skip == Skip(cl)
    ensures Partial(seq(CODE_LENGTH_CODES, _ => 0), cl, skip)
  {
    OrderIsPermutation();
    forall s | 0 <= s < CODE_LENGTH_CODES && PlaceOf(s) < skip
      ensures cl[s] == 0
    {
      assert cl[s] == Ordered(cl, PlaceOf(s));
    }
  }

  /** The decoder's bookkeeping: the space left is what the lengths do not use. */
  ghost predicate Kept(d: Progress, size: nat)
  {
    && Sound(d) && |d.lengths| <= size && (forall i :: 0 <= i < |d.lengths| ==> d.lengths[i] <= MAX_LENGTH)
    && d.space >= 0 && d.space == Pow2(MAX_LENGTH) - Space(d.lengths, MAX_LENGTH) && d.nonZero == NonZero(d.lengths)
  }

  lemma {:induction false} NonZeroAppend(xs: seq<nat>, ys: seq<nat>)
    ensures NonZero(xs + ys) == NonZero(xs) + NonZero(ys)
  {
    if xs == [] {
      assert xs + ys == ys;
    } else {
      assert (xs + ys)[1..] == xs[1..] + ys;
      NonZeroAppend(xs[1..], ys);
    }
  }

  lemma {:induction false} NonZeroCopies(v: nat, n: nat)
    ensures NonZero(Copies(v, n)) == if v == 0 then 0 else n
  {
    if n > 0 {
      NonZeroCopies(v, n - 1);
      assert Copies(v, n)[1..] == Copies(v, n - 1);
    }
  }

  lemma KeptExtended(d: Progress, size: nat, v: nat, n: nat, e: Progress)
    requires Kept(d, size) && Extended(d, v, n, e) && v <= MAX_LENGTH && |d.lengths| + n <= size && e.space >= 0
    ensures Kept(e, size)
  {
    hide Space, Share, Pow2, NonZero;
    SpaceAppend(d.lengths, Copies(v, n), MAX_LENGTH);
    SpaceOfCopies(v, n, MAX_LENGTH);
    NonZeroAppend(d.lengths, Copies(v, n));
    NonZeroCopies(v, n);
  }

  /** Whatever token is accepted, it adds lengths and the bookkeeping stays right. */
  lemma ApplyKeeps(d: Progress, size: nat, t: Token) returns (e: Progress)
    requires Kept(d, size) && |d.lengths| < size && t.symbol < CODE_LENGTH_CODES && Apply(d, size, t).Ok?
    ensures e == Apply(d, size, t).value && Kept(e, size) && |d.lengths| < |e.lengths|
  {
    hide Space, Pow2, NonZero, Kept;
    assert Sound(d) by {
      KeptIsSound(d, size);
    }
    if t.symbol < 16 {
      e := ApplyLength(d, size, t.symbol);
    } else {
      e := ApplyRepeat(d, size, t);
    }
  }

  lemma KeptIsSound(d: Progress, size: nat)
    requires Kept(d, size)
    ensures Sound(d) && |d.lengths| <= size && d.space >= 0
  {
  }

  lemma ApplyLength(d: Progress, size: nat, length: nat) returns (e: Progress)
    requires Kept(d, size) && |d.lengths| < size && length < 16 && PushLength(d, length).Ok?
    ensures e == PushLength(d, length).value && Kept(e, size) && |d.lengths| < |e.lengths|
  {
    hide Space, Pow2, NonZero;
    e := PushLength(d, length).value;
    assert Copies(length, 1) == [length];
    SharePositive(length);
    KeptExtended(d, size, length, 1, e);
  }

  lemma ApplyRepeat(d: Progress, size: nat, t: Token) returns (e: Progress)
    requires Kept(d, size) && |d.lengths| < size && t.symbol >= 16 && PushRepeat(d, size, t.symbol, t.extra).Ok?
    ensures e == PushRepeat(d, size, t.symbol, t.extra).value && Kept(e, size) && |d.lengths| < |e.lengths|
  {
    hide Space, NonZero, Share, Copies;
    e := PushRepeat(d, size, t.symbol, t.extra).value;
    var v := RepeatedLength(d, t.symbol);
    var done := Chained(d, v);
    ChainGrows(done, t.symbol);
    SharePositive(v);
    KeptExtended(d, size, v, e.repeat - done, e);
  }

  lemma ChainGrows(done: nat, symbol: nat)
    requires done == 0 || done >= 3
    ensures done >= 3 ==> (done - 2) * Pow2(ExtraBits(symbol)) >= done - 2
  {
    if done >= 3 {
      BaseIsPower(symbol);
      MulMonotone(done - 2, 1, Pow2(ExtraBits(symbol)));
    }
  }

  /** The bits still to come of a code the encoder wrote: the tokens left, what they lead to, and
      whatever follows the code in the stream. */
  datatype Plan = Plan(cl: seq<nat>, ts: seq<Token>, read: Progress, rest: seq<bool>)

  ghost predicate InHeader(p: Plan, bits: seq<bool>, i: nat, part: seq<nat>, size: nat)
  {
    && CodeLengthCode(p.cl) && Coded(p.cl, p.ts) && Advances(Start(), size, p.ts, p.read) && p.read.space == 0
    && i <= Stored(p.cl) && Partial(part, p.cl, i)
    && bits == HeaderFrom(p.cl, i, Stored(p.cl)) + (TokensBits(p.cl, p.ts) + p.rest)
  }

  ghost predicate InTokens(p: Plan, bits: seq<bool>, d: Progress, size: nat)
  {
    && CodeLengthCode(p.cl) && Coded(p.cl, p.ts) && Advances(d, size, p.ts, p.read) && p.read.space == 0
    && bits == TokensBits(p.cl, p.ts) + p.rest
  }

  ghost predicate InDigit(p: Plan, bits: seq<bool>, d: Progress, size: nat, symbol: nat)
  {
    && CodeLengthCode(p.cl) && Coded(p.cl, p.ts) && Advances(d, size, p.ts, p.read) && p.read.space == 0
    && p.ts != [] && p.ts[0].symbol == symbol >= 16
    && bits == DigitBits(p.ts[0]) + (TokensBits(p.cl, p.ts[1..]) + p.rest)
  }

  /** The next place of the header holds what the writer put there. */
  lemma HeaderValue(p: Plan, bits: seq<bool>, i: nat, part: seq<nat>, size: nat)
    requires InHeader(p, bits, i, part, size) && i < Stored(p.cl)
    ensures Ordered(p.cl, i) <= CODE_LENGTH_CODE_BITS && ValueBits(Ordered(p.cl, i)) <= bits
    ensures i < CODE_LENGTH_CODES && |part| == CODE_LENGTH_CODES && CODE_LENGTH_ORDER[i] < CODE_LENGTH_CODES
    ensures InHeader(p, bits[|ValueBits(Ordered(p.cl, i))|..], i + 1, part[CODE_LENGTH_ORDER[i] := Ordered(p.cl, i)],
                     size)
  {
    assert |p.cl| == CODE_LENGTH_CODES;
    hide CodeLengthCode, Coded, Advances, ValueBits, TokensBits, Stored, Partial, Start;
    PartialStep(part, p.cl, i);
    ShortValue(p.cl, i);
    var v := ValueBits(Ordered(p.cl, i));
    var more := HeaderFrom(p.cl, i + 1, Stored(p.cl)) + (TokensBits(p.cl, p.ts) + p.rest);
    assert bits == v + more by {
      HeaderSplits(p.cl, i, Stored(p.cl), TokensBits(p.cl, p.ts) + p.rest);
    }
    assert bits[|v|..] == more;
  }

  lemma ShortValue(cl: seq<nat>, i: nat)
    requires CodeLengthCode(cl) && i < CODE_LENGTH_CODES
    ensures Ordered(cl, i) <= CODE_LENGTH_CODE_BITS
  {
    OrderIsPermutation();
  }

  lemma HeaderSplits(cl: seq<nat>, i: nat, end: nat, rest: seq<bool>)
    requires |cl| == CODE_LENGTH_CODES && i < end <= CODE_LENGTH_CODES
    ensures HeaderFrom(cl, i, end) + rest == ValueBits(Ordered(cl, i)) + (HeaderFrom(cl, i + 1, end) + rest)
  {
    hide ValueBits, Ordered;
  }

  /** After the header come the tokens. */
  lemma HeaderDone(p: Plan, bits: seq<bool>, i: nat, part: seq<nat>, size: nat)
    requires InHeader(p, bits, i, part, size) && i == Stored(p.cl)
    ensures part == p.cl && InTokens(p, bits, Start(), size)
  {
    assert |p.cl| == CODE_LENGTH_CODES;
    hide CodeLengthCode, Coded, Advances, ValueBits, TokensBits, Stored, Partial, Start;
    StopsTogether(part, p.cl, i);
    assert HeaderFrom(p.cl, i, i) == [];
    assert [] + (TokensBits(p.cl, p.ts) + p.rest) == TokensBits(p.cl, p.ts) + p.rest;
  }

  /** Space left means another token, room for its lengths, and its symbol next in the stream. */
  lemma NextToken(p: Plan, bits: seq<bool>, d: Progress, size: nat)
    requires InTokens(p, bits, d, size) && d.space != 0
    ensures p.ts != [] && |d.lengths| < size && p.ts[0].symbol < CODE_LENGTH_CODES && p.cl[p.ts[0].symbol] > 0
    ensures SymbolBits(p.cl, p.ts[0].symbol) <= bits
    ensures var after := bits[|SymbolBits(p.cl, p.ts[0].symbol)|..];
            p.ts[0].symbol >= 16 ==> InDigit(p, after, d, size, p.ts[0].symbol)
  {
    hide SymbolBits, DigitBits, CodeLengthCode, Apply, Writable;
    assert p.ts != [];
    assert Coded(p.cl, p.ts[1..]) && p.ts[0].symbol < CODE_LENGTH_CODES;
    var a, b, c := SymbolBits(p.cl, p.ts[0].symbol), DigitBits(p.ts[0]), TokensBits(p.cl, p.ts[1..]) + p.rest;
    assert bits == a + (b + c);
    assert bits[|a|..] == b + c;
  }

  /** A length is pushed at once. */
  lemma LengthToken(p: Plan, bits: seq<bool>, d: Progress, size: nat) returns (next: Plan)
    requires InTokens(p, bits, d, size) && d.space != 0 && p.ts != [] && p.ts[0].symbol < 16
    ensures |p.cl| == CODE_LENGTH_CODES && SymbolBits(p.cl, p.ts[0].symbol) <= bits
    ensures PushLength(d, p.ts[0].symbol).Ok? && next == p.(ts := p.ts[1..])
    ensures InTokens(next, bits[|SymbolBits(p.cl, p.ts[0].symbol)|..], PushLength(d, p.ts[0].symbol).value, size)
  {
    hide SymbolBits, CodeLengthCode, PushLength, PushRepeat, Writable;
    next := p.(ts := p.ts[1..]);
    var a, c := SymbolBits(p.cl, p.ts[0].symbol), TokensBits(p.cl, p.ts[1..]) + p.rest;
    assert bits == a + c;
    assert bits[|a|..] == c;
  }

  /** A repeat is pushed with its digit. */
  lemma DigitToken(p: Plan, bits: seq<bool>, d: Progress, size: nat, symbol: nat) returns (next: Plan)
    requires InDigit(p, bits, d, size, symbol)
    ensures p.ts != [] && symbol <= REPEAT_ZERO && Lsb(p.ts[0].extra, ExtraBits(symbol)) <= bits &&
            p.ts[0].extra < Pow2(ExtraBits(symbol))
    ensures PushRepeat(d, size, symbol, p.ts[0].extra).Ok? && next == p.(ts := p.ts[1..])
    ensures InTokens(next, bits[ExtraBits(symbol)..], PushRepeat(d, size, symbol, p.ts[0].extra).value, size)
  {
    assert Coded(p.cl, p.ts[1..]);
    hide CodeLengthCode, PushLength, PushRepeat, Lsb, ExtraBits, TokensBits;
    next := p.(ts := p.ts[1..]);
    var a, c := Lsb(p.ts[0].extra, ExtraBits(symbol)), TokensBits(p.cl, p.ts[1..]) + p.rest;
    assert bits == a + c;
    assert bits[|a|..] == c;
  }

  lemma TokensDone(p: Plan, bits: seq<bool>, d: Progress, size: nat)
    requires InTokens(p, bits, d, size) && d.space == 0
    ensures p.ts == [] && d == p.read && bits == p.rest
  {
    assert p.ts == [];
    assert [] + p.rest == p.rest;
  }
}
