/** Encoder and decoder of complex prefix codes, put together. */
module ComplexPrefixRoundTrip {
  import opened Arithmetic
  import opened CanonicalCode
  import opened CanonicalTables
  import opened CodeLengthTokens
  import opened ComplexPrefixFormat
  import opened ComplexPrefixEncoder
  import opened ComplexPrefixDecoder
  import opened ComplexPrefixMachine
  import opened ComplexPrefixCodeReading
  import opened BitStream
  import opened Outcomes

  lemma SkipFromBits(skip: nat, rest: seq<bool>)
    requires skip == 0 || skip == 2 || skip == 3
    ensures |Lsb(skip, 2) + rest| >= 2 && FromLsb((Lsb(skip, 2) + rest)[..2]) == skip &&
            (Lsb(skip, 2) + rest)[2..] == rest
  {
    ValueOfLsb(skip, 2);
    assert (Lsb(skip, 2) + rest)[..2] == Lsb(skip, 2);
  }

  lemma FreshPlan(cl: seq<nat>, ts: seq<Token>, read: Progress, rest: seq<bool>, size: nat)
    requires CodeLengthCode(cl) && Coded(cl, ts) && Skip(cl) <= Stored(cl)
    requires Advances(Start(), size, ts, read) && read.space == 0
    ensures InHeader(Plan(cl, ts, read, rest), [] + (Body(cl, ts) + rest), Skip(cl), seq(CODE_LENGTH_CODES, _ => 0),
                     size)
  {
    hide Coded, CodeLengthCode, Advances, Start, HeaderFrom, TokensBits, Stored, Skip, Complete, Partial;
    CodeLengths(cl);
    StartPartial(cl, Skip(cl));
    var a, b := HeaderFrom(cl, Skip(cl), Stored(cl)), TokensBits(cl, ts);
    assert [] + (a + b + rest) == a + (b + rest);
  }

  lemma CodeLengths(cl: seq<nat>)
    requires CodeLengthCode(cl)
    ensures |cl| == CODE_LENGTH_CODES
  {
  }

  /** What may be written for a complete code: skip, code-length code and tokens that read back to the lengths. */
  ghost predicate IsForm(lengths: seq<nat>, written: seq<bool>)
  {
    exists cl, ts, read :: FormFrom(lengths, written, cl, ts, read)
  }

  ghost predicate FormFrom(lengths: seq<nat>, written: seq<bool>, cl: seq<nat>, ts: seq<Token>, read: Progress)
  {
    && CodeLengthCode(cl) && Coded(cl, ts) && Skip(cl) <= Stored(cl) && written == Lsb(Skip(cl), 2) + Body(cl, ts)
    && Advances(Start(), |lengths|, ts, read) && read.space == 0 && |read.lengths| <= |lengths|
    && read.lengths + Copies(0, |lengths| - |read.lengths|) == lengths
  }

  method WriteCode(lengths: seq<nat>) returns (written: seq<bool>)
    requires Complete(lengths) && |lengths| <= 0xffff
    ensures IsForm(lengths, written)
  {
    hide *;
    ghost var cl, ts, progress;
    written, cl, ts, progress := WriteComplexPrefixCode(lengths, []);
    WrittenForm(cl, ts, written);
    FormShown(lengths, written, cl, ts, progress);
  }

  lemma FormShown(lengths: seq<nat>, written: seq<bool>, cl: seq<nat>, ts: seq<Token>, read: Progress)
    requires CodeLengthCode(cl) && Coded(cl, ts) && Skip(cl) <= Stored(cl) && written == Lsb(Skip(cl), 2) + Body(cl, ts)
    requires Advances(Start(), |lengths|, ts, read) && read.space == 0 && |read.lengths| <= |lengths|
    requires read.lengths + Copies(0, |lengths| - |read.lengths|) == lengths
    ensures IsForm(lengths, written)
  {
    hide CodeLengthCode, Coded, Skip, Stored, Body, Advances, Copies;
    assert FormFrom(lengths, written, cl, ts, read);
  }

  lemma FormTaken(lengths: seq<nat>, written: seq<bool>) returns (cl: seq<nat>, ts: seq<Token>, read: Progress)
    requires IsForm(lengths, written)
    ensures CodeLengthCode(cl) && Coded(cl, ts) && Skip(cl) <= Stored(cl) && written == Lsb(Skip(cl), 2) + Body(cl, ts)
    ensures Advances(Start(), |lengths|, ts, read) && read.space == 0 && |read.lengths| <= |lengths|
    ensures read.lengths + Copies(0, |lengths| - |read.lengths|) == lengths
  {
    hide CodeLengthCode, Coded, Skip, Stored, Body, Advances, Copies;
    cl, ts, read :| FormFrom(lengths, written, cl, ts, read);
  }

  /** Such a form never starts like a list of symbols. */
  lemma StartsWithSkip(lengths: seq<nat>, written: seq<bool>, rest: seq<bool>)
    requires IsForm(lengths, written)
    ensures |written + rest| >= 2 && FromLsb((written + rest)[..2]) != 1
  {
    hide *;
    var cl, ts, read := FormTaken(lengths, written);
    CodeSize(cl);
    SkipFromBits(Skip(cl), Body(cl, ts) + rest);
    Associates(Lsb(Skip(cl), 2), Body(cl, ts), rest);
  }

  /** Reads a code for an alphabet, given the bits behind the skip in two pieces cut anywhere. */
  method ReadCode(size: nat, all: seq<bool>, cut: nat, ghost lengths: seq<nat>, ghost written: seq<bool>,
                  ghost rest: seq<bool>)
    returns (read: seq<nat>, left: seq<bool>)
    requires |lengths| == size && IsForm(lengths, written) && all == written + rest
    ensures read == lengths && left == rest
  {
    hide *;
    ghost var cl, ts, progress := FormTaken(lengths, written);
    CodeSize(cl);
    SkipFromBits(Skip(cl), Body(cl, ts) + rest);
    assert all == Lsb(Skip(cl), 2) + (Body(cl, ts) + rest) by {
      Associates(Lsb(Skip(cl), 2), Body(cl, ts), rest);
    }
    var skip := FromLsb(all[..2]);
    var stream := all[2..];
    ghost var plan := Plan(cl, ts, progress, rest);
    var decoder := new ComplexPrefixCodeDecoder(size, skip);
    FreshPlan(cl, ts, progress, rest, size);
    StartsExpecting(decoder, plan, stream);
    var first := if cut < |stream| then cut else |stream|;
    var r, used;
    ghost var next;
    r, used, next := decoder.Decode(stream[..first], Some(plan), stream);
    left := stream[used..];
    if r.NeedInput? {
      SameGoal(Some(plan), next);
      var n;
      r, n, next := decoder.Decode(left, next, left);
      left := left[n..];
    }
    read := decoder.lengths;
  }

  /** What the encoder writes for a complete code, the decoder reads back, given the bits in two
      pieces cut anywhere: the same lengths, and exactly the bits that were written. */
  method WriteThenRead(lengths: seq<nat>, rest: seq<bool>, cut: nat)
    returns (written: seq<bool>, read: seq<nat>, left: seq<bool>)
    requires Complete(lengths) && |lengths| <= 0xffff
    ensures IsForm(lengths, written) && read == lengths && left == rest
  {
    hide *;
    written := WriteCode(lengths);
    read, left := ReadCode(|lengths|, written + rest, cut, lengths, written, rest);
  }

  lemma SameGoal(plan: Option<Plan>, next: Option<Plan>)
    requires SamePlan(plan, next) && plan.Some?
    ensures next.Some? && next.value.rest == plan.value.rest && next.value.read == plan.value.read
  {
  }

  lemma CodeSize(cl: seq<nat>)
    requires CodeLengthCode(cl)
    ensures |cl| == CODE_LENGTH_CODES
  {
  }

  lemma Associates(a: seq<bool>, b: seq<bool>, c: seq<bool>)
    ensures (a + b) + c == a + (b + c)
  {
  }

  lemma WrittenForm(cl: seq<nat>, ts: seq<Token>, written: seq<bool>)
    requires CodeLengthCode(cl) && Coded(cl, ts) && Skip(cl) <= Stored(cl) &&
             written == [] + (Lsb(Skip(cl), 2) + Body(cl, ts))
    ensures written == Lsb(Skip(cl), 2) + Body(cl, ts)
  {
  }

  lemma StartsExpecting(decoder: ComplexPrefixCodeDecoder, plan: Plan, stream: seq<bool>)
    requires decoder.state == CodeLengthAlphabet
    requires InHeader(plan, decoder.fixedDecoder.Pending() + stream, decoder.codeLengthIndex, decoder.codeLengthLengths,
                      decoder.alphabetSize)
    ensures decoder.Expects(Some(plan), stream)
  {
  }

  /** Two headers that start the same bits list the same lengths for the code-length code. */
  lemma {:induction false} SameHeader(p: Plan, q: Plan, bits: seq<bool>, i: nat, part: seq<nat>, size: nat)
    requires InHeader(p, bits, i, part, size) && InHeader(q, bits, i, part, size)
    ensures p.cl == q.cl && exists after :: InTokens(p, after, Start(), size) && InTokens(q, after, Start(), size)
    decreases CODE_LENGTH_CODES - i
  {
    hide *;
    HeaderPlace(p, bits, i, part, size);
    HeaderPlace(q, bits, i, part, size);
    StopsTogether(part, p.cl, i);
    StopsTogether(part, q.cl, i);
    if i < Stored(p.cl) {
      OrderIsPermutation();
      HeaderValue(p, bits, i, part, size);
      HeaderValue(q, bits, i, part, size);
      ValuesApart(Ordered(p.cl, i), Ordered(q.cl, i), bits);
      SameHeader(p, q, bits[|ValueBits(Ordered(p.cl, i))|..], i + 1,
                 part[CODE_LENGTH_ORDER[i] := Ordered(p.cl, i)], size);
    } else {
      HeaderDone(p, bits, i, part, size);
      HeaderDone(q, bits, i, part, size);
    }
  }

  lemma HeaderPlace(p: Plan, bits: seq<bool>, i: nat, part: seq<nat>, size: nat)
    requires InHeader(p, bits, i, part, size)
    ensures CodeLengthCode(p.cl) && Partial(part, p.cl, i) && i <= Stored(p.cl) && |p.cl| == CODE_LENGTH_CODES
  {
    hide Coded, Advances, TokensBits, HeaderFrom, Stored, Partial, NonZero;
  }

  /** Two lists of tokens with the same code that start the same bits lead to the same lengths and leave the same. */
  lemma {:induction false} SameTokens(p: Plan, q: Plan, bits: seq<bool>, d: Progress, size: nat)
    requires p.cl == q.cl && InTokens(p, bits, d, size) && InTokens(q, bits, d, size)
    ensures p.read == q.read && p.rest == q.rest
    decreases |p.ts|
  {
    hide *;
    if d.space == 0 {
      TokensDone(p, bits, d, size);
      TokensDone(q, bits, d, size);
    } else {
      NextToken(p, bits, d, size);
      NextToken(q, bits, d, size);
      PlanCode(p, bits, d, size);
      var s := p.ts[0].symbol;
      SameSymbol(p.cl, s, q.ts[0].symbol, bits);
      var after := bits[|SymbolBits(p.cl, s)|..];
      if s < 16 {
        var u := LengthToken(p, bits, d, size);
        var v := LengthToken(q, bits, d, size);
        SameTokens(u, v, after, PushLength(d, s).value, size);
      } else {
        var u := DigitToken(p, after, d, size, s);
        var v := DigitToken(q, after, d, size, s);
        SameDigit(p.ts[0].extra, q.ts[0].extra, ExtraBits(s), after);
        SameTokens(u, v, after[ExtraBits(s)..], PushRepeat(d, size, s, p.ts[0].extra).value, size);
      }
    }
  }

  /** A code of one symbol has one, and of another no codeword starts another. */
  lemma SameSymbol(cl: seq<nat>, s: nat, t: nat, bits: seq<bool>)
    requires CodeLengthCode(cl) && s < |cl| == CODE_LENGTH_CODES && t < |cl| && cl[s] > 0 && cl[t] > 0
    requires SymbolBits(cl, s) <= bits && SymbolBits(cl, t) <= bits
    ensures s == t
  {
    if NonZero(cl) == 1 {
      OnlyUsed(cl, s, t);
    } else {
      CompleteCodeLengthCode(cl);
      hide NonZero, Codeword;
      SamePrefix(Codeword(cl, s), Codeword(cl, t), bits);
      if s != t {
        PrefixFree(cl, s, t);
        PrefixFree(cl, t, s);
      }
    }
  }

  lemma SamePrefix(a: seq<bool>, b: seq<bool>, bits: seq<bool>)
    requires a <= bits && b <= bits
    ensures a <= b || b <= a
  {
  }

  lemma SameDigit(x: nat, y: nat, n: nat, bits: seq<bool>)
    requires x < Pow2(n) && y < Pow2(n) && Lsb(x, n) <= bits && Lsb(y, n) <= bits
    ensures x == y
  {
    ValueOfLsb(x, n);
    ValueOfLsb(y, n);
    hide Lsb, FromLsb, Pow2;
    assert Lsb(x, n) == bits[..n] == Lsb(y, n);
  }

  /** So no bits start with the forms of two lists of lengths. */
  lemma SameLengths(lengths: seq<nat>, a: seq<bool>, x: seq<bool>, others: seq<nat>, b: seq<bool>, y: seq<bool>)
    requires IsForm(lengths, a) && IsForm(others, b) && |lengths| == |others| && a + x == b + y
    ensures lengths == others && x == y && a == b
  {
    hide *;
    var cl, ts, read := FormTaken(lengths, a);
    var dl, us, more := FormTaken(others, b);
    CodeSize(cl);
    CodeSize(dl);
    SkipFromBits(Skip(cl), Body(cl, ts) + x);
    SkipFromBits(Skip(dl), Body(dl, us) + y);
    Associates(Lsb(Skip(cl), 2), Body(cl, ts), x);
    Associates(Lsb(Skip(dl), 2), Body(dl, us), y);
    var p, q, size := Plan(cl, ts, read, x), Plan(dl, us, more, y), |lengths|;
    FreshPlan(cl, ts, read, x, size);
    FreshPlan(dl, us, more, y, size);
    SameHeader(p, q, [] + (Body(cl, ts) + x), Skip(cl), seq(CODE_LENGTH_CODES, _ => 0), size);
    var after :| InTokens(p, after, Start(), size) && InTokens(q, after, Start(), size);
    SameTokens(p, q, after, Start(), size);
    SameFront(a, b, x);
  }

  lemma SameFront(a: seq<bool>, b: seq<bool>, x: seq<bool>)
    requires a + x == b + x
    ensures a == b
  {
    assert |a| == |b|;
    assert a == (a + x)[..|a|] == b;
  }
}
