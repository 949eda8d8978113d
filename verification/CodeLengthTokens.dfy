/** Code lengths as run tokens: how the decoder extends its lengths token by token, and why the
    encoder's chained runs (bijective base four and eight) bring back the same lengths. */
module CodeLengthTokens {
  import opened Arithmetic
  import opened HuffmanTree
  import opened CanonicalCode
  import opened Outcomes

  const INITIAL_REPEATED_CODE_LENGTH: nat := 8
  const REPEAT_PREVIOUS: nat := 16
  const REPEAT_ZERO: nat := 17

  datatype Token = Token(symbol: nat, extra: nat)

  datatype ComplexPrefixCodeError =
    InvalidCodeLengthAlphabet | Oversubscribed | RepeatOverflow | RepeatPastAlphabet | TooFewSymbols | UnusedCodeSpace

  /** The decoder between two tokens: lengths so far, what repeats would repeat, space left. */
  datatype Progress = Progress(lengths: seq<nat>, previous: nat, repeat: nat, repeatLength: nat, nonZero: nat,
                               space: int)

  function Start(): Progress
  {
    Progress([], INITIAL_REPEATED_CODE_LENGTH, 0, 0, 0, Pow2(MAX_LENGTH))
  }

  /** A length already in use is at most 15, so its share is positive. */
  predicate Sound(d: Progress)
  {
    0 < d.previous <= MAX_LENGTH && (d.repeat == 0 || d.repeat >= 3)
  }

  function Copies(v: nat, n: nat): (s: seq<nat>)
    ensures |s| == n && forall i :: 0 <= i < n ==> s[i] == v
  {
    if n == 0 then [] else [v] + Copies(v, n - 1)
  }

  function Checked(d: Progress): Result<Progress, ComplexPrefixCodeError>
  {
    if d.space < 0 then Err(Oversubscribed) else Ok(d)
  }

  function PushLength(d: Progress, length: nat): Result<Progress, ComplexPrefixCodeError>
  {
    if length == 0 then
      Ok(d.(lengths := d.lengths + [0], repeat := 0))
    else
      Checked(d.(lengths := d.lengths + [length], repeat := 0, previous := length, nonZero := d.nonZero + 1,
              space := d.space - Share(length, MAX_LENGTH)))
  }

  function RepeatedLength(d: Progress, symbol: nat): nat
  {
    if symbol == REPEAT_PREVIOUS then d.previous else 0
  }

  /** The repeats an earlier token of the same chain has already made. */
  function Chained(d: Progress, length: nat): nat
  {
    if d.repeatLength != length then 0 else d.repeat
  }

  function ExtraBits(symbol: nat): nat
  {
    if symbol == REPEAT_PREVIOUS then 2 else 3
  }

  /** A repeat token multiplies what its chain has repeated and adds its own digit. */
  function PushRepeat(d: Progress, size: nat, symbol: nat, extra: nat): Result<Progress, ComplexPrefixCodeError>
  {
    var length := RepeatedLength(d, symbol);
    var done := Chained(d, length);
    if 0 < done < 2 then Err(RepeatOverflow)
    else
      var repeat := (if done == 0 then 0 else (done - 2) * Pow2(ExtraBits(symbol))) + extra + 3;
      if repeat < done then Err(RepeatOverflow)
      else if |d.lengths| + (repeat - done) > size then Err(RepeatPastAlphabet)
      else
        var more := d.(lengths := d.lengths + Copies(length, repeat - done), repeat := repeat, repeatLength := length);
        if length == 0 then Ok(more)
        else Checked(more.(nonZero := d.nonZero + (repeat - done),
                           space := d.space - (repeat - done) * Share(length, MAX_LENGTH)))
  }

  function Apply(d: Progress, size: nat, t: Token): Result<Progress, ComplexPrefixCodeError>
  {
    if t.symbol < 16 then PushLength(d, t.symbol) else PushRepeat(d, size, t.symbol, t.extra)
  }

  /** Code lengths as symbols, and repeats with the extra bits the stream has room for. */
  predicate Writable(t: Token)
  {
    t.symbol < 16 || (t.symbol <= REPEAT_ZERO && t.extra < Pow2(ExtraBits(t.symbol)))
  }

  /** The decoder asks for every one of the tokens, and they take it from `d` to `e`. */
  predicate Advances(d: Progress, size: nat, ts: seq<Token>, e: Progress)
    decreases |ts|
  {
    if ts == [] then d == e
    else
      && d.space > 0 && |d.lengths| < size && Writable(ts[0])
      && Apply(d, size, ts[0]).Ok? && Advances(Apply(d, size, ts[0]).value, size, ts[1..], e)
  }

  lemma {:induction false} AdvanceOn(d: Progress, size: nat, xs: seq<Token>, e: Progress, ys: seq<Token>, f: Progress)
    requires Advances(d, size, xs, e) && Advances(e, size, ys, f)
    ensures Advances(d, size, xs + ys, f)
    decreases |xs|
  {
    if xs == [] {
      assert xs + ys == ys;
    } else {
      hide Apply, Writable;
      assert (xs + ys)[1..] == xs[1..] + ys;
      AdvanceOn(Apply(d, size, xs[0]).value, size, xs[1..], e, ys, f);
    }
  }

  /** `n` lengths of `v` fit where the decoder is, and it will ask for each of them. */
  predicate HasRoom(d: Progress, size: nat, v: nat, n: nat)
  {
    && Sound(d) && v <= MAX_LENGTH && |d.lengths| + n <= size
    && d.space > 0 && d.space >= n * Share(v, MAX_LENGTH)
  }

  /** The decoder after `n` more lengths of `v`. */
  predicate Extended(d: Progress, v: nat, n: nat, e: Progress)
  {
    && Sound(e) && e.lengths == d.lengths + Copies(v, n) && e.previous == (if v == 0 || n == 0 then d.previous else v)
    && e.space == d.space - n * Share(v, MAX_LENGTH) && e.nonZero == d.nonZero + if v == 0 then 0 else n
  }

  lemma CopiesAppend(v: nat, m: nat, n: nat)
    ensures Copies(v, m) + Copies(v, n) == Copies(v, m + n)
  {
  }

  lemma ShareSplits(m: nat, n: nat, share: nat)
    ensures (m + n) * share == m * share + n * share
  {
  }

  lemma SharePositive(v: nat)
    requires v <= MAX_LENGTH
    ensures v == 0 <==> Share(v, MAX_LENGTH) == 0
  {
  }

  lemma RoomLeft(d: Progress, size: nat, v: nat, m: nat, n: nat, e: Progress)
    requires HasRoom(d, size, v, m + n) && Extended(d, v, m, e) && n > 0
    ensures HasRoom(e, size, v, n)
  {
    hide Share, Copies;
    SharePositive(v);
    var share := Share(v, MAX_LENGTH);
    ShareSplits(m, n, share);
    MulMonotone(share, 1, n);
    assert v == 0 ==> m * share == 0;
  }

  lemma ExtendedTwice(d: Progress, v: nat, m: nat, e: Progress, n: nat, f: Progress)
    requires Extended(d, v, m, e) && Extended(e, v, n, f)
    ensures Extended(d, v, m + n, f)
  {
    hide Share, Copies;
    CopiesAppend(v, m, n);
    ShareSplits(m, n, Share(v, MAX_LENGTH));
    assert d.lengths + Copies(v, m) + Copies(v, n) == d.lengths + (Copies(v, m) + Copies(v, n));
  }

  /** `n` times the same literal. */
  function Literals(v: nat, n: nat): seq<Token>
  {
    if n == 0 then [] else [Token(v, 0)] + Literals(v, n - 1)
  }

  lemma OneLiteral(d: Progress, size: nat, v: nat) returns (e: Progress)
    requires HasRoom(d, size, v, 1)
    ensures Advances(d, size, [Token(v, 0)], e) && Extended(d, v, 1, e) && e.repeat == 0
  {
    assert Copies(v, 1) == [v];
    e := PushLength(d, v).value;
    assert [Token(v, 0)][1..] == [];
    assert Advances(e, size, [], e);
  }

  lemma {:induction false} LiteralsAdvance(d: Progress, size: nat, v: nat, n: nat) returns (e: Progress)
    requires HasRoom(d, size, v, n) && n > 0
    ensures Advances(d, size, Literals(v, n), e) && Extended(d, v, n, e) && e.repeat == 0
    decreases n
  {
    RoomFor(d, size, v, 1, n - 1);
    var c := OneLiteral(d, size, v);
    hide HasRoom, Advances, Extended;
    if n == 1 {
      e := c;
      assert Literals(v, 1) == [Token(v, 0)];
    } else {
      RoomLeft(d, size, v, 1, n - 1, c);
      e := LiteralsAdvance(c, size, v, n - 1);
      ExtendedTwice(d, v, 1, c, n - 1, e);
      AdvanceOn(d, size, [Token(v, 0)], c, Literals(v, n - 1), e);
    }
  }

  lemma Unextended(d: Progress, size: nat, v: nat)
    requires Sound(d)
    ensures Advances(d, size, Literals(v, 0), d) && Extended(d, v, 0, d)
  {
    assert d.lengths + [] == d.lengths;
  }

  lemma RoomFor(d: Progress, size: nat, v: nat, m: nat, n: nat)
    requires HasRoom(d, size, v, m + n)
    ensures HasRoom(d, size, v, m)
  {
    hide Share;
    ShareSplits(m, n, Share(v, MAX_LENGTH));
  }

  /** One more than the largest digit: four for repeats, eight for zeros. */
  function Base(symbol: nat): (b: nat)
    ensures b == 4 || b == 8
  {
    if symbol == REPEAT_PREVIOUS then 4 else 8
  }

  /** The digits of a run of `r + 3`, most significant first, each but the first one less than its
      place value would be. */
  function Chain(symbol: nat, r: nat): (ts: seq<Token>)
    ensures ts != []
    decreases r
  {
    var base := Base(symbol);
    if r / base == 0 then [Token(symbol, r % base)]
    else Chain(symbol, r / base - 1) + [Token(symbol, r % base)]
  }

  lemma BaseIsPower(symbol: nat)
    ensures Pow2(ExtraBits(symbol)) == Base(symbol)
  {
    assert Pow2(2) == 4 && Pow2(3) == 8;
  }

  /** One repeat token that brings the chain from `done` repeats (or none) to `total`. */
  lemma OneRepeat(d: Progress, size: nat, symbol: nat, v: nat, done: nat, total: nat, extra: nat) returns (e: Progress)
    requires symbol == REPEAT_PREVIOUS || symbol == REPEAT_ZERO
    requires v == RepeatedLength(d, symbol) && done == Chained(d, v) && extra < Pow2(ExtraBits(symbol))
    requires total == (if done == 0 then 0 else (done - 2) * Pow2(ExtraBits(symbol))) + extra + 3 && done < total
    requires HasRoom(d, size, v, total - done)
    ensures Advances(d, size, [Token(symbol, extra)], e) && Extended(d, v, total - done, e)
    ensures e.repeat == total && e.repeatLength == v
  {
    SharePositive(v);
    hide Share, Copies, Pow2;
    var t := Token(symbol, extra);
    assert PushRepeat(d, size, symbol, extra).Ok?;
    e := PushRepeat(d, size, symbol, extra).value;
    assert [t][1..] == [] && Advances(e, size, [], e);
  }

  /** A chain repeats exactly as often as the number it writes. */
  lemma {:induction false} ChainAdvances(d: Progress, size: nat, symbol: nat, v: nat, r: nat) returns (e: Progress)
    requires symbol == REPEAT_PREVIOUS || symbol == REPEAT_ZERO
    requires v == RepeatedLength(d, symbol) && Chained(d, v) == 0 && HasRoom(d, size, v, r + 3)
    ensures Advances(d, size, Chain(symbol, r), e) && Extended(d, v, r + 3, e)
    ensures e.repeat == r + 3 && e.repeatLength == v
    decreases r
  {
    var base := Base(symbol);
    BaseIsPower(symbol);
    hide HasRoom, Advances, Extended, Pow2, Base;
    if r / base == 0 {
      e := OneRepeat(d, size, symbol, v, 0, r + 3, r % base);
    } else {
      var most := r / base - 1;
      var done := most + 3;
      assert (done - 2) * base + r % base == r;
      RoomFor(d, size, v, done, r + 3 - done);
      var c := ChainAdvances(d, size, symbol, v, most);
      RoomLeft(d, size, v, done, r + 3 - done, c);
      RepeatsTheSame(d, symbol, v, done, c);
      e := OneRepeat(c, size, symbol, v, done, r + 3, r % base);
      ExtendedTwice(d, v, done, c, r + 3 - done, e);
      AdvanceOn(d, size, Chain(symbol, most), c, [Token(symbol, r % base)], e);
    }
  }

  lemma RepeatsTheSame(d: Progress, symbol: nat, v: nat, n: nat, e: Progress)
    requires v == RepeatedLength(d, symbol) && Extended(d, v, n, e) && n > 0 && e.repeat == n && e.repeatLength == v
    ensures v == RepeatedLength(e, symbol) && Chained(e, v) == n
  {
  }

  /** The tokens of a run of `n` nonzero lengths `v` after the nonzero length `previous`. */
  function RunTokens(previous: nat, v: nat, n: nat): seq<Token>
    requires n > 0
  {
    if previous != v then [Token(v, 0)] + SameTokens(v, n - 1) else SameTokens(v, n)
  }

  /** A run of a length that has just occurred; seven goes as one literal and a run of six. */
  function SameTokens(v: nat, n: nat): seq<Token>
  {
    if n == 7 then [Token(v, 0)] + Chain(REPEAT_PREVIOUS, 3)
    else if n < 3 then Literals(v, n)
    else Chain(REPEAT_PREVIOUS, n - 3)
  }

  /** A run of zeros; eleven goes as one literal and a run of ten. */
  function ZeroTokens(n: nat): seq<Token>
    requires n > 0
  {
    if n == 11 then [Token(0, 0)] + Chain(REPEAT_ZERO, 7)
    else if n < 3 then Literals(0, n)
    else Chain(REPEAT_ZERO, n - 3)
  }

  /** A chain of `v` may start: no chain of `v` is still open. */
  predicate Fresh(d: Progress, v: nat)
  {
    Chained(d, v) == 0
  }

  /** Only a chain of `v` may be open. */
  predicate OpenOnly(d: Progress, v: nat)
  {
    d.repeat == 0 || d.repeatLength == v
  }

  lemma SameAdvances(d: Progress, size: nat, v: nat, n: nat) returns (e: Progress)
    requires v > 0 && d.previous == v && HasRoom(d, size, v, n)
    requires n < 3 || Fresh(d, v)
    ensures Advances(d, size, SameTokens(v, n), e) && Extended(d, v, n, e)
    ensures n == 0 ==> e == d
    ensures 0 < n < 3 ==> e.repeat == 0
    ensures n >= 3 ==> OpenOnly(e, v)
  {
    hide HasRoom, Advances, Extended, Chain;
    if n == 7 {
      RoomFor(d, size, v, 1, 6);
      var c := OneLiteral(d, size, v);
      RoomLeft(d, size, v, 1, 6, c);
      SamePrevious(d, v, 1, c);
      e := ChainAdvances(c, size, REPEAT_PREVIOUS, v, 3);
      ExtendedTwice(d, v, 1, c, 6, e);
      AdvanceOn(d, size, [Token(v, 0)], c, Chain(REPEAT_PREVIOUS, 3), e);
    } else if n == 0 {
      e := d;
      RoomIsSound(d, size, v, 0);
      Unextended(d, size, v);
    } else if n < 3 {
      e := LiteralsAdvance(d, size, v, n);
    } else {
      e := ChainAdvances(d, size, REPEAT_PREVIOUS, v, n - 3);
    }
  }

  lemma RoomIsSound(d: Progress, size: nat, v: nat, n: nat)
    requires HasRoom(d, size, v, n)
    ensures Sound(d)
  {
  }

  lemma SamePrevious(d: Progress, v: nat, n: nat, e: Progress)
    requires Extended(d, v, n, e) && v > 0 && n > 0
    ensures e.previous == v
  {
  }

  /** A run of nonzero lengths, read back. */
  lemma RunAdvances(d: Progress, size: nat, v: nat, n: nat) returns (e: Progress)
    requires v > 0 && n > 0 && HasRoom(d, size, v, n)
    requires n < 3 || Fresh(d, v)
    ensures Advances(d, size, RunTokens(d.previous, v, n), e) && Extended(d, v, n, e)
    ensures OpenOnly(e, v) && (n < 3 ==> e.repeat == 0)
  {
    hide HasRoom, Advances, Extended, SameTokens;
    if d.previous != v {
      RoomFor(d, size, v, 1, n - 1);
      var c := OneLiteral(d, size, v);
      SamePrevious(d, v, 1, c);
      if n == 1 {
        e := c;
        NothingSame(v);
        assert [Token(v, 0)] + [] == [Token(v, 0)];
      } else {
        RoomLeft(d, size, v, 1, n - 1, c);
        e := SameAdvances(c, size, v, n - 1);
        ExtendedTwice(d, v, 1, c, n - 1, e);
        AdvanceOn(d, size, [Token(v, 0)], c, SameTokens(v, n - 1), e);
      }
    } else {
      e := SameAdvances(d, size, v, n);
    }
  }

  lemma NothingSame(v: nat)
    ensures SameTokens(v, 0) == []
  {
  }

  /** A run of zeros, read back. */
  lemma ZerosAdvance(d: Progress, size: nat, n: nat) returns (e: Progress)
    requires n > 0 && HasRoom(d, size, 0, n)
    requires n < 3 || Fresh(d, 0)
    ensures Advances(d, size, ZeroTokens(n), e) && Extended(d, 0, n, e)
    ensures OpenOnly(e, 0) && (n < 3 ==> e.repeat == 0)
  {
    hide HasRoom, Advances, Extended, Chain;
    if n == 11 {
      RoomFor(d, size, 0, 1, 10);
      var c := OneLiteral(d, size, 0);
      RoomLeft(d, size, 0, 1, 10, c);
      e := ChainAdvances(c, size, REPEAT_ZERO, 0, 7);
      ExtendedTwice(d, 0, 1, c, 10, e);
      AdvanceOn(d, size, [Token(0, 0)], c, Chain(REPEAT_ZERO, 7), e);
    } else if n < 3 {
      e := LiteralsAdvance(d, size, 0, n);
    } else {
      e := ChainAdvances(d, size, REPEAT_ZERO, 0, n - 3);
    }
  }

  /** How many entries from `index` on, but before `end`, repeat the entry at `index`. */
  function RunLength(lengths: seq<nat>, index: nat, end: nat): (n: nat)
    requires index < end <= |lengths|
    ensures 0 < n <= end - index && forall i :: index <= i < index + n ==> lengths[i] == lengths[index]
    ensures index + n < end ==> lengths[index + n] != lengths[index]
    decreases end - index
  {
    if index + 1 < end && lengths[index + 1] == lengths[index] then 1 + RunLength(lengths, index + 1, end) else 1
  }

  /** Whether runs of zeros, and runs of other lengths, are worth repeat tokens. */
  datatype RleUse = RleUse(nonZero: bool, zero: bool) {
    predicate For(v: nat) {
      if v == 0 then zero else nonZero
    }
  }

  /** `n` equal lengths from `index` on, and as many as there are unless too few to repeat. */
  predicate RunOf(lengths: seq<nat>, index: nat, n: nat, end: nat)
  {
    && index < index + n <= end <= |lengths| && (forall i :: index <= i < index + n ==> lengths[i] == lengths[index])
    && (n < 3 || index + n == end || lengths[index + n] != lengths[index])
  }

  function Repetitions(lengths: seq<nat>, index: nat, end: nat, rle: RleUse): (n: nat)
    requires index < end <= |lengths|
    ensures 0 < n <= end - index && RunOf(lengths, index, n, end)
  {
    if rle.For(lengths[index]) then RunLength(lengths, index, end) else 1
  }

  /** The tokens of the lengths from `index` up to `end`, run by run. */
  function TokensFrom(lengths: seq<nat>, index: nat, end: nat, previous: nat, rle: RleUse): seq<Token>
    requires index <= end <= |lengths|
    decreases end - index
  {
    if index == end then [] else
    var v, n := lengths[index], Repetitions(lengths, index, end, rle);
    if v == 0 then ZeroTokens(n) + TokensFrom(lengths, index + n, end, previous, rle)
    else RunTokens(previous, v, n) + TokensFrom(lengths, index + n, end, v, rle)
  }

  /** The decoder has the lengths up to `index`; the rest still fits, and ends with a nonzero length. */
  predicate AtRun(d: Progress, lengths: seq<nat>, index: nat, end: nat)
  {
    && index <= end <= |lengths| && d.lengths == lengths[..index] && Sound(d)
    && d.space == Space(lengths[index..end], MAX_LENGTH) && Codes(lengths, end)
    && (index < end ==> d.repeat == 0 || Fresh(d, lengths[index]))
  }

  predicate Codes(lengths: seq<nat>, end: nat)
  {
    && end <= |lengths| && (forall i :: 0 <= i < |lengths| ==> lengths[i] <= MAX_LENGTH)
    && (end > 0 ==> lengths[end - 1] > 0)
  }

  lemma {:induction false} SpaceAppend(xs: seq<nat>, ys: seq<nat>, limit: nat)
    ensures Space(xs + ys, limit) == Space(xs, limit) + Space(ys, limit)
  {
    if xs == [] {
      assert xs + ys == ys;
    } else {
      assert (xs + ys)[1..] == xs[1..] + ys;
      SpaceAppend(xs[1..], ys, limit);
    }
  }

  lemma {:induction false} SpaceOfCopies(v: nat, n: nat, limit: nat)
    ensures Space(Copies(v, n), limit) == n * Share(v, limit)
  {
    if n > 0 {
      hide Share;
      SpaceOfCopies(v, n - 1, limit);
      assert Copies(v, n)[1..] == Copies(v, n - 1);
      ShareSplits(1, n - 1, Share(v, limit));
    }
  }

  /** The next run and what follows it share the space that is left. */
  lemma SpaceOfRun(lengths: seq<nat>, index: nat, n: nat, end: nat)
    requires index + n <= end <= |lengths| && n > 0 && forall i :: index <= i < index + n ==>
             lengths[i] == lengths[index]
    ensures lengths[index..index + n] == Copies(lengths[index], n)
    ensures Space(lengths[index..end], MAX_LENGTH) ==
            n * Share(lengths[index], MAX_LENGTH) + Space(lengths[index + n..end], MAX_LENGTH)
  {
    hide Share, Space;
    assert lengths[index..index + n] == Copies(lengths[index], n);
    assert lengths[index..end] == lengths[index..index + n] + lengths[index + n..end];
    SpaceAppend(lengths[index..index + n], lengths[index + n..end], MAX_LENGTH);
    SpaceOfCopies(lengths[index], n, MAX_LENGTH);
  }

  /** As long as the last nonzero length is to come, some space is left. */
  lemma SpaceRemains(lengths: seq<nat>, index: nat, end: nat)
    requires index < end && Codes(lengths, end)
    ensures Space(lengths[index..end], MAX_LENGTH) > 0
  {
    var last := lengths[end - 1..end];
    assert last == [lengths[end - 1]];
    assert Space(last[1..], MAX_LENGTH) == 0;
    SharePositive(lengths[end - 1]);
    assert lengths[index..end] == lengths[index..end - 1] + last;
    SpaceAppend(lengths[index..end - 1], last, MAX_LENGTH);
  }

  lemma RunHasRoom(d: Progress, lengths: seq<nat>, index: nat, end: nat, n: nat)
    requires AtRun(d, lengths, index, end) && index < end && 0 < n <= end - index
    requires forall i :: index <= i < index + n ==> lengths[i] == lengths[index]
    ensures HasRoom(d, |lengths|, lengths[index], n) && Fresh(d, lengths[index])
  {
    hide Share, Space;
    SpaceRemains(lengths, index, end);
    SpaceOfRun(lengths, index, n, end);
  }

  lemma NextRun(d: Progress, lengths: seq<nat>, index: nat, end: nat, n: nat, e: Progress)
    requires AtRun(d, lengths, index, end) && 0 < n <= end - index
    requires forall i :: index <= i < index + n ==> lengths[i] == lengths[index]
    requires Extended(d, lengths[index], n, e) && OpenOnly(e, lengths[index])
    requires n < 3 ==> e.repeat == 0
    requires n < 3 || index + n == end || lengths[index + n] != lengths[index]
    ensures AtRun(e, lengths, index + n, end)
  {
    hide Share, Space, Codes;
    SpaceOfRun(lengths, index, n, end);
    assert lengths[..index + n] == lengths[..index] + lengths[index..index + n];
  }

  /** The tokens of the run at `index`. */
  function TokensOfRun(lengths: seq<nat>, index: nat, n: nat, previous: nat): seq<Token>
    requires index < |lengths| && n > 0
  {
    if lengths[index] == 0 then ZeroTokens(n) else RunTokens(previous, lengths[index], n)
  }

  lemma OneRun(d: Progress, lengths: seq<nat>, index: nat, end: nat, n: nat) returns (e: Progress)
    requires end <= |lengths| && AtRun(d, lengths, index, end) && 0 < n <= end - index && RunOf(lengths, index, n, end)
    ensures Advances(d, |lengths|, TokensOfRun(lengths, index, n, d.previous), e)
    ensures AtRun(e, lengths, index + n, end)
    ensures e.previous == if lengths[index] == 0 then d.previous else lengths[index]
  {
    hide Advances, Extended, HasRoom, AtRun, ZeroTokens, RunTokens, Fresh, OpenOnly;
    RunHasRoom(d, lengths, index, end, n);
    if lengths[index] == 0 {
      e := ZerosAdvance(d, |lengths|, n);
    } else {
      e := RunAdvances(d, |lengths|, lengths[index], n);
    }
    NextRun(d, lengths, index, end, n, e);
    PreviousAfter(d, lengths[index], n, e);
  }

  lemma PreviousAfter(d: Progress, v: nat, n: nat, e: Progress)
    requires Extended(d, v, n, e) && n > 0
    ensures e.previous == if v == 0 then d.previous else v
  {
  }

  lemma TokensStep(lengths: seq<nat>, index: nat, end: nat, previous: nat, rle: RleUse, n: nat, next: nat)
    requires index < end <= |lengths| && n == Repetitions(lengths, index, end, rle)
    requires next == if lengths[index] == 0 then previous else lengths[index]
    ensures TokensFrom(lengths, index, end, previous, rle) ==
            TokensOfRun(lengths, index, n, previous) + TokensFrom(lengths, index + n, end, next, rle)
  {
    hide ZeroTokens, RunTokens;
  }

  lemma FirstRun(d: Progress, lengths: seq<nat>, index: nat, end: nat, rle: RleUse)
    returns (n: nat, ts: seq<Token>, e: Progress)
    requires end <= |lengths| && AtRun(d, lengths, index, end) && index < end
    ensures 0 < n <= end - index && Advances(d, |lengths|, ts, e) && AtRun(e, lengths, index + n, end)
    ensures TokensFrom(lengths, index, end, d.previous, rle) == ts +
            TokensFrom(lengths, index + n, end, e.previous, rle)
  {
    n := Repetitions(lengths, index, end, rle);
    hide *;
    ts := TokensOfRun(lengths, index, n, d.previous);
    e := OneRun(d, lengths, index, end, n);
    TokensStep(lengths, index, end, d.previous, rle, n, e.previous);
  }

  /** The decoder asks for every token of the runs, and they bring it to the end of the lengths. */
  lemma {:induction false} TokensAdvance(d: Progress, lengths: seq<nat>, index: nat, end: nat, rle: RleUse)
      returns (e: Progress)
    requires index <= end <= |lengths| && AtRun(d, lengths, index, end)
    ensures Advances(d, |lengths|, TokensFrom(lengths, index, end, d.previous, rle), e)
    ensures AtRun(e, lengths, end, end)
    decreases end - index
  {
    hide AtRun;
    if index == end {
      e := d;
    } else {
      hide Advances, TokensFrom;
      var n, ts, c := FirstRun(d, lengths, index, end, rle);
      e := TokensAdvance(c, lengths, index + n, end, rle);
      AdvanceOn(d, |lengths|, ts, c, TokensFrom(lengths, index + n, end, c.previous, rle), e);
    }
  }

  /** One past the last nonzero length. */
  predicate UsedEnd(lengths: seq<nat>, end: nat)
  {
    && end <= |lengths| && (end > 0 ==> lengths[end - 1] > 0)
    && forall i :: end <= i < |lengths| ==> lengths[i] == 0
  }

  /** Reading the tokens of a complete code gives back its lengths; the space reaches zero exactly
      with the last of them. */
  lemma TokensRoundTrip(lengths: seq<nat>, end: nat, rle: RleUse) returns (e: Progress)
    requires Complete(lengths) && UsedEnd(lengths, end)
    ensures Advances(Start(), |lengths|, TokensFrom(lengths, 0, end, INITIAL_REPEATED_CODE_LENGTH, rle), e)
    ensures e.space == 0 && e.lengths == lengths[..end] && e.lengths + Copies(0, |lengths| - end) == lengths
  {
    hide Advances, TokensFrom, Space, Share, Pow2;
    assert lengths[0..end] + lengths[end..] == lengths;
    assert lengths[end..] == Copies(0, |lengths| - end);
    SpaceAppend(lengths[0..end], lengths[end..], MAX_LENGTH);
    SpaceOfCopies(0, |lengths| - end, MAX_LENGTH);
    SharePositive(0);
    assert lengths[..0] == [];
    e := TokensAdvance(Start(), lengths, 0, end, rle);
    assert lengths[end..end] == [];
    NoLengths();
  }

  lemma NoLengths()
    ensures Space([], MAX_LENGTH) == 0
  {
  }
}
