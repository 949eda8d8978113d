/** Prefix codes of at most four symbols, which are listed instead of their lengths: the encoder's codewords
    (`src/encode/prefix_code.rs`) and the resumable reader (`src/decode/simple_prefix_code.rs`). */
module SimplePrefixCode {
  import opened Arithmetic
  import opened HuffmanTree
  import opened CanonicalCode
  import opened CanonicalTables
  import opened ComplexPrefixDecoder
  import opened BitStream
  import opened Outcomes

  /** The lengths by place in the list; a symbol alone has any. */
  function ListLengths(count: nat, treeSelect: bool): (ls: seq<nat>)
    ensures |ls| == if 1 <= count <= 4 then count else 0
  {
    match count
    case 1 => [1]
    case 2 => [1, 1]
    case 3 => [1, 2, 2]
    case 4 => if treeSelect then [1, 2, 3, 3] else [2, 2, 2, 2]
    case _ => []
  }

  /** An alphabet in which just the listed symbols have lengths. */
  function Placed(size: nat, symbols: seq<nat>, ls: seq<nat>): (lengths: seq<nat>)
    requires |symbols| == |ls|
    ensures |lengths| == size
  {
    if symbols == [] then seq(size, _ => 0)
    else
      var n := |symbols| - 1;
      var lengths := Placed(size, symbols[..n], ls[..n]);
      if symbols[n] < size then lengths[symbols[n] := ls[n]] else lengths
  }

  /** Symbols of the alphabet, none twice. */
  predicate Listable(symbols: seq<nat>, size: nat)
  {
    && (forall i :: 0 <= i < |symbols| ==> symbols[i] < size)
    && (forall i, j :: 0 <= i < j < |symbols| ==> symbols[i] != symbols[j])
  }

  predicate Positive(ls: seq<nat>)
  {
    forall i :: 0 <= i < |ls| ==> ls[i] > 0
  }

  /** Each listed symbol has its length, and no other symbol has one. */
  lemma {:induction false} PlacedAt(size: nat, symbols: seq<nat>, ls: seq<nat>)
    requires |symbols| == |ls| && Listable(symbols, size)
    ensures forall i :: 0 <= i < |symbols| ==> Placed(size, symbols, ls)[symbols[i]] == ls[i]
    ensures forall s :: 0 <= s < size && s !in symbols ==> Placed(size, symbols, ls)[s] == 0
    decreases |symbols|
  {
    if symbols != [] {
      var n := |symbols| - 1;
      PlacedAt(size, symbols[..n], ls[..n]);
      assert forall i :: 0 <= i < n ==> symbols[..n][i] == symbols[i];
      assert forall s :: s in symbols[..n] ==> s in symbols;
    }
  }

  function Shares(ls: seq<nat>, limit: nat): nat
  {
    if ls == [] then 0 else Shares(ls[..|ls| - 1], limit) + Share(ls[|ls| - 1], limit)
  }

  lemma {:induction false} BlankSpace(size: nat, limit: nat)
    ensures Space(seq(size, _ => 0), limit) == 0 && NonZero(seq(size, _ => 0)) == 0
  {
    if size > 0 {
      BlankSpace(size - 1, limit);
      assert seq(size, _ => 0)[1..] == seq(size - 1, _ => 0);
    }
  }

  lemma {:induction false} NonZeroUpdate(lengths: seq<nat>, s: nat, length: nat)
    requires s < |lengths| && lengths[s] == 0 && length > 0
    ensures NonZero(lengths[s := length]) == NonZero(lengths) + 1
    decreases s
  {
    if s > 0 {
      NonZeroUpdate(lengths[1..], s - 1, length);
      assert lengths[s := length][1..] == lengths[1..][s - 1 := length];
    } else {
      assert lengths[s := length][1..] == lengths[1..];
    }
  }

  /** Code space and number of symbols are those of the list. */
  lemma {:induction false} PlacedSpace(size: nat, symbols: seq<nat>, ls: seq<nat>, limit: nat)
    requires |symbols| == |ls| && Listable(symbols, size) && Positive(ls)
    ensures Space(Placed(size, symbols, ls), limit) == Shares(ls, limit) && NonZero(Placed(size, symbols, ls)) == |ls|
    decreases |symbols|
  {
    hide Space, Share, NonZero;
    if symbols == [] {
      BlankSpace(size, limit);
    } else {
      var n := |symbols| - 1;
      PlacedSpace(size, symbols[..n], ls[..n], limit);
      PlacedAt(size, symbols[..n], ls[..n]);
      var before := Placed(size, symbols[..n], ls[..n]);
      assert before[symbols[n]] == 0;
      SpaceUpdate(before, limit, symbols[n], ls[n]);
      NonZeroUpdate(before, symbols[n], ls[n]);
      assert Share(0, limit) == 0 by {
        NoShare(limit);
      }
    }
  }

  lemma NoShare(limit: nat)
    ensures Share(0, limit) == 0
  {
  }

  function SimpleLengths(symbols: seq<nat>, treeSelect: bool, size: nat): (lengths: seq<nat>)
    requires 1 <= |symbols| <= 4
    ensures |lengths| == size
  {
    Placed(size, symbols, ListLengths(|symbols|, treeSelect))
  }

  lemma ListSpace(count: nat, treeSelect: bool)
    requires 2 <= count <= 4
    ensures Shares(ListLengths(count, treeSelect), MAX_LENGTH) == Pow2(MAX_LENGTH)
  {
    SharesOfThree();
    hide Pow2, Shares, Share;
    var ls := ListLengths(count, treeSelect);
    FirstShares(ls, 1);
    FirstShares(ls, 2);
    if count >= 3 {
      FirstShares(ls, 3);
    }
    if count == 4 {
      FirstShares(ls, 4);
    }
    assert ls[..count] == ls && ls[..0] == [];
  }

  lemma SharesOfThree()
    ensures 2 * Share(1, MAX_LENGTH) == 4 * Share(2, MAX_LENGTH) == 8 * Share(3, MAX_LENGTH) == Pow2(MAX_LENGTH)
  {
    assert Pow2(15) == 2 * Pow2(14) == 4 * Pow2(13) == 8 * Pow2(12);
  }

  lemma FirstShares(ls: seq<nat>, k: nat)
    requires 0 < k <= |ls|
    ensures Shares([], MAX_LENGTH) == 0
    ensures Shares(ls[..k], MAX_LENGTH) == Shares(ls[..k - 1], MAX_LENGTH) + Share(ls[k - 1], MAX_LENGTH)
  {
    assert ls[..k][..k - 1] == ls[..k - 1];
  }

  /** Any list of distinct symbols makes a code: the reader never finds an invalid tree. */
  lemma SimpleIsCode(symbols: seq<nat>, treeSelect: bool, size: nat)
    requires 1 <= |symbols| <= 4 && Listable(symbols, size)
    ensures NonZero(SimpleLengths(symbols, treeSelect, size)) == |symbols|
    ensures |symbols| > 1 ==> Complete(SimpleLengths(symbols, treeSelect, size))
    ensures forall s :: 0 <= s < size ==> (SimpleLengths(symbols, treeSelect, size)[s] > 0 <==> s in symbols)
  {
    hide Space, NonZero, Shares, Pow2, Placed;
    var ls := ListLengths(|symbols|, treeSelect);
    PlacedSpace(size, symbols, ls, MAX_LENGTH);
    PlacedAt(size, symbols, ls);
    if |symbols| > 1 {
      ListSpace(|symbols|, treeSelect);
    }
  }

  /** How many of the symbols below `t` have a length. */
  function CountBelow(symbols: seq<nat>, ls: seq<nat>, t: nat, b: nat): nat
    requires |symbols| == |ls|
  {
    if symbols == [] then 0
    else
      var n := |symbols| - 1;
      CountBelow(symbols[..n], ls[..n], t, b) + if symbols[n] < t && ls[n] == b then 1 else 0
  }

  lemma {:induction false} CountUpdate(lengths: seq<nat>, s: nat, length: nat, b: nat)
    requires s < |lengths| && lengths[s] == 0
    ensures CountOf(lengths[s := length], b) == CountOf(lengths, b) + if length == b != 0 then 1 else 0
    decreases s
  {
    if s > 0 {
      CountUpdate(lengths[1..], s - 1, length, b);
      assert lengths[s := length][1..] == lengths[1..][s - 1 := length];
    } else {
      assert lengths[s := length][1..] == lengths[1..];
    }
  }

  lemma {:induction false} BlankCount(size: nat, b: nat)
    ensures CountOf(seq(size, _ => 0), b) == 0
  {
    if size > 0 {
      BlankCount(size - 1, b);
      assert seq(size, _ => 0)[1..] == seq(size - 1, _ => 0);
    }
  }

  lemma {:induction false} CountPlaced(size: nat, symbols: seq<nat>, ls: seq<nat>, t: nat, b: nat)
    requires |symbols| == |ls| && Listable(symbols, size) && t <= size && b > 0
    ensures CountOf(Placed(size, symbols, ls)[..t], b) == CountBelow(symbols, ls, t, b)
    decreases |symbols|
  {
    hide CountOf;
    if symbols == [] {
      BlankCount(t, b);
      assert Placed(size, symbols, ls)[..t] == seq(t, _ => 0);
    } else {
      var n := |symbols| - 1;
      var before := Placed(size, symbols[..n], ls[..n]);
      CountPlaced(size, symbols[..n], ls[..n], t, b);
      PlacedAt(size, symbols[..n], ls[..n]);
      var s := symbols[n];
      assert before[s] == 0;
      if s < t {
        assert before[s := ls[n]][..t] == before[..t][s := ls[n]];
        CountUpdate(before[..t], s, ls[n], b);
      } else {
        assert before[s := ls[n]][..t] == before[..t];
      }
    }
  }

  /** The encoder's codeword by place in the list. */
  function SimpleSymbolCode(index: nat, count: nat): SymbolCode
  {
    match count
    case 2 => SymbolCode(index, 1)
    case 3 => if index == 0 then SymbolCode(0, 1) else SymbolCode(index + 1, 2)
    case 4 => SymbolCode(index, 2)
    case _ => SymbolCode(0, 0)
  }

  predicate Ascending(symbols: seq<nat>)
  {
    forall i, j :: 0 <= i < j < |symbols| ==> symbols[i] < symbols[j]
  }

  /** All counts a list of at most four symbols has. */
  lemma SmallCount(symbols: seq<nat>, ls: seq<nat>, t: nat, b: nat)
    requires |symbols| == |ls| <= 4
    ensures CountBelow(symbols, ls, t, b) ==
            (if |ls| > 0 && symbols[0] < t && ls[0] == b then 1 else 0) +
              (if |ls| > 1 && symbols[1] < t && ls[1] == b then 1 else 0) +
            (if |ls| > 2 && symbols[2] < t && ls[2] == b then 1 else 0) +
              (if |ls| > 3 && symbols[3] < t && ls[3] == b then 1 else 0)
    decreases |symbols|
  {
    if symbols != [] {
      var n := |symbols| - 1;
      SmallCount(symbols[..n], ls[..n], t, b);
    }
  }

  lemma FirstTwoCodes(lengths: seq<nat>)
    ensures FirstCode(lengths, 1) == 0 && FirstCode(lengths, 2) == 2 * CountOf(lengths, 1)
  {
    NoCountOfZero(lengths);
    hide CountOf;
    assert FirstCode(lengths, 0) == 0 && End(lengths, 0) == 0;
    assert FirstCode(lengths, 1) == 0 && End(lengths, 1) == CountOf(lengths, 1);
  }

  /** The encoder's simple codewords are the canonical ones for the lengths the decoder assumes. */
  lemma SimpleCodesAreCanonical(symbols: seq<nat>, size: nat, i: nat)
    requires 2 <= |symbols| <= 4 && Ascending(symbols) && Listable(symbols, size) && i < |symbols|
    ensures var lengths := SimpleLengths(symbols, false, size);
            SimpleSymbolCode(i, |symbols|) == SymbolCode(Code(lengths, symbols[i]), lengths[symbols[i]])
  {
    hide CountOf, CountBelow, FirstCode, Code, Placed, Listable, Ascending;
    var ls := ListLengths(|symbols|, false);
    var lengths := SimpleLengths(symbols, false, size);
    assert Listable(symbols, size) && symbols[i] < size by {
      InAlphabet(symbols, size, i);
    }
    var s := symbols[i];
    AscendingOrder(symbols);
    PlacedAt(size, symbols, ls);
    CountPlaced(size, symbols, ls, s, ls[i]);
    CountPlaced(size, symbols, ls, size, 1);
    assert lengths[..size] == lengths;
    SmallCount(symbols, ls, s, ls[i]);
    SmallCount(symbols, ls, size, 1);
    FirstTwoCodes(lengths);
    CodeAt(lengths, s);
  }

  lemma InAlphabet(symbols: seq<nat>, size: nat, i: nat)
    requires Listable(symbols, size) && i < |symbols|
    ensures symbols[i] < size
  {
  }

  lemma AscendingOrder(symbols: seq<nat>)
    requires Ascending(symbols)
    ensures forall i, j :: 0 <= i < j < |symbols| ==> symbols[i] < symbols[j]
  {
  }

  lemma CodeAt(lengths: seq<nat>, s: nat)
    requires s < |lengths|
    ensures Code(lengths, s) == FirstCode(lengths, lengths[s]) + CountOf(lengths[..s], lengths[s])
  {
  }

  /** How many bits the largest symbol takes. */
  function BitLength(n: nat): (b: nat)
    ensures n < Pow2(b)
  {
    if n == 0 then 0 else 1 + BitLength(n / 2)
  }

  function AlphabetBits(size: nat): nat
  {
    if size == 0 then 0 else BitLength(size - 1)
  }

  function ListBits(symbols: seq<nat>, width: nat): seq<bool>
  {
    if symbols == [] then [] else Lsb(symbols[0], width) + ListBits(symbols[1..], width)
  }

  /** The wire form after the marker that says it is simple. */
  function SimpleBits(symbols: seq<nat>, size: nat): seq<bool>
    requires symbols != []
  {
    Lsb(|symbols| - 1, 2) + ListBits(symbols, AlphabetBits(size)) + if |symbols| == 4 then Lsb(0, 1) else []
  }

  datatype SimpleState = SymbolCount | Symbols(count: nat, symbols: seq<nat>) | TreeSelect(symbols: seq<nat>)

  datatype SimpleError = InvalidSymbol | DuplicateSymbol

  /** Where a call stops: short of bits, with all symbols read, or at an error. */
  datatype SimpleStop = More(state: SimpleState, left: seq<bool>) | Listed(symbols: seq<nat>, treeSelect: bool,
                                                                           left: seq<bool>)
                      | Bad(error: SimpleError)

  /** A state the reader can be in. */
  predicate SaneSimple(st: SimpleState, size: nat)
  {
    match st
    case SymbolCount => true
    case Symbols(count, symbols) => 1 <= count <= 4 && |symbols| <= count && Listable(symbols, size)
    case TreeSelect(symbols) => |symbols| == 4 && Listable(symbols, size)
  }

  /** All the reader does with the bits it has. */
  function Reads(size: nat, st: SimpleState, bits: seq<bool>): (stop: SimpleStop)
    requires SaneSimple(st, size)
    ensures stop.More? ==> SaneSimple(stop.state, size) && |stop.left| <= |bits|
    ensures stop.Listed? ==> 1 <= |stop.symbols| <= 4 && Listable(stop.symbols, size) && |stop.left| <= |bits|
    decreases if st.SymbolCount? then 9 else if st.Symbols? then 1 + st.count - |st.symbols| else 0
  {
    match st
    case SymbolCount =>
      if |bits| < 2 then More(st, bits)
      else
        assert Pow2(2) == 4;
        Reads(size, Symbols(FromLsb(bits[..2]) + 1, []), bits[2..])
    case Symbols(count, symbols) =>
      var width := AlphabetBits(size);
      if |symbols| == count then if count == 4 then Reads(size, TreeSelect(symbols), bits)
          else Listed(symbols, false, bits)
      else if |bits| < width then More(st, bits)
      else
        var symbol := FromLsb(bits[..width]);
        if symbol >= size then Bad(InvalidSymbol)
        else if symbol in symbols then Bad(DuplicateSymbol)
        else Reads(size, Symbols(count, symbols + [symbol]), bits[width..])
    case TreeSelect(symbols) => if |bits| < 1 then More(st, bits)
        else Listed(symbols, FromLsb(bits[..1]) != 0, bits[1..])
  }

  /** More bits later are as good as more bits at once. */
  lemma {:induction false} ReadsOn(size: nat, st: SimpleState, bits: seq<bool>, x: seq<bool>)
    requires SaneSimple(st, size)
    ensures Reads(size, st, bits + x) ==
            match Reads(size, st, bits)
            case More(next, left) => Reads(size, next, left + x)
            case Listed(symbols, treeSelect, left) => Listed(symbols, treeSelect, left + x)
            case Bad(e) => Bad(e)
    decreases if st.SymbolCount? then 9 else if st.Symbols? then 1 + st.count - |st.symbols| else 0
  {
    hide FromLsb, BitLength;
    match st {
      case SymbolCount =>
        if |bits| >= 2 {
          Unsplit(bits, x, 2);
          assert Pow2(2) == 4;
          ReadsOn(size, Symbols(FromLsb(bits[..2]) + 1, []), bits[2..], x);
        }
      case Symbols(count, symbols) =>
        var width := AlphabetBits(size);
        if |symbols| == count {
          if count == 4 {
            ReadsOn(size, TreeSelect(symbols), bits, x);
          }
        } else if |bits| >= width {
          Unsplit(bits, x, width);
          var symbol := FromLsb(bits[..width]);
          if symbol < size && symbol !in symbols {
            ReadsOn(size, Symbols(count, symbols + [symbol]), bits[width..], x);
          }
        }
      case TreeSelect(_) =>
        if |bits| >= 1 {
          Unsplit(bits, x, 1);
        }
    }
  }

  lemma Unsplit(bits: seq<bool>, x: seq<bool>, n: nat)
    requires n <= |bits|
    ensures (bits + x)[..n] == bits[..n] && (bits + x)[n..] == bits[n..] + x
  {
  }

  lemma {:induction false} SmallEnough(m: nat, n: nat)
    requires m <= n
    ensures m < Pow2(BitLength(n))
  {
  }

  lemma {:induction false} ReadsList(size: nat, symbols: seq<nat>, k: nat, rest: seq<bool>)
    requires 1 <= |symbols| <= 4 && Listable(symbols, size) && k <= |symbols|
    ensures SaneSimple(Symbols(|symbols|, symbols[..k]), size)
    ensures Reads(size, Symbols(|symbols|, symbols[..k]), ListBits(symbols[k..], AlphabetBits(size)) + rest) ==
            Reads(size, Symbols(|symbols|, symbols), rest)
    decreases |symbols| - k
  {
    var width := AlphabetBits(size);
    if k == |symbols| {
      assert symbols[..k] == symbols && ListBits(symbols[k..], width) + rest == rest;
    } else {
      hide Reads, FromLsb, Lsb, BitLength, ListBits;
      ListFront(symbols, k, width, rest);
      ReadsSteps(size, Symbols(|symbols|, symbols[..k]), ListBits(symbols[k..], width) + rest);
      assert symbols[..k] + [symbols[k]] == symbols[..k + 1];
      assert symbols[k] !in symbols[..k];
      SmallEnough(symbols[k], size - 1);
      ValueOfLsb(symbols[k], width);
      hide Listable;
      ReadsList(size, symbols, k + 1, rest);
    }
  }

  lemma ListFront(symbols: seq<nat>, k: nat, width: nat, rest: seq<bool>)
    requires k < |symbols|
    ensures var all := ListBits(symbols[k..], width) + rest;
            |all| >= width && all[..width] == Lsb(symbols[k], width) &&
              all[width..] == ListBits(symbols[k + 1..], width) + rest
  {
    var more := ListBits(symbols[k + 1..], width) + rest;
    assert symbols[k..][1..] == symbols[k + 1..];
    hide Lsb;
    assert ListBits(symbols[k..], width) + rest == Lsb(symbols[k], width) + more;
  }

  /** What the encoder lists, the reader reads back, in the same order and no bit more. */
  lemma SimpleRoundTrip(size: nat, symbols: seq<nat>, rest: seq<bool>)
    requires 1 <= |symbols| <= 4 && Listable(symbols, size)
    ensures Reads(size, SymbolCount, SimpleBits(symbols, size) + rest) == Listed(symbols, false, rest)
  {
    hide FromLsb, Lsb, BitLength, Listable, ListBits, Reads, AlphabetBits;
    var n := |symbols|;
    var last := if n == 4 then Lsb(0, 1) else [];
    CountFront(n, ListBits(symbols, AlphabetBits(size)), last, rest);
    ReadsSteps(size, SymbolCount, SimpleBits(symbols, size) + rest);
    assert symbols[..0] == [] && symbols[0..] == symbols;
    ReadsList(size, symbols, 0, last + rest);
    LastFront(rest);
    ReadsSteps(size, Symbols(n, symbols), last + rest);
    assert [] + rest == rest;
    if n == 4 {
      ReadsSteps(size, TreeSelect(symbols), last + rest);
    }
  }

  lemma CountFront(n: nat, list: seq<bool>, last: seq<bool>, rest: seq<bool>)
    requires 1 <= n <= 4
    ensures var all := Lsb(n - 1, 2) + list + last + rest;
            |all| >= 2 && FromLsb(all[..2]) == n - 1 && all[2..] == list + (last + rest)
  {
    assert Pow2(2) == 4;
    ValueOfLsb(n - 1, 2);
    hide Lsb, FromLsb;
    var all := Lsb(n - 1, 2) + list + last + rest;
    assert all[..2] == Lsb(n - 1, 2);
  }

  lemma LastFront(rest: seq<bool>)
    ensures var all := Lsb(0, 1) + rest; FromLsb(all[..1]) == 0 && all[1..] == rest
  {
    assert Pow2(1) == 2;
    ValueOfLsb(0, 1);
    hide Lsb, FromLsb;
    assert (Lsb(0, 1) + rest)[..1] == Lsb(0, 1);
  }

  datatype Reading = ReadingCount | ReadingSymbols | ReadingTree

  /** The reader as an object, resumed with the bits it left and new ones. */
  class SimplePrefixCodeDecoder {
    const alphabetSize: nat
    var state: Reading
    var symbolCount: nat
    var symbols: seq<nat>

    constructor (size: nat)
      requires size > 0
      ensures alphabetSize == size && Abs() == SymbolCount
    {
      alphabetSize, state, symbolCount, symbols := size, ReadingCount, 0, [];
    }

    ghost function Abs(): SimpleState
      reads this
    {
      match state
      case ReadingCount => SymbolCount
      case ReadingSymbols => Symbols(symbolCount, symbols)
      case ReadingTree => TreeSelect(symbols)
    }

    method Decode(bits: seq<bool>) returns (r: Result<Option<PrefixCode>, SimpleError>, left: seq<bool>)
      requires SaneSimple(Abs(), alphabetSize)
      modifies this
      ensures |left| <= |bits|
      ensures match Reads(alphabetSize, old(Abs()), bits)
              case More(next, rest) => r == Ok(None) && Abs() == next && left == rest
              case Listed(symbols, treeSelect, rest) =>
                r.Ok? && r.value.Some? && CodeFor(r.value.value, SimpleLengths(symbols, treeSelect, alphabetSize)) &&
                Abs() == SymbolCount && left == rest
              case Bad(e) => r == Err(e)
    {
      hide Reads, FromLsb, CodeFor, AlphabetBits, SimpleLengths;
      left := bits;
      ReadsSteps(alphabetSize, Abs(), left);
      if state == ReadingCount {
        if |left| < 2 {
          return Ok(None), left;
        }
        symbolCount, symbols, state := FromLsb(left[..2]) + 1, [], ReadingSymbols;
        left := left[2..];
        ReadsSteps(alphabetSize, Abs(), left);
      }
      if state == ReadingSymbols {
        var width := AlphabetBits(alphabetSize);
        while |symbols| < symbolCount
          invariant state == ReadingSymbols && SaneSimple(Abs(), alphabetSize) && |left| <= |bits|
          invariant Reads(alphabetSize, Abs(), left) == Reads(alphabetSize, old(Abs()), bits)
          decreases symbolCount - |symbols|
        {
          ReadsSteps(alphabetSize, Abs(), left);
          if |left| < width {
            return Ok(None), left;
          }
          var symbol := FromLsb(left[..width]);
          left := left[width..];
          if symbol >= alphabetSize {
            return Err(InvalidSymbol), left;
          }
          if symbol in symbols {
            return Err(DuplicateSymbol), left;
          }
          symbols := symbols + [symbol];
        }
        ReadsSteps(alphabetSize, Abs(), left);
        if symbolCount < 4 {
          var code := Finish(false);
          return Ok(Some(code)), left;
        }
        state := ReadingTree;
      }
      ReadsSteps(alphabetSize, Abs(), left);
      if |left| < 1 {
        return Ok(None), left;
      }
      var select := FromLsb(left[..1]) != 0;
      left := left[1..];
      var code := Finish(select);
      return Ok(Some(code)), left;
    }

    /** Makes the code; the source's error for an invalid tree cannot occur. */
    method Finish(treeSelect: bool) returns (code: PrefixCode)
      requires 1 <= |symbols| <= 4 && Listable(symbols, alphabetSize)
      modifies this
      ensures CodeFor(code, SimpleLengths(old(symbols), treeSelect, alphabetSize)) && Abs() == SymbolCount
    {
      SimpleIsCode(symbols, treeSelect, alphabetSize);
      if |symbols| == 1 {
        code := Single(symbols[0]);
      } else {
        hide Complete, Placed, NonZero, CodeFor;
        var lengths := SimpleLengths(symbols, treeSelect, alphabetSize);
        var r := MakePrefixCode(lengths);
        code := r.value;
      }
      state, symbolCount, symbols := ReadingCount, 0, [];
    }
  }

  /** One step of the reader. */
  lemma ReadsSteps(size: nat, st: SimpleState, bits: seq<bool>)
    requires SaneSimple(st, size)
    ensures st.SymbolCount? && |bits| < 2 ==> Reads(size, st, bits) == More(st, bits)
    ensures st.SymbolCount? && |bits| >= 2 ==>
              var next := Symbols(FromLsb(bits[..2]) + 1, []);
              SaneSimple(next, size) && Reads(size, st, bits) == Reads(size, next, bits[2..])
    ensures st.Symbols? && |st.symbols| == st.count == 4 ==>
            Reads(size, st, bits) == Reads(size, TreeSelect(st.symbols), bits)
    ensures st.Symbols? && |st.symbols| == st.count < 4 ==> Reads(size, st, bits) == Listed(st.symbols, false, bits)
    ensures st.Symbols? && |st.symbols| < st.count && |bits| < AlphabetBits(size) ==>
            Reads(size, st, bits) == More(st, bits)
    ensures st.Symbols? && |st.symbols| < st.count && |bits| >= AlphabetBits(size) ==>
              var symbol := FromLsb(bits[..AlphabetBits(size)]);
              && (symbol >= size ==> Reads(size, st, bits) == Bad(InvalidSymbol))
              && (symbol < size && symbol in st.symbols ==> Reads(size, st, bits) == Bad(DuplicateSymbol))
              && (symbol < size && symbol !in st.symbols ==>
                    var next := Symbols(st.count, st.symbols + [symbol]);
                    SaneSimple(next, size) && Reads(size, st, bits) == Reads(size, next, bits[AlphabetBits(size)..]))
    ensures st.TreeSelect? && |bits| < 1 ==> Reads(size, st, bits) == More(st, bits)
    ensures st.TreeSelect? && |bits| >= 1 ==>
            Reads(size, st, bits) == Listed(st.symbols, FromLsb(bits[..1]) != 0, bits[1..])
  {
    assert Pow2(2) == 4;
  }
}
