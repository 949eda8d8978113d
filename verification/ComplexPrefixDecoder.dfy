/** The resumable reader of complex prefix codes (`src/decode/complex_prefix_code.rs`). Each call is
    handed the bits available so far; bits it leaves are handed to the next call again. */
module ComplexPrefixDecoder {
  import opened HuffmanTree
  import opened CanonicalCode
  import opened CanonicalTables
  import opened ComplexPrefixFormat
  import opened Outcomes

  datatype PrefixCode = Single(symbol: nat) | Canonical(tables: Tables)

  /** A code for the lengths: a lone symbol needs no bits. */
  ghost predicate CodeFor(code: PrefixCode, lengths: seq<nat>)
  {
    match code
    case Single(s) => NonZero(lengths) == 1 && s < |lengths| && lengths[s] > 0
    case Canonical(t) => NonZero(lengths) != 1 && TablesFor(t, lengths)
  }

  lemma {:induction false} NoneUsed(lengths: seq<nat>)
    requires NonZero(lengths) == 0
    ensures forall s :: 0 <= s < |lengths| ==> lengths[s] == 0
  {
    if lengths != [] {
      NoneUsed(lengths[1..]);
      assert forall s :: 0 < s < |lengths| ==> lengths[s] == lengths[1..][s - 1];
    }
  }

  lemma {:induction false} OnlyUsed(lengths: seq<nat>, s: nat, t: nat)
    requires NonZero(lengths) == 1 && s < |lengths| && lengths[s] > 0 && t < |lengths| && lengths[t] > 0
    ensures s == t
  {
    if lengths[0] > 0 {
      NoneUsed(lengths[1..]);
      assert forall i :: 0 < i < |lengths| ==> lengths[i] == lengths[1..][i - 1];
    } else {
      OnlyUsed(lengths[1..], s - 1, t - 1);
    }
  }

  /** Tables for two symbols or more, no tables for one. */
  method MakePrefixCode(lengths: seq<nat>) returns (r: Result<PrefixCode, PrefixCodeError>)
    ensures r.Ok? <==> NonZero(lengths) == 1 || (NonZero(lengths) != 0 && Complete(lengths))
    ensures r.Ok? ==> CodeFor(r.value, lengths)
  {
    hide Complete, Space;
    var nonZero := CountNonZero(lengths);
    if nonZero == 0 {
      return Err(Empty);
    }
    if nonZero == 1 {
      var symbol: nat := 0;
      assert lengths[0..] == lengths;
      while lengths[symbol] == 0
        invariant symbol < |lengths| && NonZero(lengths[symbol..]) == 1
        decreases |lengths| - symbol
      {
        assert lengths[symbol..][1..] == lengths[symbol + 1..];
        symbol := symbol + 1;
      }
      return Ok(Single(symbol));
    }
    var tables := FromCodeLengths(lengths);
    match tables {
      case Ok(t) => return Ok(Canonical(t));
      case Err(e) => return Err(e);
    }
  }

  datatype ValueState = FirstTwo | Third | Fourth

  /** None of the fixed codewords starts another. */
  lemma ValuesApart(v: nat, w: nat, bits: seq<bool>)
    requires v <= CODE_LENGTH_CODE_BITS && w <= CODE_LENGTH_CODE_BITS && ValueBits(v) <= bits && ValueBits(w) <= bits
    ensures v == w
  {
    var a, b := ValueBits(v), ValueBits(w);
    assert a[0] == b[0] == bits[0] && a[1] == b[1] == bits[1];
    assert |a| > 2 && |b| > 2 ==> a[2] == b[2] == bits[2];
    assert |a| > 3 && |b| > 3 ==> a[3] == b[3] == bits[3];
  }

  /** No fixed codeword is complete yet. */
  ghost predicate Unfinished(bits: seq<bool>)
  {
    forall v :: 0 <= v <= CODE_LENGTH_CODE_BITS ==> !(ValueBits(v) <= bits)
  }

  lemma NotEnough(start: seq<bool>, bits: seq<bool>, used: nat, seen: seq<bool>)
    requires used <= |bits| && seen == start + bits[..used]
    requires (seen == [] && |bits| < used + 2) || (|bits| == used &&
                                                   (seen == [true, true] || seen == [true, true, true]))
    ensures Unfinished(start + bits)
  {
    var all := start + bits;
    if seen == [] {
      assert |all| < 2;
    } else {
      assert bits[..used] == bits;
      forall v | 0 <= v <= CODE_LENGTH_CODE_BITS && |ValueBits(v)| <= |all|
        ensures !(ValueBits(v) <= all)
      {
        assert ValueBits(v)[0] != all[0] || ValueBits(v)[1] != all[1] || (|all| == 3 && ValueBits(v)[2] != all[2]);
      }
    }
  }

  /** Reads one length of the code-length code, two bits first, then one at a time. */
  class CodeLengthValueDecoder {
    var state: ValueState

    constructor ()
      ensures state == FirstTwo
    {
      state := FirstTwo;
    }

    ghost function Pending(): seq<bool>
      reads this
    {
      match state
      case FirstTwo => []
      case Third => [true, true]
      case Fourth => [true, true, true]
    }

    method Decode(bits: seq<bool>) returns (value: Option<nat>, used: nat)
      modifies this
      ensures used <= |bits|
      ensures match value
              case Some(v) => v <= CODE_LENGTH_CODE_BITS && Pending() == [] &&
                  old(Pending()) + bits[..used] == ValueBits(v)
              case None =>
                  Pending() == old(Pending()) + bits[..used] && |bits| - used < 2 && Unfinished(old(Pending()) + bits)
    {
      used := 0;
      ghost var start, seen := Pending(), Pending();
      assert seen == start + bits[..used];
      while true
        invariant used <= |bits| && Pending() == seen == start + bits[..used]
        decreases match state case FirstTwo => 2 case Third => 1 case Fourth => 0
      {
        match state {
          case FirstTwo =>
            if |bits| - used < 2 {
              NotEnough(start, bits, used, seen);
              return None, used;
            }
            seen := ReadOn(start, bits, used, seen, 2);
            var low, high := bits[used], bits[used + 1];
            used := used + 2;
            if !low && !high {
              return Some(0), used;
            } else if low && !high {
              return Some(4), used;
            } else if !low {
              return Some(3), used;
            }
            state := Third;
          case Third =>
            if |bits| == used {
              NotEnough(start, bits, used, seen);
              return None, used;
            }
            seen := ReadOn(start, bits, used, seen, 1);
            used := used + 1;
            if !bits[used - 1] {
              state := FirstTwo;
              return Some(2), used;
            }
            state := Fourth;
          case Fourth =>
            if |bits| == used {
              NotEnough(start, bits, used, seen);
              return None, used;
            }
            seen := ReadOn(start, bits, used, seen, 1);
            used := used + 1;
            state := FirstTwo;
            return Some(if bits[used - 1] then 5 else 1), used;
        }
      }
    }
  }

  /** The next one or two bits after those seen. */
  lemma ReadOn(start: seq<bool>, bits: seq<bool>, used: nat, seen: seq<bool>, n: nat) returns (more: seq<bool>)
    requires 1 <= n <= 2 && used + n <= |bits| && seen == start + bits[..used]
    ensures more == start + bits[..used + n]
    ensures more == seen + if n == 1 then [bits[used]] else [bits[used], bits[used + 1]]
  {
    more := start + bits[..used + n];
  }
}
