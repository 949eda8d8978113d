/** Bits packed into bytes, least significant first: the encoder's writer with its 64 pending bits
    (`src/encode/bit_writer.rs`) and the decoder's reader with its staging buffer (`src/decode/bit_reader.rs`), each
    refining a sequence of bits. */
module BitPacking {
  import opened Arithmetic
  import opened Bytes
  import opened BitStream
  import opened CanonicalCode
  import opened Outcomes

  const WORD_BITS: nat := 64
  const MAX_READ_BITS: nat := 56

  function BitsOf(bytes: seq<Byte>): (bits: seq<bool>)
    ensures |bits| == 8 * |bytes|
  {
    if bytes == [] then [] else Lsb(bytes[0], 8) + BitsOf(bytes[1..])
  }

  lemma {:induction false} BitsOfAppend(a: seq<Byte>, b: seq<Byte>)
    ensures BitsOf(a + b) == BitsOf(a) + BitsOf(b)
  {
    hide Lsb;
    if a == [] {
      assert [] + b == b;
    } else {
      BitsOfAppend(a[1..], b);
      assert (a + b)[1..] == a[1..] + b;
    }
  }

  /** The lowest `n` bytes of a word. */
  function LeBytes(v: nat, n: nat): (bytes: seq<Byte>)
    ensures |bytes| == n
  {
    if n == 0 then [] else [v % 256] + LeBytes(v / 256, n - 1)
  }

  lemma {:induction false} LeBytesAreLsb(v: nat, n: nat)
    ensures BitsOf(LeBytes(v, n)) == Lsb(v, 8 * n)
  {
    if n > 0 {
      Pow2Of8();
      hide Low, High, Raise, Lsb, Pow2;
      LeBytesAreLsb(v / 256, n - 1);
      assert LeBytes(v, n)[1..] == LeBytes(v / 256, n - 1);
      LsbSplits(v % 256, v / 256, 8, 8 * (n - 1));
    }
  }

  /** `v & low_mask(n)`. */
  function Low(v: nat, n: nat): (low: nat)
    ensures low < Pow2(n)
  {
    Remainder(v, Pow2(n))
  }

  /** `v >> n`. */
  function High(v: nat, n: nat): nat
  {
    Quotient(v, Pow2(n))
  }

  /** `v << n`, with room for all of it. */
  function Raise(v: nat, n: nat): nat
  {
    v * Pow2(n)
  }

  lemma LowHigh(v: nat, n: nat)
    ensures v == Low(v, n) + High(v, n) * Pow2(n)
  {
    Recombine(v, Pow2(n));
  }

  /** The low bits of a number, then the rest of it. */
  lemma LsbParts(v: nat, m: nat, n: nat)
    ensures Lsb(v, m + n) == Lsb(v, m) + Lsb(High(v, m), n)
    ensures Lsb(Low(v, m), m) == Lsb(v, m)
  {
    LowHigh(v, m);
    hide Lsb, Pow2, Low, High;
    LsbSplits(Low(v, m), High(v, m), m, n);
    LsbIgnoresHigh(Low(v, m), High(v, m), m);
  }

  /** Bits put above those already there. */
  lemma LsbAbove(low: nat, value: nat, m: nat, n: nat)
    requires low < Pow2(m)
    ensures Lsb(low + Raise(Low(value, n), m), m + n) == Lsb(low, m) + Lsb(value, n)
    ensures low + Raise(Low(value, n), m) < Pow2(m + n)
  {
    hide Lsb, Pow2, Low;
    LsbParts(value, n, 0);
    LsbSplits(low, Low(value, n), m, n);
    RaisedFits(low, Low(value, n), m, n);
  }

  lemma RaisedFits(low: nat, high: nat, m: nat, n: nat)
    requires low < Pow2(m) && high < Pow2(n)
    ensures low + Raise(high, m) < Pow2(m + n)
  {
    hide Pow2;
    Pow2Add(n, m);
    MulMonotone(Pow2(m), high + 1, Pow2(n));
    assert Pow2(m) * (high + 1) == high * Pow2(m) + Pow2(m);
  }

  lemma QuotientSmall(v: nat, m: nat, n: nat)
    requires v < Pow2(m + n)
    ensures High(v, m) < Pow2(n)
  {
    hide Pow2;
    Pow2Add(n, m);
    QuotientBelow(v, Pow2(n), Pow2(m));
  }

  /** The bits that fill up a byte. */
  function Padding(n: nat): nat
  {
    (8 - n % 8) % 8
  }

  lemma PaddingOf(bytes: nat, used: nat)
    ensures Padding(8 * bytes + used) == 8 * ((used + 7) / 8) - used
  {
    assert (8 * bytes + used) % 8 == used % 8;
  }

  /** Pending bits written out as whole bytes. */
  lemma FilledUp(bytes: seq<Byte>, pending: nat, used: nat, count: nat)
    requires pending < Pow2(used) && used <= 8 * count
    ensures BitsOf(bytes + LeBytes(pending, count)) == BitsOf(bytes) + Lsb(pending, used) +
            seq(8 * count - used, _ => false)
  {
    hide Lsb, Pow2, BitsOf;
    var pad := 8 * count - used;
    LeBytesAreLsb(pending, count);
    LsbSplits(pending, 0, used, pad);
    assert used + pad == 8 * count && pending + 0 * Pow2(used) == pending;
    NoBits(pad);
    BitsOfAppend(bytes, LeBytes(pending, count));
    assert BitsOf(bytes) + (Lsb(pending, used) + Lsb(0, pad)) == BitsOf(bytes) + Lsb(pending, used) + Lsb(0, pad);
  }

  lemma NoBits(n: nat)
    ensures Lsb(0, n) == seq(n, _ => false)
  {
  }

  /** The encoder's writer. */
  class BitWriter {
    var bytes: seq<Byte>
    var pending: nat
    var used: nat

    ghost predicate Valid()
      reads this
    {
      used < WORD_BITS && pending < Pow2(used)
    }

    /** Everything written and not yet drained. */
    ghost function Bits(): (bits: seq<bool>)
      reads this
    {
      BitsOf(bytes) + Lsb(pending, used)
    }

    constructor ()
      ensures Valid() && Bits() == []
    {
      bytes, pending, used := [], 0, 0;
    }

    /** A full word goes to the bytes. */
    method FlushWord()
      requires used == WORD_BITS && pending < Pow2(WORD_BITS)
      modifies this
      ensures Valid() && used == 0 && pending == 0 && Bits() == old(Bits())
    {
      hide Low, High, Raise, Lsb, Pow2;
      LeBytesAreLsb(pending, 8);
      BitsOfAppend(bytes, LeBytes(pending, 8));
      bytes, pending, used := bytes + LeBytes(pending, 8), 0, 0;
      EmptyWord();
    }

    method WriteBits(value: nat, count: nat)
      requires Valid() && count <= WORD_BITS
      modifies this
      ensures Valid() && Bits() == old(Bits()) + Lsb(value, count)
    {
      hide Low, High, Raise, Lsb, Pow2, BitsOf;
      if count == 0 {
        NoWord(value);
        return;
      }
      var total := used + count;
      if total <= WORD_BITS {
        LsbAbove(pending, value, used, count);
        pending := pending + Raise(Low(value, count), used);
        used := total;
        if used == WORD_BITS {
          FlushWord();
        }
        return;
      }
      var take := WORD_BITS - used;
      LsbAbove(pending, value, used, take);
      LsbParts(value, take, count - take);
      pending := pending + Raise(Low(value, take), used);
      used := WORD_BITS;
      FlushWord();
      var rest := High(value, take);
      assert take + (count - take) == count;
      assert BitsOf(bytes) + Lsb(pending, used) == BitsOf(bytes);
      ghost var first := BitsOf(bytes);
      LsbParts(rest, count - take, 0);
      EmptyWord();
      pending := Low(rest, count - take);
      used := count - take;
      assert first + Lsb(pending, used) == old(Bits()) + (Lsb(value, take) + Lsb(rest, count - take));
    }

    /** A codeword goes in most significant bit first, which is least significant first once reversed. */
    method WritePrefix(code: nat, count: nat)
      requires Valid() && code < Pow2(count) && count <= 16
      modifies this
      ensures Valid() && Bits() == old(Bits()) + Msb(code, count)
    {
      hide Low, High, Raise, Lsb, Pow2, Reversed, Msb;
      if count == 0 {
        NoCodeword(code);
        return;
      }
      ReversedShift(code, count);
      WriteBits(High(Reversed(code, 16), 16 - count), count);
    }

    /** Everything of another writer goes in behind. */
    method AppendWriter(other: BitWriter)
      requires Valid() && other.Valid() && other != this
      modifies this
      ensures Valid() && Bits() == old(Bits()) + old(other.Bits())
    {
      hide Low, High, Raise, Lsb, Pow2, BitsOf;
      ghost var start := Bits();
      assert other.bytes[..0] == [];
      NoBytes();
      for i := 0 to |other.bytes|
        invariant Valid() && other.Valid() && Bits() == start + BitsOf(other.bytes[..i])
      {
        WriteBits(other.bytes[i], 8);
        OneByte(other.bytes[i]);
        BitsOfAppend(other.bytes[..i], [other.bytes[i]]);
        assert other.bytes[..i + 1] == other.bytes[..i] + [other.bytes[i]];
      }
      assert other.bytes[..|other.bytes|] == other.bytes;
      if other.used > 0 {
        LsbParts(other.pending, other.used, 0);
        WriteBits(Low(other.pending, other.used), other.used);
      } else {
        NoWord(other.pending);
      }
    }

    /** Whole pending bytes go to the bytes. */
    method FlushCompletePending()
      requires Valid()
      modifies this
      ensures Valid() && Bits() == old(Bits()) && used < 8 && |bytes| == |Bits()| / 8
    {
      hide Low, High, Raise, Lsb, Pow2, BitsOf;
      var whole := used - used % 8;
      if whole > 0 {
        var n := whole / 8;
        assert whole == 8 * n;
        LeBytesAreLsb(pending, n);
        LsbParts(pending, whole, used - whole);
        BitsOfAppend(bytes, LeBytes(pending, n));
        QuotientSmall(pending, whole, used - whole);
        bytes := bytes + LeBytes(pending, n);
        pending := High(pending, whole);
        used := used - whole;
      }
    }

    /** Completed bytes go out, as many as fit. */
    method DrainBytes(room: nat) returns (output: seq<Byte>)
      requires Valid()
      modifies this
      ensures Valid() && BitsOf(output) + Bits() == old(Bits()) && |output| == Min(room, |old(Bits())| / 8)
    {
      hide Low, High, Raise, Lsb, Pow2, BitsOf;
      FlushCompletePending();
      var count := Min(room, |bytes|);
      BitsOfAppend(bytes[..count], bytes[count..]);
      assert bytes == bytes[..count] + bytes[count..];
      output := bytes[..count];
      bytes := bytes[count..];
    }

    method QueuedBytes() returns (n: nat)
      requires Valid()
      modifies this
      ensures Valid() && Bits() == old(Bits()) && n == |Bits()| / 8
    {
      FlushCompletePending();
      n := |bytes|;
    }

    /** Zero bits up to the next byte. */
    method AlignToByte()
      requires Valid()
      modifies this
      ensures Valid() && used == 0 && Bits() == old(Bits()) + seq(Padding(|old(Bits())|), _ => false)
    {
      hide Lsb, Pow2, BitsOf, Padding;
      PaddingOf(|bytes|, used);
      if used == 0 {
        return;
      }
      var count := (used + 7) / 8;
      FilledUp(bytes, pending, used, count);
      bytes, pending, used := bytes + LeBytes(pending, count), 0, 0;
      EmptyWord();
    }

    /** Bytes as they are, on a byte boundary. */
    method WriteBytes(more: seq<Byte>)
      requires Valid() && used == 0
      modifies this
      ensures Valid() && used == 0 && Bits() == old(Bits()) + BitsOf(more)
    {
      hide Pow2, BitsOf;
      NoWord(pending);
      BitsOfAppend(bytes, more);
      bytes := bytes + more;
    }
  }

  /** A writer that holds the given bits. */
  method WriterOf(bits: seq<bool>) returns (w: BitWriter)
    ensures fresh(w) && w.Valid() && w.Bits() == bits
  {
    hide Lsb;
    w := new BitWriter();
    for i := 0 to |bits|
      invariant fresh(w) && w.Valid() && w.Bits() == bits[..i]
    {
      OneBit(bits[i]);
      w.WriteBits(if bits[i] then 1 else 0, 1);
      assert bits[..i + 1] == bits[..i] + [bits[i]];
    }
    assert bits[..|bits|] == bits;
  }

  lemma OneBit(b: bool)
    ensures Lsb(if b then 1 else 0, 1) == [b]
  {
    assert Lsb(if b then 1 else 0, 1) == [b] + Lsb(0, 0);
  }

  lemma EmptyWord()
    ensures Lsb(0, 0) == [] && Pow2(0) == 1
  {
  }

  lemma NoWord(v: nat)
    ensures Lsb(v, 0) == []
  {
  }

  lemma NoBytes()
    ensures BitsOf([]) == []
  {
  }

  lemma OneByte(b: Byte)
    ensures BitsOf([b]) == Lsb(b, 8)
  {
    assert [b][1..] == [];
  }

  lemma NoCodeword(code: nat)
    ensures Msb(code, 0) == []
  {
  }

  /** The lowest `n` bits in reverse. */
  function Reversed(v: nat, n: nat): nat
  {
    if n == 0 then 0 else v % 2 * Pow2(n - 1) + Reversed(v / 2, n - 1)
  }

  lemma {:induction false} ReversedIsMsb(v: nat, n: nat)
    ensures Reversed(v, n) < Pow2(n) && Lsb(Reversed(v, n), n) == Msb(v, n)
  {
    if n > 0 {
      var r := Reversed(v / 2, n - 1);
      ReversedIsMsb(v / 2, n - 1);
      LsbSplits(r, v % 2, n - 1, 1);
      assert Lsb(v % 2, 1) == [v % 2 % 2 == 1] + Lsb(v % 2 / 2, 0);
      assert v % 2 * Pow2(n - 1) <= Pow2(n - 1);
    }
  }

  /** Reversing sixteen bits and dropping the unused ones reverses a codeword. */
  lemma ReversedShift(code: nat, count: nat)
    requires code < Pow2(count) && count <= 16
    ensures Lsb(High(Reversed(code, 16), 16 - count), count) == Msb(code, count)
  {
    hide Pow2, Reversed, Lsb;
    ReversedLong(code, count, 16 - count);
    assert count + (16 - count) == 16;
    ReversedIsMsb(code, count);
    var p := Pow2(16 - count);
    DivUnique(Reversed(code, count) * p, p, Reversed(code, count), 0);
  }

  lemma {:induction false} ReversedLong(code: nat, count: nat, more: nat)
    requires code < Pow2(count)
    ensures Reversed(code, count + more) == Reversed(code, count) * Pow2(more)
  {
    if count > 0 {
      ReversedLong(code / 2, count - 1, more);
      Pow2Add(count - 1, more);
      var low, r := code % 2, Reversed(code / 2, count - 1);
      assert count - 1 + more == count + more - 1;
      Distribute(low, Pow2(count - 1), Pow2(more), r);
    } else {
      ReversedZero(more);
    }
  }

  lemma Distribute(a: nat, b: nat, c: nat, d: nat)
    ensures a * (b * c) + d * c == (a * b + d) * c
  {
  }

  lemma {:induction false} ReversedZero(n: nat)
    ensures Reversed(0, n) == 0
  {
    if n > 0 {
      ReversedZero(n - 1);
    }
  }

  /** The decoder's reader. */
  class BitReader {
    var buffer: nat
    var buffered: nat

    ghost predicate Valid()
      reads this
    {
      buffered < WORD_BITS && buffer < Pow2(buffered)
    }

    /** Bits taken from the input and not yet read. */
    ghost function Held(): seq<bool>
      reads this
    {
      Lsb(buffer, buffered)
    }

    /** All bits that can be read. */
    ghost function Ahead(input: seq<Byte>, cursor: nat): (bits: seq<bool>)
      requires cursor <= |input|
      reads this
      ensures |bits| == buffered + 8 * (|input| - cursor)
    {
      Held() + BitsOf(input[cursor..])
    }

    constructor ()
      ensures Valid() && buffered == 0
    {
      buffer, buffered := 0, 0;
    }

    /** Reads bits if there are enough of them, and otherwise keeps all there are: less than a byte stays
        behind a read that needed more than was held. */
    method ReadBits(input: seq<Byte>, cursor: nat, count: nat) returns (value: Option<nat>, next: nat)
      requires Valid() && cursor <= |input| && count <= MAX_READ_BITS
      modifies this
      ensures Valid() && cursor <= next <= |input|
      ensures value.Some? <==> count <= |old(Ahead(input, cursor))|
      ensures value.Some? ==>
                && value.value == FromLsb(old(Ahead(input, cursor))[..count])
                && Ahead(input, next) == old(Ahead(input, cursor))[count..]
                && (old(buffered) < count + 8 ==> buffered < 8)
      ensures value.Some? && old(buffered) >= count ==> next == cursor && buffered == old(buffered) - count
      ensures value.None? ==> next == |input| && Held() == old(Ahead(input, cursor)) && buffered < count
    {
      hide Low, High, Raise, Lsb, Pow2, BitsOf, FromLsb;
      next := cursor;
      while buffered < count
        invariant Valid() && cursor <= next <= |input|
        invariant Ahead(input, next) == old(Ahead(input, cursor))
        invariant old(buffered) < count + 8 ==> buffered < count + 8
        invariant old(buffered) >= count ==> next == cursor && buffered == old(buffered)
      {
        if next == |input| {
          value := None;
          NoBytes();
          assert input[next..] == [];
          return;
        }
        Refill(input, next);
        next := next + 1;
      }
      value := Some(Low(buffer, count));
      ghost var all := Ahead(input, next);
      assert count + (buffered - count) == buffered;
      LsbParts(buffer, count, buffered - count);
      ValueOfLsb(Low(buffer, count), count);
      QuotientSmall(buffer, count, buffered - count);
      assert all[..count] == Lsb(buffer, count);
      buffer := High(buffer, count);
      buffered := buffered - count;
      assert all[count..] == Held() + BitsOf(input[next..]);
    }

    /** One byte of input goes above what is held. */
    method Refill(input: seq<Byte>, cursor: nat)
      requires Valid() && cursor < |input| && buffered < MAX_READ_BITS
      modifies this
      ensures Valid() && buffered == old(buffered) + 8 && Ahead(input, cursor + 1) == old(Ahead(input, cursor))
    {
      var byte := input[cursor];
      Pow2Of8();
      assert Low(byte, 8) == byte;
      LsbAbove(buffer, byte, buffered, 8);
      hide Low, High, Raise, Lsb, Pow2;
      assert input[cursor..][0] == byte && input[cursor..][1..] == input[cursor + 1..];
      buffer := buffer + Raise(byte, buffered);
      buffered := buffered + 8;
    }

    /** Every bit that can be read. */
    method AllBits(input: seq<Byte>, cursor: nat) returns (bits: seq<bool>)
      requires Valid() && cursor <= |input|
      ensures bits == Ahead(input, cursor)
    {
      bits := Lsb(buffer, buffered) + BitsOf(input[cursor..]);
    }

    /** Reads bits one at a time. */
    method SkipBits(input: seq<Byte>, cursor: nat, count: nat) returns (next: nat)
      requires Valid() && cursor <= |input| && count <= |Ahead(input, cursor)|
      modifies this
      ensures Valid() && cursor <= next <= |input| && Ahead(input, next) == old(Ahead(input, cursor))[count..]
      ensures count == 0 ==> next == cursor && buffer == old(buffer) && buffered == old(buffered)
      ensures old(buffered) < 8 + count ==> buffered < 8
    {
      hide Lsb, Pow2, BitsOf;
      next := cursor;
      for i := 0 to count
        invariant Valid() && cursor <= next <= |input| && Ahead(input, next) == old(Ahead(input, cursor))[i..]
        invariant i == 0 ==> next == cursor && buffer == old(buffer) && buffered == old(buffered)
        invariant buffered < 8 || buffered + i == old(buffered)
      {
        ghost var all := Ahead(input, next);
        var bit;
        bit, next := ReadBits(input, next, 1);
        assert all[1..] == old(Ahead(input, cursor))[i + 1..];
      }
    }

    /** Takes in what is left of the input. */
    method Absorb(input: seq<Byte>, cursor: nat) returns (next: nat)
      requires Valid() && cursor <= |input| && |Ahead(input, cursor)| < MAX_READ_BITS
      modifies this
      ensures Valid() && next == |input| && Ahead(input, next) == old(Ahead(input, cursor)) &&
              buffered == |Ahead(input, next)|
    {
      hide Lsb, Pow2, BitsOf;
      next := cursor;
      while next < |input|
        invariant Valid() && cursor <= next <= |input| && Ahead(input, next) == old(Ahead(input, cursor))
      {
        Refill(input, next);
        next := next + 1;
      }
    }

    /** Drops the bits up to the next byte boundary, and says whether they were zero. */
    method AlignToByteWithZeroFill() returns (isZero: bool)
      requires Valid()
      modifies this
      ensures Valid() && Held() == old(Held()[buffered % 8..]) && buffered == old(buffered - buffered % 8)
      ensures isZero <==> old(Held()[..buffered % 8]) == seq(old(buffered % 8), _ => false)
    {
      hide Low, High, Raise, Lsb, Pow2;
      var count := buffered % 8;
      if count == 0 {
        return true;
      }
      isZero := Low(buffer, count) == 0;
      LsbParts(buffer, count, buffered - count);
      ValueOfLsb(Low(buffer, count), count);
      NoBits(count);
      QuotientSmall(buffer, count, buffered - count);
      ghost var all := Held();
      if !isZero && all[..count] == seq(count, _ => false) {
        ZeroValue(count);
      }
      buffer := High(buffer, count);
      buffered := buffered - count;
    }
  }

  lemma ZeroValue(n: nat)
    ensures FromLsb(seq(n, _ => false)) == 0
  {
    NoBits(n);
    Pow2Monotone(0, n);
    ValueOfLsb(0, n);
  }
}
