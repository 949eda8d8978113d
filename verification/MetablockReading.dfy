/** The encoder's headers and metablocks (`src/encode/mod.rs`) in front of the decoder (`src/decode/decoder.rs`): read
    from their first bit, they take it from one metablock boundary to the next, with the bytes they stand for. */
module MetablockReading {
  import opened Arithmetic
  import opened Bytes
  import opened BitStream
  import opened BitPacking
  import opened Distances
  import opened MetablockHeaders
  import B = BlockMachine
  import opened DecoderMachine
  import opened DecoderRuns
  import opened DecoderRounds
  import opened Outcomes

  function Onwards(g: Given, d: DecoderState, bits: seq<bool>, x: seq<bool>, room: nat): DecoderStop
    requires Admissible(g.parser) && Sound(d)
  {
    Decode(g, d, bits + x, room)
  }

  /** These bits take the decoder from one state to another, whatever follows to the end of a byte, if there
      is room for what it writes. `offset` bits of the stream came before them. */
  ghost predicate Reads(g: Given, d: DecoderState, offset: nat, bits: seq<bool>, next: DecoderState)
  {
    && Admissible(g.parser) && Sound(d) && Sound(next) && |d.flat| <= |next.flat|
    && forall x: seq<bool>, room: nat ::
         (offset + |bits| + |x|) % 8 == 0 && |next.flat| <= |d.flat| + room ==>
           Onwards(g, d, bits, x, room) == Decode(g, next, x, |d.flat| + room - |next.flat|)
  }

  lemma ReadsBoth(g: Given, d: DecoderState, offset: nat, first: seq<bool>, mid: DecoderState, second: seq<bool>,
                  next: DecoderState)
    requires Reads(g, d, offset, first, mid) && Reads(g, mid, offset + |first|, second, next)
    ensures Reads(g, d, offset, first + second, next)
  {
    hide Decode, Sound, Admissible;
    forall x: seq<bool>, room: nat | (offset + |first + second| + |x|) % 8 == 0 && |next.flat| <= |d.flat| + room
      ensures Onwards(g, d, first + second, x, room) == Decode(g, next, x, |d.flat| + room - |next.flat|)
    {
      assert (first + second) + x == first + (second + x);
      assert |second + x| == |second| + |x|;
      var left := |d.flat| + room - |mid.flat|;
      assert Onwards(g, d, first, second + x, room) == Decode(g, mid, second + x, left);
      assert Onwards(g, mid, second, x, left) == Decode(g, next, x, |mid.flat| + left - |next.flat|);
    }
  }

  /** A step that reads its bits and writes nothing. */
  lemma ReadsStep(g: Given, d: DecoderState, offset: nat, bits: seq<bool>, next: DecoderState)
    requires Admissible(g.parser) && Sound(d) && !d.phase.Finished? && !Aligns(d) && !WaitsForRoom(d) &&
             |bits| == BitsWanted(g, d)
    requires Advance(g, d, bits) == Ok(next) && next.flat == d.flat
    ensures Reads(g, d, offset, bits, next)
  {
    hide Decode, Sound, Admissible, Aligns, WaitsForRoom, BitsWanted, Advance;
    AdvanceKeeps(g, d, bits);
    forall x: seq<bool>, room: nat
      ensures Onwards(g, d, bits, x, room) == Decode(g, next, x, room)
    {
      assert (bits + x)[..|bits|] == bits && (bits + x)[|bits|..] == x;
      DecodeUnfolds(g, d, bits + x, room, next);
    }
  }

  /** A step that drops the rest of the byte, which is zero. */
  lemma ReadsPadding(g: Given, d: DecoderState, offset: nat, next: DecoderState)
    requires Admissible(g.parser) && Sound(d) && !d.phase.Finished? && Aligns(d) && !WaitsForRoom(d)
    requires Advance(g, d, seq(Padding(offset), _ => false)) == Ok(next) && next.flat == d.flat
    ensures Reads(g, d, offset, seq(Padding(offset), _ => false), next)
  {
    hide Decode, Sound, Admissible, Aligns, WaitsForRoom, BitsWanted, Advance;
    var bits := seq(Padding(offset), _ => false);
    AdvanceKeeps(g, d, bits);
    forall x: seq<bool>, room: nat | (offset + |bits| + |x|) % 8 == 0
      ensures Onwards(g, d, bits, x, room) == Decode(g, next, x, room)
    {
      WholeBytesBehind(offset, |x|);
      assert (bits + x)[..|bits|] == bits && (bits + x)[|bits|..] == x;
      DecodeUnfolds(g, d, bits + x, room, next);
    }
  }

  lemma WholeBytesBehind(offset: nat, n: nat)
    requires (offset + Padding(offset) + n) % 8 == 0
    ensures (Padding(offset) + n) % 8 == Padding(offset)
  {
    assert (offset + Padding(offset)) % 8 == 0;
    assert n % 8 == 0;
  }

  /** The decoder between two metablocks. */
  function Between(windowBits: nat, ring: Ring, flat: seq<Byte>): DecoderState
  {
    DecoderState(MetaBlockHeader(Fresh()), windowBits, ring, flat)
  }

  /** One value of a header. */
  lemma ReadsValue(g: Given, d: DecoderState, offset: nat, v: nat, n: nat, next: DecoderState)
    requires Admissible(g.parser) && Sound(d) && (d.phase.MetaBlockHeader? || BeforeWindow(d)) && !Aligns(d)
    requires n == BitsWanted(g, d) && v < Pow2(n)
    requires if d.phase.MetaBlockHeader? then InPhase(d, StepHeader(d.phase.header, v)) == Ok(next)
             else StepWindow(d.phase, d.windowBits, v).Ok? &&
                  var (phase, windowBits) := StepWindow(d.phase, d.windowBits, v).value;
                  next == d.(phase := phase, windowBits := windowBits)
    ensures Reads(g, d, offset, Lsb(v, n), next)
  {
    ValueOfLsb(v, n);
    hide Lsb, Pow2, FromLsb, Sound, Admissible, StepHeader, StepWindow, HeaderBits, Reads;
    ReadsStep(g, d, offset, Lsb(v, n), next);
  }

  /** The window size, from the start of the stream. */
  lemma ReadsWindow(g: Given, windowBits: nat)
    requires Admissible(g.parser) && 10 <= windowBits <= 24
    ensures Reads(g, Initial(), 0, WindowHeader(windowBits), Between(windowBits, InitialRing(), []))
  {
    InitialIsSound();
    hide Sound, Admissible, Reads, Lsb, WindowHeader;
    if windowBits == 16 {
      ReadsDefaultWindow(g);
    } else {
      var upper := Initial().(phase := WindowUpper);
      ReadsWindowFlag(g);
      ReadsSound(g, Initial(), 0, Lsb(1, 1), upper);
      var next := Between(windowBits, InitialRing(), []);
      WindowForm(windowBits);
      if windowBits >= 18 {
        ReadsUpperWindow(g, windowBits);
        ReadsBoth(g, Initial(), 0, Lsb(1, 1), upper, Lsb(windowBits - 17, 3), next);
      } else {
        var v := if windowBits == 17 then 0 else windowBits - 8;
        ReadsLowerWindow(g, windowBits, v);
        ReadsBoth(g, Initial(), 0, Lsb(1, 1), upper, Lsb(0, 3) + Lsb(v, 3), next);
        assert Lsb(1, 1) + (Lsb(0, 3) + Lsb(v, 3)) == Lsb(1, 1) + Lsb(0, 3) + Lsb(v, 3);
      }
    }
  }

  lemma WindowForm(windowBits: nat)
    requires 10 <= windowBits <= 24
    ensures WindowHeader(windowBits) ==
            if windowBits == 16 then Lsb(0, 1)
            else if windowBits >= 18 then Lsb(1, 1) + Lsb(windowBits - 17, 3)
            else Lsb(1, 1) + Lsb(0, 3) + Lsb(if windowBits == 17 then 0 else windowBits - 8, 3)
  {
    hide Lsb;
  }

  lemma ReadsDefaultWindow(g: Given)
    requires Admissible(g.parser) && Sound(Initial())
    ensures Reads(g, Initial(), 0, WindowHeader(16), Between(16, InitialRing(), []))
  {
    assert Pow2(1) == 2;
    hide Sound, Admissible, Reads, Lsb, Pow2;
    ReadsValue(g, Initial(), 0, 0, 1, Between(16, InitialRing(), []));
  }

  lemma ReadsWindowFlag(g: Given)
    requires Admissible(g.parser) && Sound(Initial())
    ensures Reads(g, Initial(), 0, Lsb(1, 1), Initial().(phase := WindowUpper))
  {
    assert Pow2(1) == 2;
    hide Sound, Admissible, Reads, Lsb, Pow2;
    ReadsValue(g, Initial(), 0, 1, 1, Initial().(phase := WindowUpper));
  }

  /** The larger windows, in one more value. */
  lemma ReadsUpperWindow(g: Given, windowBits: nat)
    requires Admissible(g.parser) && Sound(Initial().(phase := WindowUpper)) && 18 <= windowBits <= 24
    ensures Reads(g, Initial().(phase := WindowUpper), 1, Lsb(windowBits - 17, 3),
                  Between(windowBits, InitialRing(), []))
  {
    assert Pow2(3) == 8;
    hide Sound, Admissible, Reads, Lsb, Pow2;
    ReadsValue(g, Initial().(phase := WindowUpper), 1, windowBits - 17, 3, Between(windowBits, InitialRing(), []));
  }

  /** The smaller windows, in two more values. */
  lemma ReadsLowerWindow(g: Given, windowBits: nat, v: nat)
    requires Admissible(g.parser) && Sound(Initial().(phase := WindowUpper))
    requires (v == 0 && windowBits == 17) || (2 <= v <= 7 && windowBits == 8 + v)
    ensures Reads(g, Initial().(phase := WindowUpper), 1, Lsb(0, 3) + Lsb(v, 3), Between(windowBits, InitialRing(), []))
  {
    assert Pow2(3) == 8;
    hide Sound, Admissible, Reads, Lsb, Pow2;
    var upper, lower := Initial().(phase := WindowUpper), Initial().(phase := WindowLower);
    ReadsValue(g, upper, 1, 0, 3, lower);
    ReadsSound(g, upper, 1, Lsb(0, 3), lower);
    ReadsValue(g, lower, 4, v, 3, Between(windowBits, InitialRing(), []));
    ReadsBoth(g, upper, 1, Lsb(0, 3), lower, Lsb(v, 3), Between(windowBits, InitialRing(), []));
  }

  lemma ReadsSound(g: Given, d: DecoderState, offset: nat, bits: seq<bool>, next: DecoderState)
    requires Reads(g, d, offset, bits, next)
    ensures Admissible(g.parser) && Sound(d) && Sound(next)
  {
  }

  /** A header that is some nibbles into its length. */
  function LengthSoFar(isLast: bool, width: nat, index: nat, value: nat): HeaderState
  {
    HeaderState(DataLength, isLast, width, index, value)
  }

  /** What follows the last nibble. */
  function AfterLength(d: DecoderState, isLast: bool, width: nat, value: nat): DecoderState
  {
    d.(phase := if isLast then CompressedTrees(true, value + 1, [])
       else MetaBlockHeader(HeaderState(IsUncompressed, false, width, width, value)))
  }

  /** A length from its low part and the nibbles above it. */
  function Composed(low: nat, high: nat, index: nat): nat
  {
    low + Raise(high, 4 * index)
  }

  /** The nibbles of the length from one of them on: `high` is what is still to be read. */
  lemma {:induction false} ReadsNibbles(g: Given, d: DecoderState, offset: nat, isLast: bool, width: nat, index: nat,
                                        low: nat, high: nat)
    requires Admissible(g.parser) && Sound(d) && d.phase == MetaBlockHeader(LengthSoFar(isLast, width, index, low))
    requires 4 <= width <= 6 && index < width && high < Pow2(4 * (width - index)) &&
             (width > 4 ==> high >= Pow2(4 * (width - index - 1)))
    ensures Reads(g, d, offset, Lsb(high, 4 * (width - index)),
                  AfterLength(d, isLast, width, Composed(low, high, index)))
    decreases width - index
  {
    hide Sound, Admissible, Reads, Lsb, Pow2, Composed;
    var nibble, more := high % 16, high / 16;
    Pow2Of4();
    var last := AfterLength(d, isLast, width, Composed(low, high, index));
    if index + 1 == width {
      LastNibble(width, index, high);
      NibbleRead(d, isLast, width, index, low, high);
      ReadsValue(g, d, offset, high, 4, last);
    } else {
      var value := Composed(low, nibble, index);
      NibbleRead(d, isLast, width, index, low, nibble);
      var next := d.(phase := MetaBlockHeader(LengthSoFar(isLast, width, index + 1, value)));
      ReadsValue(g, d, offset, nibble, 4, next);
      ReadsSound(g, d, offset, Lsb(nibble, 4), next);
      NibbleSplits(high, width - index - 1, width > 4);
      ReadsNibbles(g, next, offset + 4, isLast, width, index + 1, value, more);
      NibbleValue(low, high, index);
      assert AfterLength(next, isLast, width, Composed(value, more, index + 1)) == last;
      ReadsBoth(g, d, offset, Lsb(nibble, 4), next, Lsb(more, 4 * (width - index - 1)), last);
    }
  }

  /** What the decoder does with a nibble. */
  lemma NibbleRead(d: DecoderState, isLast: bool, width: nat, index: nat, low: nat, nibble: nat)
    requires d.phase == MetaBlockHeader(LengthSoFar(isLast, width, index, low))
    requires 4 <= width <= 6 && index < width && (index + 1 == width && width > 4 ==> nibble > 0)
    ensures var value := Composed(low, nibble, index);
            InPhase(d, StepHeader(d.phase.header, nibble)) ==
            Ok(if index + 1 < width then d.(phase := MetaBlockHeader(LengthSoFar(isLast, width, index + 1, value)))
               else AfterLength(d, isLast, width, value))
  {
    hide Pow2;
  }

  lemma Pow2Of4()
    ensures Pow2(4) == 16 && Pow2(0) == 1
  {
    assert Pow2(2) == 4;
  }

  lemma LastNibble(width: nat, index: nat, high: nat)
    requires index + 1 == width && high < Pow2(4 * (width - index)) &&
             (width > 4 ==> high >= Pow2(4 * (width - index - 1)))
    ensures high < Pow2(4) && (width > 4 ==> high > 0)
  {
    assert width - index == 1 && 4 * (width - index - 1) == 0;
    Pow2Of4();
  }

  lemma NibbleSplits(high: nat, nibbles: nat, minimal: bool)
    requires nibbles > 0 && high < Pow2(4 * (nibbles + 1)) && (minimal ==> high >= Pow2(4 * nibbles))
    ensures high / 16 < Pow2(4 * nibbles) && (minimal ==> high / 16 >= Pow2(4 * (nibbles - 1)))
    ensures Lsb(high % 16, 4) + Lsb(high / 16, 4 * nibbles) == Lsb(high, 4 * (nibbles + 1))
  {
    hide Lsb, Pow2;
    Pow2Of4();
    assert 4 * (nibbles + 1) == 4 + 4 * nibbles && 4 * nibbles == 4 + 4 * (nibbles - 1);
    Pow2Add(4, 4 * nibbles);
    Pow2Add(4, 4 * (nibbles - 1));
    LsbSplits(high % 16, high / 16, 4, 4 * nibbles);
  }

  lemma NibbleValue(low: nat, high: nat, index: nat)
    ensures Composed(Composed(low, high % 16, index), high / 16, index + 1) == Composed(low, high, index)
  {
    hide Pow2;
    Pow2Of4();
    assert 4 * (index + 1) == 4 * index + 4;
    Pow2Add(4 * index, 4);
    Regroup(high / 16, high % 16, Pow2(4 * index));
    assert high == 16 * (high / 16) + high % 16;
  }

  lemma Regroup(a: nat, b: nat, p: nat)
    ensures b * p + a * (p * 16) == (16 * a + b) * p
  {
  }

  /** As many nibbles as the length needs. */
  lemma NibblesFit(length: nat)
    requires 0 < length <= MAX_META_BLOCK_SIZE
    ensures var w := NibblesFor(length);
            4 <= w <= 6 && length - 1 < Pow2(4 * w) && (w > 4 ==> length - 1 >= Pow2(4 * (w - 1)))
  {
    Pow2Of24();
    assert Pow2(8) == 256 by { Pow2Of8(); }
    hide Pow2;
    Pow2Add(8, 8);
    Pow2Add(16, 4);
    Pow2Of4();
    assert 4 * 4 == 16 && 4 * 5 == 20 && 4 * 6 == 24;
  }

  function LastFlags(isLast: bool): seq<bool>
  {
    if isLast then Lsb(1, 1) + Lsb(0, 1) else Lsb(0, 1)
  }

  /** Whether the metablock is the last; not an empty one. */
  lemma ReadsFlags(g: Given, windowBits: nat, ring: Ring, flat: seq<Byte>, offset: nat, isLast: bool)
    requires Admissible(g.parser) && Sound(Between(windowBits, ring, flat))
    ensures Reads(g, Between(windowBits, ring, flat), offset, LastFlags(isLast),
                  DecoderState(MetaBlockHeader(HeaderState(Nibbles, isLast, 0, 0, 0)), windowBits, ring, flat))
  {
    assert Pow2(1) == 2;
    hide Sound, Admissible, Reads, Lsb, Pow2;
    var d := Between(windowBits, ring, flat);
    var nibbles := d.(phase := MetaBlockHeader(HeaderState(Nibbles, isLast, 0, 0, 0)));
    if isLast {
      var empty := d.(phase := MetaBlockHeader(HeaderState(IsLastEmpty, true, 0, 0, 0)));
      ReadsValue(g, d, offset, 1, 1, empty);
      ReadsSound(g, d, offset, Lsb(1, 1), empty);
      ReadsValue(g, empty, offset + 1, 0, 1, nibbles);
      ReadsBoth(g, d, offset, Lsb(1, 1), empty, Lsb(0, 1), nibbles);
    } else {
      ReadsValue(g, d, offset, 0, 1, nibbles);
    }
  }

  lemma ReadsWidth(g: Given, windowBits: nat, ring: Ring, flat: seq<Byte>, offset: nat, isLast: bool, width: nat)
    requires var d := DecoderState(MetaBlockHeader(HeaderState(Nibbles, isLast, 0, 0, 0)), windowBits, ring, flat);
             Admissible(g.parser) && Sound(d) && 4 <= width <= 6
    ensures Reads(g, DecoderState(MetaBlockHeader(HeaderState(Nibbles, isLast, 0, 0, 0)), windowBits, ring, flat),
                  offset, Lsb(width - 4, 2),
                  DecoderState(MetaBlockHeader(LengthSoFar(isLast, width, 0, 0)), windowBits, ring, flat))
  {
    assert Pow2(2) == 4;
    hide Sound, Admissible, Reads, Lsb, Pow2;
    ReadsValue(g, DecoderState(MetaBlockHeader(HeaderState(Nibbles, isLast, 0, 0, 0)), windowBits, ring, flat), offset,
               width - 4, 2,
               DecoderState(MetaBlockHeader(LengthSoFar(isLast, width, 0, 0)), windowBits, ring, flat));
  }

  /** The header up to the length. */
  lemma ReadsLength(g: Given, windowBits: nat, ring: Ring, flat: seq<Byte>, offset: nat, length: nat, isLast: bool)
    requires Admissible(g.parser) && Sound(Between(windowBits, ring, flat)) && 0 < length <= MAX_META_BLOCK_SIZE
    ensures var d := Between(windowBits, ring, flat);
            var w := NibblesFor(length);
            Reads(g, d, offset, LastFlags(isLast) + Lsb(w - 4, 2) + Lsb(length - 1, 4 * w),
                  AfterLength(d, isLast, w, length - 1))
  {
    hide *;
    var d, w := Between(windowBits, ring, flat), NibblesFor(length);
    NibblesFit(length);
    var nibbles := DecoderState(MetaBlockHeader(HeaderState(Nibbles, isLast, 0, 0, 0)), windowBits, ring, flat);
    var start := DecoderState(MetaBlockHeader(LengthSoFar(isLast, w, 0, 0)), windowBits, ring, flat);
    var flags, width, rest := LastFlags(isLast), Lsb(w - 4, 2), Lsb(length - 1, 4 * w);
    ReadsFlags(g, windowBits, ring, flat, offset, isLast);
    ReadsSound(g, d, offset, flags, nibbles);
    ReadsWidth(g, windowBits, ring, flat, offset + |flags|, isLast, w);
    ReadsBoth(g, d, offset, flags, nibbles, width, start);
    ReadsSound(g, d, offset, flags + width, start);
    StartOfLength(windowBits, ring, flat, isLast, w, length - 1);
    ReadsNibbles(g, start, offset + |flags + width|, isLast, w, 0, 0, length - 1);
    ReadsBoth(g, d, offset, flags + width, start, rest, AfterLength(d, isLast, w, length - 1));
  }

  lemma StartOfLength(windowBits: nat, ring: Ring, flat: seq<Byte>, isLast: bool, width: nat, value: nat)
    ensures var start := DecoderState(MetaBlockHeader(LengthSoFar(isLast, width, 0, 0)), windowBits, ring, flat);
            && start.phase == MetaBlockHeader(LengthSoFar(isLast, width, 0, 0)) && Composed(0, value, 0) == value
            && AfterLength(start, isLast, width, value) == AfterLength(Between(windowBits, ring, flat), isLast, width,
                                                                       value)
  {
    assert Pow2(0) == 1;
    hide Pow2;
  }

  /** The header of a compressed metablock. */
  lemma ReadsCompressedHeader(g: Given, windowBits: nat, ring: Ring, flat: seq<Byte>, offset: nat, length: nat,
                              isLast: bool)
    requires Admissible(g.parser) && Sound(Between(windowBits, ring, flat)) && 0 < length <= MAX_META_BLOCK_SIZE
    ensures Reads(g, Between(windowBits, ring, flat), offset, CompressedHeader(length, isLast),
                  DecoderState(CompressedTrees(isLast, length, []), windowBits, ring, flat))
  {
    hide *;
    CompressedForms(windowBits, ring, flat, length, isLast);
    var d, w := Between(windowBits, ring, flat), NibblesFor(length);
    ReadsLength(g, windowBits, ring, flat, offset, length, isLast);
    var before := LastFlags(isLast) + Lsb(w - 4, 2) + Lsb(length - 1, 4 * w);
    var next := DecoderState(CompressedTrees(isLast, length, []), windowBits, ring, flat);
    var mid := AfterLength(d, isLast, w, length - 1);
    if !isLast {
      ReadsSound(g, d, offset, before, mid);
      ReadsIsCompressed(g, windowBits, ring, flat, offset + |before|, length, w);
      ReadsBoth(g, d, offset, before, mid, Lsb(0, 1), next);
    }
  }

  lemma CompressedForms(windowBits: nat, ring: Ring, flat: seq<Byte>, length: nat, isLast: bool)
    requires 0 < length <= MAX_META_BLOCK_SIZE
    ensures NibblesFor(length) >= 4
    ensures var w := NibblesFor(length);
            var before := LastFlags(isLast) + Lsb(w - 4, 2) + Lsb(length - 1, 4 * w);
            CompressedHeader(length, isLast) == if isLast then before else before + Lsb(0, 1)
    ensures isLast ==>
              AfterLength(Between(windowBits, ring, flat), isLast, NibblesFor(length), length - 1) ==
              DecoderState(CompressedTrees(isLast, length, []), windowBits, ring, flat)
  {
    hide Lsb;
    if isLast {
      var w := NibblesFor(length);
      var before := LastFlags(isLast) + Lsb(w - 4, 2) + Lsb(length - 1, 4 * w);
      assert before + [] == before;
    }
  }

  /** The flag behind the length. */
  lemma ReadsIsCompressed(g: Given, windowBits: nat, ring: Ring, flat: seq<Byte>, offset: nat, length: nat, width: nat)
    requires length > 0
    requires var d := AfterLength(Between(windowBits, ring, flat), false, width, length - 1);
             Admissible(g.parser) && Sound(d)
    ensures Reads(g, AfterLength(Between(windowBits, ring, flat), false, width, length - 1), offset, Lsb(0, 1),
                  DecoderState(CompressedTrees(false, length, []), windowBits, ring, flat))
  {
    assert Pow2(1) == 2;
    hide Sound, Admissible, Reads, Lsb, Pow2;
    ReadsValue(g, AfterLength(Between(windowBits, ring, flat), false, width, length - 1), offset, 0, 1,
               DecoderState(CompressedTrees(false, length, []), windowBits, ring, flat));
  }

  /** The header of a stored metablock. */
  lemma ReadsStoredHeader(g: Given, windowBits: nat, ring: Ring, flat: seq<Byte>, offset: nat, length: nat)
    requires Admissible(g.parser) && Sound(Between(windowBits, ring, flat)) && 0 < length <= MAX_META_BLOCK_SIZE
    ensures var w := NibblesFor(length);
            Reads(g, Between(windowBits, ring, flat), offset, StoredHeader(length),
                  DecoderState(MetaBlockHeader(HeaderState(UncompressedAlignment, false, w, w, length - 1)), windowBits,
                               ring, flat))
  {
    assert Pow2(1) == 2;
    hide Sound, Admissible, Reads, Lsb, Pow2;
    var d, w := Between(windowBits, ring, flat), NibblesFor(length);
    ReadsLength(g, windowBits, ring, flat, offset, length, false);
    var before := Lsb(0, 1) + Lsb(w - 4, 2) + Lsb(length - 1, 4 * w);
    var mid := AfterLength(d, false, w, length - 1);
    ReadsSound(g, d, offset, before, mid);
    var raw := d.(phase := MetaBlockHeader(HeaderState(UncompressedAlignment, false, w, w, length - 1)));
    ReadsValue(g, mid, offset + |before|, 1, 1, raw);
    ReadsBoth(g, d, offset, before, mid, Lsb(1, 1), raw);
  }

  /** What a stored metablock adds to what has been written. */
  function StoredForm(offset: nat, bytes: seq<Byte>): seq<bool>
    requires 0 < |bytes| <= MAX_META_BLOCK_SIZE
  {
    StoredHeader(|bytes|) + seq(Padding(offset + |StoredHeader(|bytes|)|), _ => false) + BitsOf(bytes)
  }

  lemma StoredIsForm(written: seq<bool>, bytes: seq<Byte>)
    requires 0 < |bytes| <= MAX_META_BLOCK_SIZE
    ensures WithStored(written, bytes) == written + StoredForm(|written|, bytes)
  {
    hide StoredHeader, BitsOf, Padding;
    var header := StoredHeader(|bytes|);
    var padding := seq(Padding(|written| + |header|), _ => false);
    assert |written + header| == |written| + |header|;
    assert written + header + padding + BitsOf(bytes) == written + (header + padding + BitsOf(bytes));
  }

  /** A stored metablock: header, padding, bytes. */
  lemma ReadsStored(g: Given, windowBits: nat, ring: Ring, flat: seq<Byte>, offset: nat, bytes: seq<Byte>)
    requires Admissible(g.parser) && Sound(Between(windowBits, ring, flat)) && 0 < |bytes| <= MAX_META_BLOCK_SIZE
    ensures Reads(g, Between(windowBits, ring, flat), offset, StoredForm(offset, bytes),
                  Between(windowBits, ring, flat + bytes))
  {
    hide Sound, Admissible, Reads, StoredHeader, BitsOf, Padding;
    var d, w, length := Between(windowBits, ring, flat), NibblesFor(|bytes|), |bytes|;
    var header := StoredHeader(length);
    var padding := seq(Padding(offset + |header|), _ => false);
    ReadsStoredHeader(g, windowBits, ring, flat, offset, length);
    var raw := d.(phase := MetaBlockHeader(HeaderState(UncompressedAlignment, false, w, w, length - 1)));
    ReadsSound(g, d, offset, header, raw);
    var start := d.(phase := Uncompressed(length));
    AlignsToBytes(g, raw, Padding(offset + |header|));
    ReadsPadding(g, raw, offset + |header|, start);
    ReadsBoth(g, d, offset, header, raw, padding, start);
    ReadsSound(g, d, offset, header + padding, start);
    ReadsRaw(g, start, offset + |header + padding|, bytes);
    ReadsBoth(g, d, offset, header + padding, start, BitsOf(bytes), Between(windowBits, ring, flat + bytes));
  }

  lemma AlignsToBytes(g: Given, d: DecoderState, n: nat)
    requires d.phase.MetaBlockHeader? && d.phase.header.phase.UncompressedAlignment?
    ensures Aligns(d) && !WaitsForRoom(d) && Advance(g, d, seq(n, _ => false)) ==
            Ok(d.(phase := Uncompressed(d.phase.header.value + 1)))
  {
  }

  /** All of the raw bytes, and back to the next header. */
  lemma ReadsRaw(g: Given, d: DecoderState, offset: nat, bytes: seq<Byte>)
    requires Admissible(g.parser) && Sound(d) && d.phase == Uncompressed(|bytes|)
    ensures Reads(g, d, offset, BitsOf(bytes), Between(d.windowBits, d.ring, d.flat + bytes))
  {
    hide Decode, Sound, Admissible, BitsOf, Advance, Aligns, WaitsForRoom, BitsWanted;
    var mid := d.(flat := d.flat + bytes, phase := Uncompressed(0));
    RawRun(g, d, bytes, [], |bytes|);
    assert |mid.flat| == |d.flat| + |bytes|;
    forall x: seq<bool>, room: nat | |mid.flat| <= |d.flat| + room
      ensures Onwards(g, d, BitsOf(bytes), x, room) == Decode(g, mid, x, |d.flat| + room - |mid.flat|)
    {
      RawRun(g, d, bytes, x, room);
    }
    var next := Between(d.windowBits, d.ring, d.flat + bytes);
    NoRawLeft(g, mid);
    ReadsStep(g, mid, offset + |BitsOf(bytes)|, [], next);
    ReadsBoth(g, d, offset, BitsOf(bytes), mid, [], next);
    assert BitsOf(bytes) + [] == BitsOf(bytes);
  }

  lemma NoRawLeft(g: Given, d: DecoderState)
    requires d.phase == Uncompressed(0)
    ensures !Aligns(d) && !WaitsForRoom(d) && BitsWanted(g, d) == 0 &&
            Advance(g, d, []) == Ok(Between(d.windowBits, d.ring, d.flat))
  {
  }

  /** The empty metablock that ends a stream, and zeros to the end of the byte. */
  lemma ReadsEnd(g: Given, windowBits: nat, ring: Ring, flat: seq<Byte>, offset: nat)
    requires Admissible(g.parser) && Sound(Between(windowBits, ring, flat))
    ensures Reads(g, Between(windowBits, ring, flat), offset, FinalEmpty() + seq(Padding(offset + 2), _ => false),
                  DecoderState(DecoderPhase.Finished, windowBits, ring, flat))
  {
    var d := Between(windowBits, ring, flat);
    assert Pow2(1) == 2;
    hide Sound, Admissible, Reads, Lsb, Pow2;
    var empty := d.(phase := MetaBlockHeader(HeaderState(IsLastEmpty, true, 0, 0, 0)));
    var end := d.(phase := MetaBlockHeader(HeaderState(EndAlignment, true, 0, 0, 0)));
    var next := DecoderState(DecoderPhase.Finished, windowBits, ring, flat);
    ReadsValue(g, d, offset, 1, 1, empty);
    ReadsSound(g, d, offset, Lsb(1, 1), empty);
    ReadsValue(g, empty, offset + 1, 1, 1, end);
    ReadsBoth(g, d, offset, Lsb(1, 1), empty, Lsb(1, 1), end);
    ReadsSound(g, d, offset, FinalEmpty(), end);
    ReadsPadding(g, end, offset + 2, next);
    ReadsBoth(g, d, offset, FinalEmpty(), end, seq(Padding(offset + 2), _ => false), next);
  }

  /** The parser, from what it has seen, reads these bits and no others, and comes to the trees. */
  ghost predicate Parses(parser: Parser, seen: seq<bool>, bits: seq<bool>, trees: Trees)
    decreases |bits|
  {
    match parser(seen)
    case More(n) => 0 < n <= |bits| && Parses(parser, seen + bits[..n], bits[n..], trees)
    case Parsed(t) => bits == [] && t == trees
    case Rejected(_) => false
  }

  /** Header and trees of a compressed metablock. */
  lemma {:induction false} ReadsTrees(g: Given, d: DecoderState, offset: nat, isLast: bool, length: nat,
                                      seen: seq<bool>, bits: seq<bool>,
                                      trees: Trees)
    requires Admissible(g.parser) && Sound(d) && d.phase == CompressedTrees(isLast, length, seen) &&
             Parses(g.parser, seen, bits, trees)
    ensures Reads(g, d, offset, bits, AtCommands(g, d, isLast, length, trees))
    decreases |bits|
  {
    hide Sound, Reads;
    match g.parser(seen) {
      case More(n) =>
        var next := d.(phase := CompressedTrees(isLast, length, seen + bits[..n]));
        ReadsStep(g, d, offset, bits[..n], next);
        ReadsSound(g, d, offset, bits[..n], next);
        ReadsTrees(g, next, offset + n, isLast, length, seen + bits[..n], bits[n..], trees);
        ReadsBoth(g, d, offset, bits[..n], next, bits[n..], AtCommands(g, d, isLast, length, trees));
        assert bits[..n] + bits[n..] == bits;
      case _ =>
        ReadsStep(g, d, offset, [], AtCommands(g, d, isLast, length, trees));
    }
  }

  function CodesOf(g: Given, windowBits: nat, trees: Trees): B.Header
  {
    trees.header.(windowSize := WindowSize(windowBits), words := g.words)
  }

  /** The decoder in front of the commands of a metablock. */
  function AtCommands(g: Given, d: DecoderState, isLast: bool, length: nat, trees: Trees): DecoderState
  {
    d.(phase := CompressedData(isLast, CodesOf(g, d.windowBits, trees), Started(trees, length, d.ring, d.flat)))
  }
}
