/** The decoder as a machine (`src/decode/decoder.rs`, `stream_header.rs`, `metablock_header.rs`), one read or one byte
    at a time. Its input is the bits not read yet; as input comes in whole bytes, how many of them lie before the next
    byte boundary is always known. The parser of a compressed metablock's header and trees is given. */
module DecoderMachine {
  import opened Arithmetic
  import opened Bytes
  import opened BitStream
  import opened BitPacking
  import opened Dictionary
  import opened Distances
  import opened HistoryRing
  import opened MetablockHeaders
  import opened BlockStates
  import B = BlockMachine
  import opened Outcomes

  /** What the header and the trees of a compressed metablock come to. */
  datatype Trees = Trees(header: B.Header, literals: BlockState, commands: BlockState, distances: BlockState)

  datatype Asked = More(count: nat) | Parsed(trees: Trees) | Rejected(error: nat)

  /** A resumable parser: what it does next, by the bits it has read so far. */
  type Parser = seq<bool> -> Asked

  /** It reads some bits at a time, few enough for the reader, and sets at most as many direct codes as there are. */
  ghost predicate Admissible(parser: Parser)
  {
    forall seen :: match parser(seen)
      case More(n) => 0 < n <= MAX_READ_BITS
      case Parsed(trees) => trees.header.directCodes <= 120
      case Rejected(_) => true
  }

  /** The parser and the dictionary. */
  datatype Given = Given(parser: Parser, words: Words)

  datatype HeaderPhase =
    | IsLast | IsLastEmpty | Nibbles | DataLength | IsUncompressed | UncompressedAlignment
    | MetadataReserved | MetadataLengthWidth | MetadataLength | MetadataAlignment | EndAlignment

  /** A metablock header that has been read in part. */
  datatype HeaderState = HeaderState(phase: HeaderPhase, isLast: bool, width: nat, index: nat, value: nat)

  datatype DecoderPhase =
    | WindowFirst | WindowUpper | WindowLower
    | MetaBlockHeader(header: HeaderState)
    | CompressedTrees(isLast: bool, length: nat, seen: seq<bool>)
    | CompressedData(isLast: bool, codes: B.Header, block: B.State)
    | Uncompressed(remaining: nat)
    | Metadata(remaining: nat, isLast: bool)
    | Finished

  datatype DecoderState = DecoderState(phase: DecoderPhase, windowBits: nat, ring: Ring, flat: seq<Byte>)

  datatype DecodeError =
    | InvalidWindowBits | PaddingNotZero | ReservedBitSet | LengthNotMinimal | NonZeroFinalPadding
    | BadTrees(code: nat) | BadData(error: B.Error)

  function Fresh(): HeaderState
  {
    HeaderState(IsLast, false, 0, 0, 0)
  }

  function Initial(): DecoderState
  {
    DecoderState(WindowFirst, 10, InitialRing(), [])
  }

  function WindowSize(windowBits: nat): nat
  {
    if Pow2(windowBits) < WINDOW_GAP then 0 else Pow2(windowBits) - WINDOW_GAP
  }

  /** Everything written so far. */
  function Output(d: DecoderState): seq<Byte>
  {
    d.flat
  }

  function HeaderBits(h: HeaderState): nat
  {
    match h.phase
    case IsLast => 1
    case IsLastEmpty => 1
    case Nibbles => 2
    case DataLength => 4
    case IsUncompressed => 1
    case MetadataReserved => 1
    case MetadataLengthWidth => 2
    case MetadataLength => 8
    case _ => 0
  }

  /** How many bits the next step reads. */
  function BitsWanted(g: Given, d: DecoderState): nat
  {
    match d.phase
    case WindowFirst => 1
    case WindowUpper => 3
    case WindowLower => 3
    case MetaBlockHeader(h) => HeaderBits(h)
    case CompressedTrees(_, _, seen) => (match g.parser(seen) case More(n) => n case _ => 0)
    case CompressedData(_, h, s) => if s.phase.Finished? then 0 else B.BitsNeeded(h, s)
    case Uncompressed(remaining) => if remaining == 0 then 0 else 8
    case Metadata(remaining, _) => if remaining == 0 then 0 else 8
    case Finished => 0
  }

  /** The next step drops what is left of the current byte. */
  predicate Aligns(d: DecoderState)
  {
    match d.phase
    case MetaBlockHeader(h) => AlignsHeader(h)
    case CompressedData(isLast, _, s) => isLast && s.phase.Finished?
    case _ => false
  }

  function Taken(g: Given, d: DecoderState, available: nat): nat
  {
    if Aligns(d) then available % 8 else BitsWanted(g, d)
  }

  /** The next step may write a byte. */
  predicate WaitsForRoom(d: DecoderState)
  {
    match d.phase
    case CompressedData(_, _, s) => !s.phase.Finished? && B.NeedsRoom(s)
    case Uncompressed(remaining) => remaining > 0
    case _ => false
  }

  predicate AllZero(bits: seq<bool>)
  {
    forall i :: 0 <= i < |bits| ==> !bits[i]
  }

  /** What follows a value read of the stream header: the next phase, and the window size if it is known. */
  function StepWindow(phase: DecoderPhase, windowBits: nat, v: nat): Result<(DecoderPhase, nat), DecodeError>
  {
    match phase
    case WindowFirst => Ok(if v == 0 then (MetaBlockHeader(Fresh()), 16) else (WindowUpper, windowBits))
    case WindowUpper => Ok(if 0 < v <= 7 then (MetaBlockHeader(Fresh()), 17 + v) else (WindowLower, windowBits))
    case _ =>
      if v == 0 then Ok((MetaBlockHeader(Fresh()), 17))
      else if 2 <= v <= 7 then Ok((MetaBlockHeader(Fresh()), 8 + v))
      else Err(InvalidWindowBits)
  }

  /** What follows a value read of a metablock header. */
  function StepHeader(h: HeaderState, v: nat): Result<DecoderPhase, DecodeError>
  {
    match h.phase
    case IsLast => Ok(MetaBlockHeader(h.(isLast := v != 0, phase := if v != 0 then IsLastEmpty else Nibbles)))
    case IsLastEmpty => Ok(MetaBlockHeader(h.(phase := if v != 0 then EndAlignment else Nibbles)))
    case Nibbles =>
      if v >= 3 then Ok(MetaBlockHeader(h.(phase := MetadataReserved, index := 0, value := 0)))
      else Ok(MetaBlockHeader(h.(phase := DataLength, width := v + 4, index := 0, value := 0)))
    case DataLength => StepDataLength(h, v)
    case IsUncompressed =>
      Ok(if v == 0 then CompressedTrees(h.isLast, h.value + 1, [])
         else MetaBlockHeader(h.(phase := UncompressedAlignment)))
    case MetadataReserved => if v != 0 then Err(ReservedBitSet)
        else Ok(MetaBlockHeader(h.(phase := MetadataLengthWidth)))
    case MetadataLengthWidth =>
      Ok(MetaBlockHeader(h.(width := v, index := 0, value := 0, phase := if v == 0 then MetadataAlignment
                            else MetadataLength)))
    case _ => StepMetadataLength(h, v)
  }

  /** A nibble of the length; a last one that is not needed must not be there. */
  function StepDataLength(h: HeaderState, nibble: nat): Result<DecoderPhase, DecodeError>
  {
    if h.index + 1 == h.width && h.width > 4 && nibble == 0 then Err(LengthNotMinimal)
    else
      var value := h.value + nibble * Pow2(4 * h.index);
      if h.index + 1 < h.width then Ok(MetaBlockHeader(h.(index := h.index + 1, value := value)))
      else if h.isLast then Ok(CompressedTrees(true, value + 1, []))
      else Ok(MetaBlockHeader(h.(index := h.index + 1, value := value, phase := IsUncompressed)))
  }

  /** A byte of the length of metadata. */
  function StepMetadataLength(h: HeaderState, byte: nat): Result<DecoderPhase, DecodeError>
  {
    if h.index + 1 == h.width && h.width > 1 && byte == 0 then Err(LengthNotMinimal)
    else
      var value := h.value + byte * Pow2(8 * h.index);
      if h.index + 1 < h.width then Ok(MetaBlockHeader(h.(index := h.index + 1, value := value)))
      else Ok(MetaBlockHeader(h.(index := h.index + 1, value := value + 1, phase := MetadataAlignment)))
  }

  /** The rest of the byte must be zero before raw bytes and at the end. */
  function StepAlign(h: HeaderState, isZero: bool): Result<DecoderPhase, DecodeError>
  {
    if !isZero then Err(PaddingNotZero)
    else Ok(
      match h.phase
      case UncompressedAlignment => Uncompressed(h.value + 1)
      case MetadataAlignment => Metadata(h.value, h.isLast)
      case _ => Finished)
  }

  predicate AlignsHeader(h: HeaderState)
  {
    h.phase.UncompressedAlignment? || h.phase.MetadataAlignment? || h.phase.EndAlignment?
  }

  function InPhase(d: DecoderState, phase: Result<DecoderPhase, DecodeError>): Result<DecoderState, DecodeError>
  {
    match phase
    case Ok(p) => Ok(d.(phase := p))
    case Err(e) => Err(e)
  }

  /** The machine of the metablock at its start. */
  function Started(trees: Trees, length: nat, ring: Ring, flat: seq<Byte>): B.State
  {
    B.State(trees.literals, trees.commands, trees.distances, NoSearch(), NoSearch(), NoSearch(), length, B.Command,
            ring, flat)
  }

  function StepTrees(g: Given, d: DecoderState, isLast: bool, length: nat, seen: seq<bool>,
                     bits: seq<bool>): Result<DecoderState, DecodeError>
  {
    match g.parser(seen)
    case More(_) => Ok(d.(phase := CompressedTrees(isLast, length, seen + bits)))
    case Rejected(e) => Err(BadTrees(e))
    case Parsed(trees) =>
      var codes := trees.header.(windowSize := WindowSize(d.windowBits), words := g.words);
      Ok(d.(phase := CompressedData(isLast, codes, Started(trees, length, d.ring, d.flat))))
  }

  function StepData(d: DecoderState, isLast: bool, codes: B.Header, s: B.State,
                    bits: seq<bool>): Result<DecoderState, DecodeError>
    requires s.phase.Finished? || |bits| == B.BitsNeeded(codes, s)
  {
    if s.phase.Finished? then
      if !isLast then Ok(d.(phase := MetaBlockHeader(Fresh())))
      else if AllZero(bits) then Ok(d.(phase := Finished)) else Err(NonZeroFinalPadding)
    else
      match B.Step(codes, s, bits)
      case Ok(t) => Ok(d.(phase := CompressedData(isLast, codes, t), ring := t.ring, flat := t.flat))
      case Err(e) => Err(BadData(e))
  }

  /** One step on the bits it takes. */
  function Advance(g: Given, d: DecoderState, bits: seq<bool>): Result<DecoderState, DecodeError>
    requires !d.phase.Finished? && (Aligns(d) || |bits| == BitsWanted(g, d))
  {
    match d.phase
    case MetaBlockHeader(h) => InPhase(d, if AlignsHeader(h) then StepAlign(h, AllZero(bits))
                                       else StepHeader(h, FromLsb(bits)))
    case CompressedTrees(isLast, length, seen) => StepTrees(g, d, isLast, length, seen, bits)
    case CompressedData(isLast, codes, s) => StepData(d, isLast, codes, s, bits)
    case Uncompressed(remaining) =>
      if remaining == 0 then Ok(d.(phase := MetaBlockHeader(Fresh())))
      else
        RawByte(bits);
        Ok(d.(flat := d.flat + [FromLsb(bits)], phase := Uncompressed(remaining - 1)))
    case Metadata(remaining, isLast) =>
      if remaining == 0 then Ok(d.(phase := if isLast then Finished else MetaBlockHeader(Fresh())))
      else Ok(d.(phase := Metadata(remaining - 1, isLast)))
    case _ =>
      match StepWindow(d.phase, d.windowBits, FromLsb(bits))
      case Ok((phase, windowBits)) => Ok(d.(phase := phase, windowBits := windowBits))
      case Err(e) => Err(e)
  }

  lemma RawByte(bits: seq<bool>)
    requires |bits| == 8
    ensures FromLsb(bits) < 256
  {
    Pow2Of8();
  }

  predicate BeforeWindow(d: DecoderState)
  {
    d.phase.WindowFirst? || d.phase.WindowUpper? || d.phase.WindowLower?
  }

  /** What every step keeps: the ring is one the next metablock can start with. */
  predicate Sound(d: DecoderState)
  {
    && 10 <= d.windowBits <= 24 && (BeforeWindow(d) ==> d.flat == [])
    && match d.phase
       case CompressedData(_, codes, s) =>
         B.Sane(codes, s) && codes.windowSize == WindowSize(d.windowBits) && s.ring == d.ring && s.flat == d.flat
       case _ => SoundRing(d.ring, d.flat, d.windowBits)
  }

  predicate SoundRing(ring: Ring, flat: seq<Byte>, windowBits: nat)
  {
    ring.Positive() && ring.UpTo(if Min(|flat|, WindowSize(windowBits)) < 16 then 16
                                 else Min(|flat|, WindowSize(windowBits)))
  }

  lemma WindowIsLarge(windowBits: nat)
    requires 10 <= windowBits <= 24
    ensures WindowSize(windowBits) >= 1008 && WindowSize(windowBits) == Pow2(windowBits) - WINDOW_GAP
  {
    RingIsLarge(windowBits);
  }

  lemma InitialIsSound()
    ensures Sound(Initial())
  {
  }

  /** Steps left that may take no bits, as far as the phase tells. */
  function Ahead(d: DecoderState): nat
  {
    match d.phase
    case MetaBlockHeader(h) => if Aligns(d) then 2 else 0
    case CompressedTrees(_, length, _) => length + 2
    case CompressedData(_, _, s) => s.remaining + 1
    case Uncompressed(_) => 1
    case Metadata(_, _) => 1
    case _ => 0
  }

  function DecoderRank(d: DecoderState): nat
  {
    match d.phase
    case CompressedData(_, codes, s) => B.Rank(codes, s)
    case _ => 0
  }

  predicate Closer(d: DecoderState, taken: nat, next: DecoderState)
  {
    taken > 0 || Ahead(next) < Ahead(d) || (Ahead(next) == Ahead(d) && DecoderRank(next) < DecoderRank(d))
  }

  /** A step keeps the decoder sound, and takes bits or comes closer to its end. */
  lemma AdvanceKeeps(g: Given, d: DecoderState, bits: seq<bool>)
    requires Admissible(g.parser) && Sound(d) && !d.phase.Finished? && (Aligns(d) || |bits| == BitsWanted(g, d))
    requires Advance(g, d, bits).Ok?
    ensures var next := Advance(g, d, bits).value; Sound(next) && Closer(d, |bits|, next)
  {
    var next := Advance(g, d, bits).value;
    match d.phase {
      case CompressedData(isLast, codes, s) =>
        DataKeeps(d, isLast, codes, s, bits);
      case CompressedTrees(isLast, length, seen) =>
        TreesKeep(g, d, isLast, length, seen, bits);
      case Uncompressed(remaining) =>
        hide Pow2, FromLsb;
      case MetaBlockHeader(h) =>
        HeaderKeeps(g, d, h, bits);
      case Metadata(remaining, isLast) =>
        hide SoundRing;
      case _ =>
        WindowKeeps(g, d, bits);
    }
  }

  lemma WindowKeeps(g: Given, d: DecoderState, bits: seq<bool>)
    requires Sound(d) && BeforeWindow(d) && |bits| == BitsWanted(g, d) && Advance(g, d, bits).Ok?
    ensures var next := Advance(g, d, bits).value; Sound(next) && Closer(d, |bits|, next)
  {
    hide Pow2, FromLsb;
  }

  lemma HeaderKeeps(g: Given, d: DecoderState, h: HeaderState, bits: seq<bool>)
    requires Sound(d) && d.phase == MetaBlockHeader(h) && (Aligns(d) || |bits| == HeaderBits(h)) &&
             Advance(g, d, bits).Ok?
    ensures var next := Advance(g, d, bits).value; Sound(next) && Closer(d, |bits|, next)
  {
    hide Pow2, FromLsb, SoundRing, AllZero;
  }

  lemma TreesKeep(g: Given, d: DecoderState, isLast: bool, length: nat, seen: seq<bool>, bits: seq<bool>)
    requires Admissible(g.parser) && Sound(d) && d.phase == CompressedTrees(isLast, length, seen) &&
             |bits| == BitsWanted(g, d)
    requires StepTrees(g, d, isLast, length, seen, bits).Ok?
    ensures var next := StepTrees(g, d, isLast, length, seen, bits).value; Sound(next) && Closer(d, |bits|, next)
  {
    WindowIsLarge(d.windowBits);
    hide WindowSize;
    match g.parser(seen) {
      case Parsed(trees) =>
      case _ =>
    }
  }

  lemma DataKeeps(d: DecoderState, isLast: bool, codes: B.Header, s: B.State, bits: seq<bool>)
    requires Sound(d) && d.phase == CompressedData(isLast, codes, s) &&
             (s.phase.Finished? || |bits| == B.BitsNeeded(codes, s))
    requires StepData(d, isLast, codes, s, bits).Ok?
    ensures var next := StepData(d, isLast, codes, s, bits).value; Sound(next) && Closer(d, |bits|, next)
  {
    hide B.BitsNeeded, B.Step, B.SanePhase, B.Rank, AllZero, WindowSize;
    if !s.phase.Finished? {
      var t := B.StepKeeps(codes, s, bits);
    }
  }

  /** The bytes the current metablock has still to put out, as far as is known. */
  function Owed(d: DecoderState): nat
  {
    match d.phase
    case CompressedData(_, _, s) => if s.phase.Finished? then 0 else s.remaining
    case Uncompressed(remaining) => remaining
    case _ => 0
  }

  /** Every byte written is one that was owed. */
  lemma AdvanceOwes(g: Given, d: DecoderState, bits: seq<bool>)
    requires Sound(d) && !d.phase.Finished? && (Aligns(d) || |bits| == BitsWanted(g, d)) && Advance(g, d, bits).Ok?
    ensures var next := Advance(g, d, bits).value; |Output(next)| + Owed(next) >= |Output(d)| + Owed(d)
  {
    match d.phase {
      case CompressedData(isLast, codes, s) =>
        hide B.BitsNeeded, B.Step, B.Sane, AllZero, B.NeedsRoom;
        if !s.phase.Finished? {
          B.StepCountsDown(codes, s, bits);
        }
      case _ =>
        hide Pow2, AllZero, StepHeader, StepAlign, StepWindow;
    }
  }
}
