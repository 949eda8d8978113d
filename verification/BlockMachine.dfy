/** The command-executing machine of a compressed metablock (`src/decode/compressed_block.rs`), one
    read or one byte at a time: what it needs before each step, and what the step does. */
module BlockMachine {
  import opened Arithmetic
  import opened Bytes
  import opened BitStream
  import opened ComplexPrefixDecoder
  import opened HistoryRing
  import opened Distances
  import opened Commands
  import opened Dictionary
  import opened BlockStates
  import opened Outcomes

  /** A metablock's codes: trees by block type and context are given as functions. */
  datatype Header = Header(
    literals: Partition, commands: Partition, distances: Partition, postfixBits: nat, directCodes: nat, windowSize: nat,
    literalTree: (nat, Byte, Byte) -> PrefixCode, commandTree: nat -> PrefixCode,
      distanceTree: (nat, nat) -> PrefixCode,
    words: Words)

  /** A distance that is known, or whose extra bits are still to be read. */
  datatype Pending = Resolved(distance: Distance) | Extra(symbol: nat)

  datatype Phase =
    | Command
    | CommandExtra(spec: CommandSpec, insert: Option<nat>)
    | Literals(count: nat, copyLength: nat, implicit: bool)
    | DistanceSymbol(copyLength: nat)
    | DistanceExtra(copyLength: nat, pending: Pending)
    | Copying(count: nat, distance: nat)
    | DictionaryWord(bytes: seq<Byte>, offset: nat)
    | Finished

  datatype State = State(
    literalBlocks: BlockState, commandBlocks: BlockState, distanceBlocks: BlockState,
    literalSearch: Search, commandSearch: Search, distanceSearch: Search,
    remaining: nat, phase: Phase, ring: Ring, flat: seq<Byte>)

  datatype Error = MetaBlockOverflow | BadSymbol | BadDistance(DistanceError) | BadHistory | BadWord(DictionaryError)

  function Reach(h: Header, flat: seq<Byte>): nat
  {
    Min(|flat|, h.windowSize)
  }

  function DistanceContext(copyLength: nat): nat
  {
    if copyLength == 2 then 0 else if copyLength == 3 then 1 else if copyLength == 4 then 2 else 3
  }

  /** A symbol is being read: a command, a literal or a distance. */
  predicate Reading(s: State)
  {
    (s.phase.Command? && s.remaining > 0) || (s.phase.Literals? && s.phase.count > 0) || s.phase.DistanceSymbol?
  }

  function ActivePartition(h: Header, s: State): Partition
  {
    if s.phase.Command? then h.commands else if s.phase.Literals? then h.literals else h.distances
  }

  function ActiveBlocks(s: State): BlockState
  {
    if s.phase.Command? then s.commandBlocks else if s.phase.Literals? then s.literalBlocks else s.distanceBlocks
  }

  function WithBlocks(s: State, b: BlockState): State
  {
    if s.phase.Command? then s.(commandBlocks := b) else if s.phase.Literals? then s.(literalBlocks := b)
        else s.(distanceBlocks := b)
  }

  function ActiveSearch(s: State): Search
  {
    if s.phase.Command? then s.commandSearch else if s.phase.Literals? then s.literalSearch else s.distanceSearch
  }

  function WithSearch(s: State, search: Search): State
  {
    if s.phase.Command? then s.(commandSearch := search) else if s.phase.Literals? then s.(literalSearch := search)
    else s.(distanceSearch := search)
  }

  /** The code of the symbol being read, by block type and context. */
  function ActiveCode(h: Header, s: State): PrefixCode
  {
    var blockType := CurrentType(ActivePartition(h, s), ActiveBlocks(s));
    match s.phase
    case Literals(_, _, _) => h.literalTree(blockType, LastByte(s.flat, 0), LastByte(s.flat, 1))
    case DistanceSymbol(copyLength) => h.distanceTree(blockType, DistanceContext(copyLength))
    case _ => h.commandTree(blockType)
  }

  function PendingBits(h: Header, p: Pending): nat
  {
    match p
    case Resolved(_) => 0
    case Extra(symbol) => ExtraBitsRead(symbol, h.directCodes, h.postfixBits)
  }

  /** How many bits the next step takes. */
  function BitsNeeded(h: Header, s: State): nat
  {
    if Reading(s) then
      if !Ready(ActivePartition(h, s), ActiveBlocks(s)) then BlockBits(ActivePartition(h, s), ActiveBlocks(s))
      else SymbolBits(ActiveCode(h, s))
    else match s.phase
      case CommandExtra(spec, insert) =>
        if spec.insertCode >= LENGTH_CODES || spec.copyCode >= LENGTH_CODES then 0
        else if insert.None? then Insert.Bits(spec.insertCode) else Copy.Bits(spec.copyCode)
      case DistanceExtra(_, pending) => PendingBits(h, pending)
      case _ => 0
  }

  /** The next step may write a byte, so it waits for room even before it reads. */
  predicate NeedsRoom(s: State)
  {
    match s.phase
    case Literals(count, _, _) => count > 0
    case Copying(count, _) => count > 0
    case DictionaryWord(_, _) => true
    case _ => false
  }

  function Emit(s: State, b: Byte): State
  {
    s.(flat := s.flat + [b], remaining := if s.remaining > 0 then s.remaining - 1 else 0)
  }

  /** A distance within reach starts a copy, one beyond it a dictionary word. */
  function BeginCopy(h: Header, s: State, copyLength: nat, distance: nat): Result<State, Error>
  {
    if distance > Reach(h, s.flat) then
      match Transform(h.words, distance, copyLength, Reach(h, s.flat))
      case Err(e) => Err(BadWord(e))
      case Ok(bytes) => if |bytes| > s.remaining then Err(MetaBlockOverflow)
          else Ok(s.(phase := DictionaryWord(bytes, 0)))
    else if copyLength > s.remaining then Err(MetaBlockOverflow)
    else Ok(s.(phase := Copying(copyLength, distance)))
  }

  /** A complete symbol. */
  function Accept(h: Header, s: State, symbol: nat): Result<State, Error>
  {
    var t := WithBlocks(s, Consumed(ActivePartition(h, s), ActiveBlocks(s)));
    match s.phase
    case Command =>
      if symbol < COMMAND_SYMBOL_COUNT then Ok(t.(phase := CommandExtra(FromSymbol(symbol), None))) else Err(BadSymbol)
    case Literals(count, copyLength, implicit) =>
      Ok(Emit(t, if symbol < 256 then symbol else symbol % 256).(phase := Literals(if count > 0 then count - 1 else 0,
          copyLength, implicit)))
    case DistanceSymbol(copyLength) =>
      if symbol < AlphabetSize(h.directCodes, h.postfixBits) &&
          ExtraBitsRead(symbol, h.directCodes, h.postfixBits) > 0 then
        Ok(t.(phase := DistanceExtra(copyLength, Extra(symbol))))
      else (
        match Decoded(s.ring, symbol, 0, h.directCodes, h.postfixBits)
        case Ok(d) => Ok(t.(phase := DistanceExtra(copyLength, Resolved(d))))
        case Err(e) => Err(BadDistance(e)))
    case _ => Ok(t)
  }

  /** One step on exactly the bits it takes. */
  function Step(h: Header, s: State, bits: seq<bool>): Result<State, Error>
    requires |bits| == BitsNeeded(h, s) && !s.phase.Finished?
  {
    if Reading(s) then
      if !Ready(ActivePartition(h, s), ActiveBlocks(s)) then
        Ok(WithBlocks(s, BlockStep(ActivePartition(h, s), ActiveBlocks(s), bits)))
      else
        var (search, symbol) := SymbolStep(ActiveCode(h, s), ActiveSearch(s), bits);
        if symbol.None? then Ok(WithSearch(s, search)) else Accept(h, WithSearch(s, search), symbol.value)
    else match s.phase
      case Command => Ok(s.(phase := Finished))
      case CommandExtra(spec, insert) => StepCommandExtra(s, spec, insert, bits)
      case Literals(_, copyLength, implicit) =>
        if s.remaining == 0 then Ok(s.(phase := Finished))
        else if implicit then BeginCopy(h, s, copyLength, s.ring.last)
        else Ok(s.(phase := DistanceSymbol(copyLength)))
      case DistanceExtra(copyLength, pending) => StepDistanceExtra(h, s, copyLength, pending, bits)
      case Copying(count, distance) =>
        if count == 0 then Ok(s.(phase := Command))
        else if distance == 0 || distance > Reach(h, s.flat) then Err(BadHistory)
        else Ok(Emit(s, s.flat[|s.flat| - distance]).(phase := Copying(count - 1, distance)))
      case DictionaryWord(bytes, offset) =>
        if offset >= |bytes| then Ok(s.(phase := Command))
        else Ok(Emit(s, bytes[offset]).(phase := if offset + 1 == |bytes| then Command
                                        else DictionaryWord(bytes, offset + 1)))
      case _ => Ok(s)
  }

  /** The two lengths of a command, each with its extra bits. */
  function StepCommandExtra(s: State, spec: CommandSpec, insert: Option<nat>, bits: seq<bool>): Result<State, Error>
  {
    if spec.insertCode >= LENGTH_CODES || spec.copyCode >= LENGTH_CODES then Err(BadSymbol)
    else if insert.None? then
      Ok(s.(phase := CommandExtra(spec, Some(Insert.Base(spec.insertCode) + FromLsb(bits)))))
    else if insert.value > s.remaining then Err(MetaBlockOverflow)
    else Ok(s.(phase := Literals(insert.value, Copy.Base(spec.copyCode) + FromLsb(bits), spec.implicitDistanceZero)))
  }

  /** The distance is known: the copy begins, and the ring remembers a distance within reach. */
  function StepDistanceExtra(h: Header, s: State, copyLength: nat, pending: Pending,
                             bits: seq<bool>): Result<State, Error>
  {
    var d := match pending
             case Resolved(d) => d
             case Extra(symbol) =>
               if symbol < SHORT_CODE_COUNT + h.directCodes then Distance(0, false)
               else Distance(FromExtra(symbol, FromLsb(bits), h.directCodes, h.postfixBits), true);
    match BeginCopy(h, s, copyLength, d.value)
    case Err(e) => Err(e)
    case Ok(t) => Ok(if d.shouldPush && t.phase.Copying? then t.(ring := t.ring.Pushed(d.value)) else t)
  }

  /** Every remembered distance is within reach, or still one of the four initial ones. */
  function RingLimit(h: Header, flat: seq<Byte>): nat
  {
    if Reach(h, flat) < 16 then 16 else Reach(h, flat)
  }

  /** How far beyond the reach a distance without extra bits can lie. */
  predicate Near(h: Header, flat: seq<Byte>, distance: nat)
  {
    0 < distance <= Reach(h, flat) + 1024
  }

  predicate SaneHeader(h: Header)
  {
    h.directCodes <= 120 && h.windowSize >= 1008
  }

  predicate SanePending(h: Header, flat: seq<Byte>, p: Pending)
  {
    match p
    case Resolved(d) => Near(h, flat, d.value)
    case Extra(symbol) => SHORT_CODE_COUNT + h.directCodes <= symbol < AlphabetSize(h.directCodes, h.postfixBits)
  }

  predicate SanePhase(h: Header, s: State)
  {
    match s.phase
    case CommandExtra(spec, _) => spec.insertCode < LENGTH_CODES && spec.copyCode < LENGTH_CODES
    case Literals(count, copyLength, _) => count <= s.remaining && copyLength >= 2
    case DistanceSymbol(copyLength) => copyLength >= 2 && s.remaining > 0
    case DistanceExtra(copyLength, pending) => copyLength >= 2 && s.remaining > 0 && SanePending(h, s.flat, pending)
    case Copying(count, distance) => count <= s.remaining && 0 < distance <= Reach(h, s.flat)
    case DictionaryWord(bytes, offset) => offset <= |bytes| <= s.remaining + offset && s.remaining > 0 &&
        (bytes != [] ==> offset < |bytes|)
    case _ => true
  }

  /** What every step keeps. */
  predicate Sane(h: Header, s: State)
  {
    SaneHeader(h) && SanePhase(h, s) && s.ring.UpTo(RingLimit(h, s.flat)) && s.ring.Positive()
  }

  /** A state whose next step may take no bits and write no byte ranks above the state it leads to. */
  function Rank(h: Header, s: State): nat
  {
    match s.phase
    case Finished => 0
    case Copying(count, _) => if count > 0 then 20 else 90
    case DictionaryWord(bytes, _) => if bytes == [] then 95 else 20
    case Command => if s.remaining == 0 then 10 else 80 + BlockRank(h.commands, s.commandBlocks)
    case CommandExtra(_, insert) => if insert.None? then 71 else 70
    case Literals(count, _, _) => if count == 0 then 60 else 61 + BlockRank(h.literals, s.literalBlocks)
    case DistanceSymbol(_) => 50 + BlockRank(h.distances, s.distanceBlocks)
    case DistanceExtra(_, _) => 45
  }

  predicate Progress(h: Header, s: State, taken: nat, t: State)
  {
    t.remaining <= s.remaining && (taken > 0 || t.remaining < s.remaining || Rank(h, t) < Rank(h, s))
  }

  lemma ReachGrows(h: Header, flat: seq<Byte>, b: Byte)
    ensures Reach(h, flat) <= Reach(h, flat + [b]) <= Reach(h, flat) + 1
  {
  }

  lemma ReachInside(h: Header, flat: seq<Byte>)
    ensures Reach(h, flat) <= |flat|
  {
  }

  /** Writing a byte keeps the ring in range. */
  lemma EmitKeepsRing(h: Header, s: State, b: Byte)
    requires s.ring.UpTo(RingLimit(h, s.flat))
    ensures s.ring.UpTo(RingLimit(h, s.flat + [b]))
  {
    ReachGrows(h, s.flat, b);
    hide Reach;
  }

  /** A copy starts within reach and is not empty; a dictionary word that is near is not empty either. */
  lemma BeginCopyKeeps(h: Header, s: State, copyLength: nat, distance: nat, near: bool) returns (t: State)
    requires Sane(h, s) && s.remaining > 0 && copyLength >= 2 && distance > 0 && (near ==> Near(h, s.flat, distance))
    requires BeginCopy(h, s, copyLength, distance).Ok?
    ensures t == BeginCopy(h, s, copyLength, distance).value && SanePhase(h, t) && t == s.(phase := t.phase)
    ensures t.phase.Copying? <==> distance <= Reach(h, s.flat)
    ensures Rank(h, t) == 20 || (!near && Rank(h, t) == 95)
  {
    hide Transform, Reach;
    t := BeginCopy(h, s, copyLength, distance).value;
    if distance > Reach(h, s.flat) && near && t.phase.DictionaryWord? && t.phase.bytes == [] {
      EmptyMeansFar(h.words, distance, copyLength, Reach(h, s.flat));
      assert false;
    }
  }

  /** A ring code's distance and a direct code's are near. */
  lemma ShortIsNear(h: Header, s: State, symbol: nat)
    requires Sane(h, s) && Decoded(s.ring, symbol, 0, h.directCodes, h.postfixBits).Ok?
    requires ExtraBitsRead(symbol, h.directCodes, h.postfixBits) == 0
    ensures Near(h, s.flat, Decoded(s.ring, symbol, 0, h.directCodes, h.postfixBits).value.value)
  {
    hide Reach, AlphabetSize, FromExtra, ExtraBitsOf;
    NearWithoutExtraBits(s.ring, symbol, h.directCodes, h.postfixBits, RingLimit(h, s.flat));
  }

  lemma CopyBases(code: nat)
    requires code < LENGTH_CODES
    ensures Copy.Base(code) >= 2
  {
  }

  /** Reading a symbol that is not complete yet. */
  lemma BlockKeeps(h: Header, s: State, bits: seq<bool>)
    requires Sane(h, s) && Reading(s) && !Ready(ActivePartition(h, s), ActiveBlocks(s)) && |bits| == BitsNeeded(h, s)
    ensures var t := WithBlocks(s, BlockStep(ActivePartition(h, s), ActiveBlocks(s), bits));
            Sane(h, t) && Progress(h, s, |bits|, t)
  {
    hide BlockStep, Reach, BlockBits, Ready, BlockRank;
    BlockStepProgresses(ActivePartition(h, s), ActiveBlocks(s), bits);
  }

  /** A complete symbol takes its phase to a lower one. */
  lemma AcceptKeeps(h: Header, s: State, symbol: nat, search: Search) returns (t: State)
    requires Sane(h, s) && Reading(s) && Accept(h, WithSearch(s, search), symbol).Ok?
    ensures t == Accept(h, WithSearch(s, search), symbol).value
    ensures Sane(h, t) && Progress(h, s, 0, t)
  {
    hide Reach, Decoded, ExtraBitsRead, AlphabetSize, Consumed, FromSymbol, BlockRank;
    t := Accept(h, WithSearch(s, search), symbol).value;
    match s.phase {
      case Literals(_, _, _) =>
        EmitKeepsRing(h, s, if symbol < 256 then symbol else symbol % 256);
      case DistanceSymbol(_) =>
        if !(symbol < AlphabetSize(h.directCodes, h.postfixBits) &&
             ExtraBitsRead(symbol, h.directCodes, h.postfixBits) > 0) {
          NoExtraBits(h, s.ring, symbol);
          ShortIsNear(h, s, symbol);
        } else {
          SomeExtraBits(h, symbol);
        }
      case _ =>
    }
  }

  lemma NoExtraBits(h: Header, ring: Ring, symbol: nat)
    requires Decoded(ring, symbol, 0, h.directCodes, h.postfixBits).Ok?
    requires !(symbol < AlphabetSize(h.directCodes, h.postfixBits) &&
               ExtraBitsRead(symbol, h.directCodes, h.postfixBits) > 0)
    ensures ExtraBitsRead(symbol, h.directCodes, h.postfixBits) == 0
  {
    hide AlphabetSize, ExtraBitsRead, FromExtra;
  }

  lemma SomeExtraBits(h: Header, symbol: nat)
    requires ExtraBitsRead(symbol, h.directCodes, h.postfixBits) > 0
    ensures symbol >= SHORT_CODE_COUNT + h.directCodes
  {
  }

  lemma CommandExtraKeeps(h: Header, s: State, bits: seq<bool>) returns (t: State)
    requires Sane(h, s) && s.phase.CommandExtra? && StepCommandExtra(s, s.phase.spec, s.phase.insert, bits).Ok?
    ensures t == StepCommandExtra(s, s.phase.spec, s.phase.insert, bits).value
    ensures Sane(h, t) && Progress(h, s, 0, t)
  {
    hide Reach, FromLsb, BlockRank;
    CopyBases(s.phase.spec.copyCode);
    t := StepCommandExtra(s, s.phase.spec, s.phase.insert, bits).value;
    hide Lengths.Base;
  }

  /** A copy that starts without having read bits is not empty: the step lowers the rank. */
  lemma DistanceExtraKeeps(h: Header, s: State, bits: seq<bool>) returns (t: State)
    requires Sane(h, s) && s.phase.DistanceExtra? && |bits| == PendingBits(h, s.phase.pending)
    requires StepDistanceExtra(h, s, s.phase.copyLength, s.phase.pending, bits).Ok?
    ensures t == StepDistanceExtra(h, s, s.phase.copyLength, s.phase.pending, bits).value
    ensures Sane(h, t) && Progress(h, s, |bits|, t)
  {
    hide Reach, FromLsb, Transform, FromExtra, ExtraBitsOf, BeginCopy;
    t := StepDistanceExtra(h, s, s.phase.copyLength, s.phase.pending, bits).value;
    match s.phase.pending {
      case Resolved(d) =>
        var c := BeginCopyKeeps(h, s, s.phase.copyLength, d.value, true);
      case Extra(symbol) =>
        var d := FromExtra(symbol, FromLsb(bits), h.directCodes, h.postfixBits);
        var c := BeginCopyKeeps(h, s, s.phase.copyLength, d, false);
    }
  }

  /** Every step keeps the machine sane, and takes bits, writes a byte or lowers the rank. */
  lemma StepKeeps(h: Header, s: State, bits: seq<bool>) returns (t: State)
    requires Sane(h, s) && !s.phase.Finished? && |bits| == BitsNeeded(h, s) && Step(h, s, bits).Ok?
    ensures t == Step(h, s, bits).value && Sane(h, t) && Progress(h, s, |bits|, t)
  {
    t := Step(h, s, bits).value;
    if Reading(s) {
      t := ReadingKeeps(h, s, bits);
    } else {
      t := OtherKeeps(h, s, bits);
    }
  }

  lemma ReadingKeeps(h: Header, s: State, bits: seq<bool>) returns (t: State)
    requires Sane(h, s) && !s.phase.Finished? && |bits| == BitsNeeded(h, s) && Step(h, s, bits).Ok? && Reading(s)
    ensures t == Step(h, s, bits).value && Sane(h, t) && Progress(h, s, |bits|, t)
  {
    hide Sane, BlockStep, Ready, Accept, BlockBits, ActiveCode;
    t := Step(h, s, bits).value;
    if !Ready(ActivePartition(h, s), ActiveBlocks(s)) {
      BlockKeeps(h, s, bits);
    } else {
      var (search, symbol) := SymbolStep(ActiveCode(h, s), ActiveSearch(s), bits);
      if symbol.None? {
        SearchKeeps(h, s, search);
      } else {
        t := AcceptKeeps(h, s, symbol.value, search);
      }
    }
  }

  lemma SearchKeeps(h: Header, s: State, search: Search)
    requires Sane(h, s)
    ensures Sane(h, WithSearch(s, search)) && WithSearch(s, search).remaining == s.remaining
  {
  }

  lemma OtherKeeps(h: Header, s: State, bits: seq<bool>) returns (t: State)
    requires Sane(h, s) && !s.phase.Finished? && |bits| == BitsNeeded(h, s) && Step(h, s, bits).Ok? && !Reading(s)
    ensures t == Step(h, s, bits).value && Sane(h, t) && Progress(h, s, |bits|, t)
  {
    hide Reach, StepCommandExtra, StepDistanceExtra, BeginCopy, BlockRank;
    t := Step(h, s, bits).value;
    match s.phase {
      case CommandExtra(_, _) =>
        t := CommandExtraKeeps(h, s, bits);
      case DistanceExtra(_, _) =>
        t := DistanceExtraKeeps(h, s, bits);
      case Literals(_, copyLength, implicit) =>
        if s.remaining > 0 && implicit {
          var c := BeginCopyKeeps(h, s, copyLength, s.ring.last, true);
        }
      case Copying(count, distance) =>
        if count > 0 {
          ReachInside(h, s.flat);
          EmitKeepsRing(h, s, s.flat[|s.flat| - distance]);
          ReachGrows(h, s.flat, s.flat[|s.flat| - distance]);
        }
      case DictionaryWord(bytes, offset) =>
        if offset < |bytes| {
          EmitKeepsRing(h, s, bytes[offset]);
        }
      case _ =>
    }
  }

  /** No read is longer than the longest extra bits, those of lengths and distances. */
  lemma NeedsFewBits(h: Header, s: State)
    requires Sane(h, s)
    ensures BitsNeeded(h, s) <= 24
  {
    if Reading(s) {
      hide ActivePartition, ActiveBlocks, ActiveCode, LengthExtraBits;
      FewBlockBits(ActivePartition(h, s), ActiveBlocks(s));
    } else {
      match s.phase {
        case DistanceExtra(_, Extra(symbol)) =>
          hide Quotient, Times, Pow2;
          FewExtraBits(symbol, h.directCodes, h.postfixBits);
        case _ =>
      }
    }
  }

  lemma FewBlockBits(p: Partition, b: BlockState)
    ensures BlockBits(p, b) <= 24
  {
    if b.pendingLength.Some? {
      FewLengthBits(b.pendingLength.value);
    }
    hide LengthExtraBits;
  }

  lemma FewLengthBits(symbol: nat)
    ensures LengthExtraBits(symbol) <= 24
  {
  }

  lemma FewExtraBits(symbol: nat, direct: nat, postfixBits: nat)
    requires SHORT_CODE_COUNT + direct <= symbol < AlphabetSize(direct, postfixBits)
    ensures ExtraBitsRead(symbol, direct, postfixBits) <= 24
  {
    var p := Pow2(postfixBits);
    assert Pow2(postfixBits + 1) == 2 * p && Times(POSTFIX_CODE_COUNT, p) == Times(24, 2 * p);
    QuotientBelow(symbol - direct - SHORT_CODE_COUNT, 24, 2 * p);
  }

  datatype Status = NeedInput | NeedOutput | Done | Failed(error: Error)

  /** Where a call stops: the state, the bits it leaves, and why. */
  datatype Stop = Stop(state: State, rest: seq<bool>, status: Status)

  /** Bytes written by a step, at most one. */
  function Written(s: State, t: State): nat
  {
    if |t.flat| > |s.flat| then |t.flat| - |s.flat| else 0
  }

  function Room(room: nat, s: State, t: State): nat
  {
    if room > Written(s, t) then room - Written(s, t) else 0
  }

  /** Steps until bits or room run out, an error, or the end of the metablock. It always stops. */
  function Run(h: Header, s: State, input: seq<bool>, room: nat): (stop: Stop)
    requires Sane(h, s)
    ensures Sane(h, stop.state)
    decreases |input| + s.remaining, Rank(h, s)
  {
    var n := BitsNeeded(h, s);
    if s.phase.Finished? then Stop(s, input, Done)
    else if NeedsRoom(s) && room == 0 then Stop(s, input, NeedOutput)
    else if |input| < n then Stop(s, input, NeedInput)
    else
      match Step(h, s, input[..n])
      case Err(e) => Stop(s, input, Failed(e))
      case Ok(t) =>
        assert t == StepKept(h, s, input[..n]);
        Run(h, t, input[n..], Room(room, s, t))
  }

  function StepKept(h: Header, s: State, bits: seq<bool>): (t: State)
    requires Sane(h, s) && !s.phase.Finished? && |bits| == BitsNeeded(h, s) && Step(h, s, bits).Ok?
    ensures t == Step(h, s, bits).value && Sane(h, t) && Progress(h, s, |bits|, t)
  {
    var t := Step(h, s, bits).value;
    assert Sane(h, t) && Progress(h, s, |bits|, t) by {
      var u := StepKeeps(h, s, bits);
    }
    t
  }

  /** A step writes at most one byte, and only if it waited for room; what is written stays. */
  lemma StepWrites(h: Header, s: State, bits: seq<bool>)
    requires !s.phase.Finished? && |bits| == BitsNeeded(h, s) && Step(h, s, bits).Ok?
    ensures var t := Step(h, s, bits).value; s.flat <= t.flat && |t.flat| <= |s.flat| + if NeedsRoom(s) then 1 else 0
  {
    hide BlockStep, Ready, Decoded, Transform, FromExtra, AlphabetSize, ExtraBitsRead, Consumed, FromSymbol, Reach,
         ActiveCode, SymbolStep, BlockBits;
    BeginCopyWritesNothing(h, s);
    hide BeginCopy;
  }

  /** Every byte written is one less to come, and the block ends when none is to come. */
  lemma StepCountsDown(h: Header, s: State, bits: seq<bool>)
    requires Sane(h, s) && !s.phase.Finished? && |bits| == BitsNeeded(h, s) && Step(h, s, bits).Ok?
    ensures var t := Step(h, s, bits).value;
            |t.flat| + t.remaining == |s.flat| + s.remaining && (t.phase.Finished? ==> t.remaining == 0)
  {
    hide BlockStep, Ready, Decoded, Transform, FromExtra, AlphabetSize, ExtraBitsRead, Consumed, FromSymbol, Reach,
         ActiveCode, SymbolStep, BlockBits;
    BeginCopyWritesNothing(h, s);
    BeginCopyKeepsCount(h, s);
    hide BeginCopy;
  }

  lemma BeginCopyKeepsCount(h: Header, s: State)
    ensures forall copyLength, distance ::
              BeginCopy(h, s, copyLength, distance).Ok? ==>
                var t := BeginCopy(h, s, copyLength, distance).value; t.remaining == s.remaining && !t.phase.Finished?
  {
    hide Transform, Reach;
  }

  lemma BeginCopyWritesNothing(h: Header, s: State)
    ensures forall copyLength, distance ::
              BeginCopy(h, s, copyLength, distance).Ok? ==> BeginCopy(h, s, copyLength, distance).value.flat == s.flat
  {
    hide Transform, Reach;
  }

  /** A call writes no more than there is room for. */
  lemma {:induction false} RunWrites(h: Header, s: State, input: seq<bool>, room: nat)
    requires Sane(h, s)
    ensures var stop := Run(h, s, input, room); s.flat <= stop.state.flat && |stop.state.flat| <= |s.flat| + room
    decreases |input| + s.remaining, Rank(h, s)
  {
    var n := BitsNeeded(h, s);
    if !s.phase.Finished? && !(NeedsRoom(s) && room == 0) && n <= |input| && Step(h, s, input[..n]).Ok? {
      StepWrites(h, s, input[..n]);
      var t := StepKept(h, s, input[..n]);
      hide Step, Sane, Rank, BitsNeeded, NeedsRoom;
      RunWrites(h, t, input[n..], Room(room, s, t));
    }
  }

  lemma Unsplit(input: seq<bool>, x: seq<bool>, n: nat)
    requires n <= |input|
    ensures (input + x)[..n] == input[..n] && (input + x)[n..] == input[n..] + x
  {
  }

  /** The machine does not notice where its input or output was cut: with more of both at once it
      takes the same steps, and goes on from where it would have stopped. */
  lemma {:induction false} RunContinues(h: Header, s: State, input: seq<bool>, room: nat, x: seq<bool>, more: nat)
    requires Sane(h, s) && room <= more
    ensures var stop := Run(h, s, input, room);
            |s.flat| <= |stop.state.flat| <= |s.flat| + room &&
            Run(h, s, input + x, more) == Run(h, stop.state, stop.rest + x, more - (|stop.state.flat| - |s.flat|))
    decreases |input| + s.remaining, Rank(h, s)
  {
    hide *;
    if CanStep(h, s, input, room) {
      var t, n := TakesStep(h, s, input, room, x, more);
      RunContinues(h, t, input[n..], Room(room, s, t), x, Room(more, s, t));
      RoomsAdd(s, t, Run(h, s, input, room).state, room, more);
    } else {
      CannotStep(h, s, input, room);
    }
  }

  predicate CanStep(h: Header, s: State, input: seq<bool>, room: nat)
  {
    && !s.phase.Finished? && !(NeedsRoom(s) && room == 0) && BitsNeeded(h, s) <= |input|
    && Step(h, s, input[..BitsNeeded(h, s)]).Ok?
  }

  lemma CannotStep(h: Header, s: State, input: seq<bool>, room: nat)
    requires Sane(h, s) && !CanStep(h, s, input, room)
    ensures Run(h, s, input, room).state == s && Run(h, s, input, room).rest == input
  {
    hide Step, Sane;
  }

  /** The step taken on part of the input is the step taken on all of it. */
  lemma TakesStep(h: Header, s: State, input: seq<bool>, room: nat, x: seq<bool>, more: nat) returns (t: State, n: nat)
    requires Sane(h, s) && room <= more && CanStep(h, s, input, room)
    ensures Sane(h, t) && Room(room, s, t) <= Room(more, s, t) && |s.flat| <= |t.flat| <= |s.flat| + room
    ensures n == BitsNeeded(h, s) <= |input| && Step(h, s, input[..n]) == Ok(t)
    ensures Run(h, s, input, room) == Run(h, t, input[n..], Room(room, s, t))
    ensures Run(h, s, input + x, more) == Run(h, t, input[n..] + x, Room(more, s, t))
    ensures |input[n..]| + t.remaining < |input| + s.remaining ||
            (|input[n..]| + t.remaining == |input| + s.remaining && Rank(h, t) < Rank(h, s))
  {
    n := BitsNeeded(h, s);
    Unsplit(input, x, n);
    StepWrites(h, s, input[..n]);
    t := StepKept(h, s, input[..n]);
    hide Step, Sane, Rank, BitsNeeded, NeedsRoom, Run;
    RunUnfolds(h, s, input, room, t);
    RunUnfolds(h, s, input + x, more, t);
  }

  lemma RunUnfolds(h: Header, s: State, input: seq<bool>, room: nat, t: State)
    requires Sane(h, s) && !s.phase.Finished? && !(NeedsRoom(s) && room == 0) && BitsNeeded(h, s) <= |input|
    requires Step(h, s, input[..BitsNeeded(h, s)]) == Ok(t)
    ensures Sane(h, t) && Run(h, s, input, room) == Run(h, t, input[BitsNeeded(h, s)..], Room(room, s, t))
  {
    hide Step, Sane, Rank, BitsNeeded, NeedsRoom;
    assert t == StepKept(h, s, input[..BitsNeeded(h, s)]);
  }

  lemma RoomsAdd(s: State, t: State, u: State, room: nat, more: nat)
    requires room <= more && |s.flat| <= |t.flat| <= |s.flat| + room &&
             |t.flat| <= |u.flat| <= |t.flat| + Room(room, s, t)
    ensures |s.flat| <= |u.flat| <= |s.flat| + room && Room(more, s, t) - (|u.flat| - |t.flat|) ==
            more - (|u.flat| - |s.flat|)
  {
  }

  /** One call's share of input and output. */
  datatype Slice = Slice(input: seq<bool>, room: nat)

  /** Call after call, each with the bits the last one left and new ones. */
  function Feed(h: Header, s: State, rest: seq<bool>, slices: seq<Slice>): (stop: Stop)
    requires Sane(h, s)
    ensures Sane(h, stop.state)
    decreases |slices|
  {
    if slices == [] then Stop(s, rest, NeedInput)
    else
      var stop := Run(h, s, rest + slices[0].input, slices[0].room);
      if |slices| == 1 then stop else Feed(h, stop.state, stop.rest, slices[1..])
  }

  function AllInput(slices: seq<Slice>): seq<bool>
  {
    if slices == [] then [] else slices[0].input + AllInput(slices[1..])
  }

  function AllRoom(slices: seq<Slice>): nat
  {
    if slices == [] then 0 else slices[0].room + AllRoom(slices[1..])
  }

  /** However input and output are sliced, the calls end up on the one run over all the input: where
      they stop, that run passes through with the same unread bits. */
  lemma {:induction false} FeedContinues(h: Header, s: State, rest: seq<bool>, slices: seq<Slice>, x: seq<bool>,
                                         room: nat)
    requires Sane(h, s) && AllRoom(slices) <= room
    ensures var stop := Feed(h, s, rest, slices);
            |s.flat| <= |stop.state.flat| <= |s.flat| + room &&
            Run(h, s, rest + AllInput(slices) + x, room) == Run(h, stop.state, stop.rest + x,
                                                                room - (|stop.state.flat| - |s.flat|))
    decreases |slices|
  {
    hide Run, Sane;
    if slices == [] {
      assert rest + [] + x == rest + x;
    } else {
      var first, later := slices[0], slices[1..];
      var stop := Run(h, s, rest + first.input, first.room);
      assert rest + AllInput(slices) + x == (rest + first.input) + (AllInput(later) + x);
      RunContinues(h, s, rest + first.input, first.room, AllInput(later) + x, room);
      if |slices| == 1 {
        assert stop.rest + (AllInput(later) + x) == stop.rest + x;
      } else {
        RunWrites(h, s, rest + first.input, first.room);
        FeedContinues(h, stop.state, stop.rest, later, x, room - (|stop.state.flat| - |s.flat|));
        assert stop.rest + (AllInput(later) + x) == stop.rest + AllInput(later) + x;
      }
    }
  }

  /** So all sliced runs that end the metablock or fail agree with the run in one piece: the same
      bytes, the same state, the same outcome, and the same unread bits. */
  lemma SlicesAgree(h: Header, s: State, slices: seq<Slice>, room: nat)
    requires Sane(h, s) && AllRoom(slices) <= room && slices != []
    requires Feed(h, s, [], slices).status.Done? || Feed(h, s, [], slices).status.Failed?
    ensures Run(h, s, AllInput(slices), room) == Feed(h, s, [], slices)
  {
    var stop := Feed(h, s, [], slices);
    FeedContinues(h, s, [], slices, [], room);
    FeedEnds(h, s, [], slices);
    assert [] + AllInput(slices) + [] == AllInput(slices);
    assert stop.rest + [] == stop.rest;
    StaysEnded(h, stop, room - (|stop.state.flat| - |s.flat|));
  }

  /** Nothing fails while waiting for room: a sane copy is always within reach. */
  lemma ErrorsNeedNoRoom(h: Header, s: State, bits: seq<bool>)
    requires Sane(h, s) && !s.phase.Finished? && |bits| == BitsNeeded(h, s) && Step(h, s, bits).Err?
    ensures !NeedsRoom(s)
  {
    hide BlockStep, Ready, Decoded, Transform, FromExtra, AlphabetSize, ExtraBitsRead, Consumed, FromSymbol, Reach,
         ActiveCode, SymbolStep, BlockBits;
  }

  lemma StaysEnded(h: Header, stop: Stop, room: nat)
    requires Sane(h, stop.state) && Ended(h, stop) && (stop.status.Done? || stop.status.Failed?)
    ensures Run(h, stop.state, stop.rest, room) == stop
  {
    if stop.status.Failed? {
      ErrorsNeedNoRoom(h, stop.state, stop.rest[..BitsNeeded(h, stop.state)]);
    }
    hide Step, Sane, BitsNeeded, NeedsRoom;
  }

  /** A call that ends for good would end again at once. */
  ghost predicate Ended(h: Header, stop: Stop)
  {
    match stop.status
    case Done => stop.state.phase.Finished?
    case Failed(e) =>
      && !stop.state.phase.Finished? && BitsNeeded(h, stop.state) <= |stop.rest|
      && Step(h, stop.state, stop.rest[..BitsNeeded(h, stop.state)]) == Err(e)
    case _ => true
  }

  lemma {:induction false} RunEnds(h: Header, s: State, input: seq<bool>, room: nat)
    requires Sane(h, s)
    ensures Ended(h, Run(h, s, input, room))
    decreases |input| + s.remaining, Rank(h, s)
  {
    var n := BitsNeeded(h, s);
    if !s.phase.Finished? && !(NeedsRoom(s) && room == 0) && n <= |input| && Step(h, s, input[..n]).Ok? {
      var t := StepKept(h, s, input[..n]);
      hide Step, Sane, Rank, BitsNeeded, NeedsRoom;
      RunEnds(h, t, input[n..], Room(room, s, t));
    }
  }

  lemma {:induction false} FeedEnds(h: Header, s: State, rest: seq<bool>, slices: seq<Slice>)
    requires Sane(h, s)
    ensures Ended(h, Feed(h, s, rest, slices))
    decreases |slices|
  {
    hide Run, Sane, Ended;
    if slices == [] {
      NotEnded(h, s, rest);
    } else {
      RunEnds(h, s, rest + slices[0].input, slices[0].room);
      if |slices| > 1 {
        var stop := Run(h, s, rest + slices[0].input, slices[0].room);
        FeedEnds(h, stop.state, stop.rest, slices[1..]);
      }
    }
  }

  lemma NotEnded(h: Header, s: State, rest: seq<bool>)
    ensures Ended(h, Stop(s, rest, NeedInput))
  {
  }
}
