/** Block types and lengths while decoding (`src/decode/block_state.rs`, `src/decode/block_partition.rs`):
    which type the next symbol has, read bit by bit from the stream when a block ends. */
module BlockStates {
  import opened CanonicalTables
  import opened ComplexPrefixDecoder
  import opened BitStream
  import opened Outcomes

  /** The bits of an unfinished codeword. */
  datatype Search = Search(code: nat, length: nat)

  function NoSearch(): Search
  {
    Search(0, 0)
  }

  /** The symbol whose codeword is `code` with `length` bits. */
  function Lookup(t: Tables, code: nat, length: nat): Option<nat>
  {
    if length < |t.counts| && length < |t.firstCode| && length < |t.firstSymbol| && t.Hit(code, length) then
      var index := t.firstSymbol[length] + (code - t.firstCode[length]);
      if index < |t.symbols| then Some(t.symbols[index]) else None
    else
      None
  }

  /** A lone symbol needs no bits, any other one bit at a time. */
  function SymbolBits(code: PrefixCode): nat
  {
    if code.Single? then 0 else 1
  }

  /** One step of reading a symbol. */
  function SymbolStep(code: PrefixCode, s: Search, bits: seq<bool>): (Search, Option<nat>)
    requires |bits| == SymbolBits(code)
  {
    match code
    case Single(symbol) => (s, Some(symbol))
    case Canonical(t) =>
      var next := Search(2 * s.code + (if bits[0] then 1 else 0), s.length + 1);
      match Lookup(t, next.code, next.length)
      case Some(symbol) => (NoSearch(), Some(symbol))
      case None => (next, None)
  }

  const BLOCK_LENGTH_OFFSETS: seq<nat> :=
    [1, 5, 9, 13, 17, 25, 33, 41, 49, 65, 81, 97, 113, 145, 177, 209, 241, 305, 369, 497, 753, 1265, 2289, 4337, 8433,
     16625]
  const BLOCK_LENGTH_EXTRA_BITS: seq<nat> :=
    [2, 2, 2, 2, 3, 3, 3, 3, 4, 4, 4, 4, 5, 5, 5, 5, 6, 6, 7, 8, 9, 10, 11, 12, 13, 24]

  /** A block has at least one symbol. */
  function LengthOffset(symbol: nat): (n: nat)
    ensures n > 0
  {
    if symbol < 26 then BLOCK_LENGTH_OFFSETS[symbol] else 1
  }

  function LengthExtraBits(symbol: nat): (n: nat)
    ensures n >= 2
  {
    if symbol < 26 then BLOCK_LENGTH_EXTRA_BITS[symbol] else 2
  }

  /** How a stream of symbols is cut into blocks: one type, or several with codes for type and length. */
  datatype Partition = Partition(numTypes: nat, typeCode: PrefixCode, lengthCode: PrefixCode)

  datatype BlockState = BlockState(currentType: nat, previousTypes: (nat, nat), remaining: nat,
                                   typeSearch: Search, lengthSearch: Search, pendingLength: Option<nat>,
                                     switchPending: bool)

  /** The type a type symbol stands for: the one before the last, the last plus one, or itself. */
  function ResolveType(symbol: nat, numTypes: nat, previous: (nat, nat)): nat
  {
    var t := if symbol == 0 then previous.0 else if symbol == 1 then previous.1 + 1 else symbol - 2;
    if t >= numTypes then t - numTypes else t
  }

  /** The current block still has symbols. */
  predicate Ready(p: Partition, b: BlockState)
  {
    p.numTypes == 1 || b.remaining != 0
  }

  function CurrentType(p: Partition, b: BlockState): nat
  {
    if p.numTypes == 1 then 0 else b.currentType
  }

  function BlockBits(p: Partition, b: BlockState): nat
  {
    if Ready(p, b) then 0
    else if !b.switchPending then SymbolBits(p.typeCode)
    else if b.pendingLength.None? then SymbolBits(p.lengthCode)
    else LengthExtraBits(b.pendingLength.value)
  }

  /** One step of a block switch: type symbol, length symbol, extra bits of the length. */
  function BlockStep(p: Partition, b: BlockState, bits: seq<bool>): BlockState
    requires !Ready(p, b) && |bits| == BlockBits(p, b)
  {
    if !b.switchPending then
      var (search, symbol) := SymbolStep(p.typeCode, b.typeSearch, bits);
      if symbol.None? then b.(typeSearch := search)
      else
        var t := ResolveType(symbol.value, p.numTypes, b.previousTypes);
        b.(typeSearch := search, currentType := t, previousTypes := (b.previousTypes.1, t), switchPending := true)
    else if b.pendingLength.None? then
      var (search, symbol) := SymbolStep(p.lengthCode, b.lengthSearch, bits);
      b.(lengthSearch := search, pendingLength := symbol)
    else
      b.(remaining := LengthOffset(b.pendingLength.value) + FromLsb(bits), pendingLength := None,
         switchPending := false)
  }

  function Consumed(p: Partition, b: BlockState): BlockState
  {
    if p.numTypes == 1 || b.remaining == 0 then b else b.(remaining := b.remaining - 1)
  }

  /** How far a block switch is from its end, in steps that may take no bits. */
  function BlockRank(p: Partition, b: BlockState): (n: nat)
    ensures n <= 3
  {
    if Ready(p, b) then 0 else if !b.switchPending then 3 else if b.pendingLength.None? then 2 else 1
  }

  /** Every step of a switch takes bits or brings it closer to its end. */
  lemma BlockStepProgresses(p: Partition, b: BlockState, bits: seq<bool>)
    requires !Ready(p, b) && |bits| == BlockBits(p, b)
    ensures |bits| > 0 || BlockRank(p, BlockStep(p, b, bits)) < BlockRank(p, b)
  {
  }
}
