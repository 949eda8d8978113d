/** The decoder object that executes a metablock's commands in bulk, and why its loops, chunked copies
    and early returns amount to the machine's single steps. */
module CompressedBlock {
  import opened Arithmetic
  import opened Bytes
  import opened BitStream
  import opened ComplexPrefixDecoder
  import opened HistoryRing
  import opened Distances
  import opened Commands
  import opened Dictionary
  import opened BlockStates
  import opened BlockMachine
  import opened Outcomes

  /** All steps of reading one symbol: the search, the symbol if it is complete, and the bits left. */
  function SymbolRun(code: PrefixCode, s: Search, input: seq<bool>): (r: (Search, Option<nat>, seq<bool>))
    ensures |r.2| <= |input|
    decreases |input|
  {
    if |input| < SymbolBits(code) then (s, None, input)
    else
      var (next, symbol) := SymbolStep(code, s, input[..SymbolBits(code)]);
      if symbol.Some? then (next, symbol, input[SymbolBits(code)..])
      else SymbolRun(code, next, input[SymbolBits(code)..])
  }

  /** All steps of a block switch: the state, whether a block is current, and the bits left. */
  function SwitchRun(p: Partition, b: BlockState, input: seq<bool>): (r: (BlockState, bool, seq<bool>))
    ensures |r.2| <= |input| && (r.1 <==> Ready(p, r.0))
    decreases |input|, BlockRank(p, b)
  {
    if Ready(p, b) then (b, true, input)
    else if |input| < BlockBits(p, b) then (b, false, input)
    else
      BlockStepProgresses(p, b, input[..BlockBits(p, b)]);
      SwitchRun(p, BlockStep(p, b, input[..BlockBits(p, b)]), input[BlockBits(p, b)..])
  }

  /** Reads one symbol bit by bit. */
  method DecodeSymbol(code: PrefixCode, search: Search, bits: seq<bool>)
    returns (next: Search, symbol: Option<nat>, left: seq<bool>)
    ensures (next, symbol, left) == SymbolRun(code, search, bits)
  {
    match code {
      case Single(s) =>
        assert bits[0..] == bits;
        return search, Some(s), bits;
      case Canonical(t) =>
        next, left := search, bits;
        while left != []
          invariant SymbolRun(code, search, bits) == SymbolRun(code, next, left)
          decreases |left|
        {
          assert left[..1] == [left[0]];
          next := Search(2 * next.code + (if left[0] then 1 else 0), next.length + 1);
          symbol := Lookup(t, next.code, next.length);
          left := left[1..];
          if symbol.Some? {
            return NoSearch(), symbol, left;
          }
        }
        symbol := None;
    }
  }

  lemma SwitchSteps(p: Partition, b: BlockState, input: seq<bool>)
    ensures Ready(p, b) ==> SwitchRun(p, b, input) == (b, true, input)
    ensures !Ready(p, b) && |input| < BlockBits(p, b) ==> SwitchRun(p, b, input) == (b, false, input)
    ensures !Ready(p, b) && |input| >= BlockBits(p, b) ==>
              SwitchRun(p, b, input) == SwitchRun(p, BlockStep(p, b, input[..BlockBits(p, b)]),
                                                  input[BlockBits(p, b)..])
  {
  }

  /** The steps that read the block type. */
  lemma {:induction false} SwitchType(p: Partition, b: BlockState, input: seq<bool>)
    requires !Ready(p, b) && !b.switchPending
    ensures var (search, symbol, left) := SymbolRun(p.typeCode, b.typeSearch, input);
            SwitchRun(p, b, input) ==
            if symbol.None? then (b.(typeSearch := search), false, left)
            else
              var t := ResolveType(symbol.value, p.numTypes, b.previousTypes);
              SwitchRun(p, b.(typeSearch := search, currentType := t, previousTypes := (b.previousTypes.1, t),
                              switchPending := true), left)
    decreases |input|
  {
    SwitchSteps(p, b, input);
    var n := SymbolBits(p.typeCode);
    hide SwitchRun, ResolveType, Lookup;
    if |input| >= n {
      var (search, symbol) := SymbolStep(p.typeCode, b.typeSearch, input[..n]);
      if symbol.None? {
        SwitchType(p, b.(typeSearch := search), input[n..]);
      }
    }
  }

  /** The steps that read the symbol of the block length. */
  lemma {:induction false} SwitchLength(p: Partition, b: BlockState, input: seq<bool>)
    requires !Ready(p, b) && b.switchPending && b.pendingLength.None?
    ensures var (search, symbol, left) := SymbolRun(p.lengthCode, b.lengthSearch, input);
            SwitchRun(p, b, input) ==
            if symbol.None? then (b.(lengthSearch := search), false, left)
            else SwitchRun(p, b.(lengthSearch := search, pendingLength := symbol), left)
    decreases |input|
  {
    SwitchSteps(p, b, input);
    var n := SymbolBits(p.lengthCode);
    hide SwitchRun, Lookup;
    if |input| >= n {
      var (search, symbol) := SymbolStep(p.lengthCode, b.lengthSearch, input[..n]);
      if symbol.None? {
        assert b.(lengthSearch := search, pendingLength := symbol) == b.(lengthSearch := search);
        SwitchLength(p, b.(lengthSearch := search), input[n..]);
      }
    }
  }

  /** The type of the current block, switching blocks when the last one has ended. */
  method CurrentBlock(p: Partition, blocks: BlockState, bits: seq<bool>)
    returns (b: BlockState, ready: bool, left: seq<bool>)
    ensures (b, ready, left) == SwitchRun(p, blocks, bits)
  {
    hide SwitchRun, SymbolRun, ResolveType;
    b, left := blocks, bits;
    SwitchSteps(p, b, left);
    if p.numTypes == 1 {
      return b, true, left;
    }
    if b.remaining != 0 {
      return b, true, left;
    }
    if !b.switchPending {
      SwitchType(p, b, left);
      var search, symbol;
      search, symbol, left := DecodeSymbol(p.typeCode, b.typeSearch, left);
      b := b.(typeSearch := search);
      if symbol.None? {
        return b, false, left;
      }
      var t := ResolveType(symbol.value, p.numTypes, b.previousTypes);
      b := b.(currentType := t, previousTypes := (b.previousTypes.1, t), switchPending := true);
    }
    if b.pendingLength.None? {
      SwitchLength(p, b, left);
      var search, symbol;
      search, symbol, left := DecodeSymbol(p.lengthCode, b.lengthSearch, left);
      b := b.(lengthSearch := search);
      if symbol.None? {
        return b, false, left;
      }
      b := b.(pendingLength := symbol);
    }
    SwitchSteps(p, b, left);
    var n := LengthExtraBits(b.pendingLength.value);
    if |left| < n {
      return b, false, left;
    }
    b := b.(remaining := LengthOffset(b.pendingLength.value) + FromLsb(left[..n]), pendingLength := None,
            switchPending := false);
    left := left[n..];
    SwitchSteps(p, b, left);
    ready := true;
  }

  lemma OneStep(h: Header, s: State, input: seq<bool>, room: nat)
    requires Sane(h, s) && !s.phase.Finished? && (NeedsRoom(s) ==> room > 0)
    ensures var n := BitsNeeded(h, s);
            && (|input| < n ==> Run(h, s, input, room) == Stop(s, input, NeedInput))
            && (|input| >= n ==> Accepted(h, s, input, room, Step(h, s, input[..n]), input[n..]))
  {
    var n := BitsNeeded(h, s);
    if |input| >= n && Step(h, s, input[..n]).Ok? {
      RunUnfolds(h, s, input, room, StepKept(h, s, input[..n]));
    }
  }

  lemma SwitchStep(h: Header, s: State, input: seq<bool>, room: nat)
    requires Sane(h, s) && Reading(s) && (NeedsRoom(s) ==> room > 0) && !Ready(ActivePartition(h, s), ActiveBlocks(s))
    ensures var n := BlockBits(ActivePartition(h, s), ActiveBlocks(s));
            && (|input| < n ==> Run(h, s, input, room) == Stop(s, input, NeedInput))
            && (|input| >= n ==>
                  var t := WithBlocks(s, BlockStep(ActivePartition(h, s), ActiveBlocks(s), input[..n]));
                  Sane(h, t) && Run(h, s, input, room) == Run(h, t, input[n..], room))
  {
    hide Sane, BlockStep, BlockBits, Ready, Run;
    OneStep(h, s, input, room);
  }

  lemma SameReading(h: Header, s: State, b: BlockState)
    requires Reading(s)
    ensures var t := WithBlocks(s, b);
            Reading(t) && NeedsRoom(t) == NeedsRoom(s) && ActivePartition(h, t) == ActivePartition(h, s) &&
              ActiveBlocks(t) == b
    ensures forall c :: WithBlocks(WithBlocks(s, b), c) == WithBlocks(s, c)
    ensures WithBlocks(s, ActiveBlocks(s)) == s
  {
  }

  /** The machine's steps of a block switch are those of the reader. */
  lemma {:induction false} ReadingSwitch(h: Header, s: State, input: seq<bool>, room: nat)
    requires Sane(h, s) && Reading(s) && (NeedsRoom(s) ==> room > 0)
    ensures var (b, ready, left) := SwitchRun(ActivePartition(h, s), ActiveBlocks(s), input);
            var t := WithBlocks(s, b);
            && Sane(h, t) && Reading(t) && NeedsRoom(t) == NeedsRoom(s)
            && Run(h, s, input, room) == if ready then Run(h, t, left, room) else Stop(t, left, NeedInput)
    decreases |input|, BlockRank(ActivePartition(h, s), ActiveBlocks(s))
  {
    var p, b := ActivePartition(h, s), ActiveBlocks(s);
    SwitchSteps(p, b, input);
    SameReading(h, s, b);
    if !Ready(p, b) {
      SwitchStep(h, s, input, room);
      var n := BlockBits(p, b);
      if |input| >= n {
        BlockStepProgresses(p, b, input[..n]);
        var c := BlockStep(p, b, input[..n]);
        SameReading(h, s, c);
        hide *;
        ReadingSwitch(h, WithBlocks(s, c), input[n..], room);
      }
    }
  }

  lemma SymbolSteps(code: PrefixCode, s: Search, input: seq<bool>)
    ensures var n := SymbolBits(code);
            && (|input| < n ==> SymbolRun(code, s, input) == (s, None, input))
            && (|input| >= n ==>
                  var (next, symbol) := SymbolStep(code, s, input[..n]);
                  && SymbolRun(code, s, input) == (if symbol.Some? then (next, symbol, input[n..])
                                                   else SymbolRun(code, next, input[n..]))
                  && (symbol.None? ==> n > 0))
  {
  }

  /** The run goes on after a step, or ends with its error. */
  ghost predicate Accepted(h: Header, s: State, input: seq<bool>, room: nat, next: Result<State, Error>,
                           left: seq<bool>)
    requires Sane(h, s)
  {
    match next
    case Err(e) => Run(h, s, input, room).status == Failed(e)
    case Ok(u) => Sane(h, u) && Run(h, s, input, room) == Run(h, u, left, Room(room, s, u))
  }

  lemma SymbolMachineStep(h: Header, s: State, input: seq<bool>, room: nat)
    requires Sane(h, s) && Reading(s) && (NeedsRoom(s) ==> room > 0) && Ready(ActivePartition(h, s), ActiveBlocks(s))
    ensures var n := SymbolBits(ActiveCode(h, s));
            && (|input| < n ==> Run(h, s, input, room) == Stop(s, input, NeedInput))
            && (|input| >= n ==>
                  var (search, symbol) := SymbolStep(ActiveCode(h, s), ActiveSearch(s), input[..n]);
                  && Sane(h, WithSearch(s, search))
                  && (symbol.None? ==> Run(h, s, input, room) == Run(h, WithSearch(s, search), input[n..], room))
                  && (symbol.Some? ==> Accepted(h, s, input, room, Accept(h, WithSearch(s, search), symbol.value),
                                                input[n..])))
  {
    var n := SymbolBits(ActiveCode(h, s));
    if |input| >= n {
      SearchKeeps(h, s, SymbolStep(ActiveCode(h, s), ActiveSearch(s), input[..n]).0);
    }
    hide Sane, Ready, Run, Accept, SymbolStep, ActiveCode;
    OneStep(h, s, input, room);
  }

  lemma SameSearching(h: Header, s: State, search: Search)
    requires Reading(s)
    ensures var t := WithSearch(s, search);
            && Reading(t) && NeedsRoom(t) == NeedsRoom(s) && ActivePartition(h, t) == ActivePartition(h, s)
            && ActiveBlocks(t) == ActiveBlocks(s)
            && ActiveCode(h, t) == ActiveCode(h, s) && ActiveSearch(t) == search && t.flat == s.flat
    ensures forall other :: WithSearch(WithSearch(s, search), other) == WithSearch(s, other)
    ensures WithSearch(s, ActiveSearch(s)) == s
  {
  }

  /** What a run of symbol steps amounts to. */
  ghost predicate SymbolOutcome(h: Header, s: State, input: seq<bool>, room: nat, search: Search, symbol: Option<nat>,
                                left: seq<bool>)
    requires Sane(h, s)
  {
    && Sane(h, WithSearch(s, search))
    && (symbol.None? ==> Run(h, s, input, room) == Stop(WithSearch(s, search), left, NeedInput))
    && (symbol.Some? ==> Accepted(h, s, input, room, Accept(h, WithSearch(s, search), symbol.value), left))
  }

  /** The machine's steps of reading a symbol are those of the reader. */
  lemma {:induction false} ReadingSymbol(h: Header, s: State, input: seq<bool>, room: nat)
    requires Sane(h, s) && Reading(s) && (NeedsRoom(s) ==> room > 0) && Ready(ActivePartition(h, s), ActiveBlocks(s))
    ensures var (search, symbol, left) := SymbolRun(ActiveCode(h, s), ActiveSearch(s), input);
            SymbolOutcome(h, s, input, room, search, symbol, left)
    decreases |input|
  {
    var code, search := ActiveCode(h, s), ActiveSearch(s);
    var n := SymbolBits(code);
    SymbolSteps(code, search, input);
    SymbolMachineStep(h, s, input, room);
    SameSearching(h, s, search);
    if |input| >= n {
      var (next, symbol) := SymbolStep(code, search, input[..n]);
      SameSearching(h, s, next);
      if symbol.None? {
        hide Sane, Ready, Run, Accept, SymbolStep, ActiveCode, WithSearch, SymbolRun, ActiveSearch, ActivePartition,
             ActiveBlocks, Reading, NeedsRoom;
        ReadingSymbol(h, WithSearch(s, next), input[n..], room);
      }
    }
  }

  function Less(n: nat, k: nat): nat
  {
    if k < n then n - k else 0
  }

  /** The state after `k` more bytes of a copy. */
  function Copied(s: State, k: nat): State
  {
    if s.phase.Copying? && 0 < s.phase.distance <= |s.flat| then
      s.(flat := OverlappingCopy(s.flat, s.phase.distance, k), remaining := Less(s.remaining, k),
         phase := Copying(Less(s.phase.count, k), s.phase.distance))
    else s
  }

  lemma CopiedNone(s: State)
    ensures Copied(s, 0) == s
  {
  }

  lemma CopiedMore(s: State, k: nat)
    ensures Copied(s, k + 1) == Copied(Copied(s, k), 1)
  {
    if s.phase.Copying? && 0 < s.phase.distance <= |s.flat| {
      var f, d := s.flat, s.phase.distance;
      var g := OverlappingCopy(f, d, k);
      assert OverlappingCopy(g, d, 1) == OverlappingCopy(g, d, 0) + [g[|g| - d]];
    }
  }

  /** Copying a chunk at once is copying its bytes one by one. */
  lemma {:induction false} CopyRun(h: Header, s: State, input: seq<bool>, room: nat, k: nat)
    requires Sane(h, s) && s.phase.Copying? && k <= s.phase.count && k <= room
    ensures Sane(h, Copied(s, k)) && Copied(s, k).phase.Copying? && Copied(s, k).phase.count == s.phase.count - k
    ensures Run(h, s, input, room) == Run(h, Copied(s, k), input, room - k)
    decreases k
  {
    hide Sane, Run, Copied;
    CopiedNone(s);
    if k > 0 {
      CopyRun(h, s, input, room, k - 1);
      CopiedMore(s, k - 1);
      CopyOne(h, Copied(s, k - 1), input, room - (k - 1));
    }
  }

  lemma CopyOne(h: Header, s: State, input: seq<bool>, room: nat)
    requires Sane(h, s) && s.phase.Copying? && s.phase.count > 0 && room > 0
    ensures Sane(h, Copied(s, 1)) && Copied(s, 1).phase.Copying? && Copied(s, 1).phase.count == s.phase.count - 1
    ensures Run(h, s, input, room) == Run(h, Copied(s, 1), input, room - 1)
  {
    ReachInside(h, s.flat);
    CopyOfOne(s.flat, s.phase.distance);
    hide Run, OverlappingCopy;
    OneStep(h, s, input, room);
    assert input[..0] == [] && input[0..] == input;
  }

  lemma CopyOfOne(flat: seq<Byte>, distance: nat)
    requires 0 < distance <= |flat|
    ensures OverlappingCopy(flat, distance, 1) == flat + [flat[|flat| - distance]]
  {
    assert OverlappingCopy(flat, distance, 1) == OverlappingCopy(flat, distance, 0) + [flat[|flat| - distance]];
  }

  /** The state after `k` more bytes of a dictionary word. */
  function Drained(s: State, k: nat): State
  {
    if s.phase.DictionaryWord? && s.phase.offset + k <= |s.phase.bytes| && k > 0 then
      var end := s.phase.offset + k;
      s.(flat := s.flat + s.phase.bytes[s.phase.offset..end], remaining := Less(s.remaining, k),
         phase := if end == |s.phase.bytes| then Command else DictionaryWord(s.phase.bytes, end))
    else s
  }

  lemma DrainedMore(s: State, k: nat)
    requires s.phase.DictionaryWord? && 0 < k && s.phase.offset + k < |s.phase.bytes|
    ensures Drained(s, k).phase == DictionaryWord(s.phase.bytes, s.phase.offset + k)
    ensures Drained(s, k + 1) == Drained(Drained(s, k), 1)
  {
    var bytes, o := s.phase.bytes, s.phase.offset;
    assert s.flat + bytes[o..o + k] + bytes[o + k..o + k + 1] == s.flat + bytes[o..o + k + 1];
  }

  /** And so is draining a dictionary word. */
  lemma {:induction false} WordRun(h: Header, s: State, input: seq<bool>, room: nat, k: nat)
    requires Sane(h, s) && s.phase.DictionaryWord? && 0 < k <= room && s.phase.offset + k <= |s.phase.bytes|
    ensures Sane(h, Drained(s, k)) && Run(h, s, input, room) == Run(h, Drained(s, k), input, room - k)
    decreases k
  {
    hide Sane, Run, Drained;
    if k == 1 {
      WordOne(h, s, input, room);
    } else {
      WordRun(h, s, input, room, k - 1);
      DrainedMore(s, k - 1);
      WordOne(h, Drained(s, k - 1), input, room - (k - 1));
    }
  }

  lemma WordOne(h: Header, s: State, input: seq<bool>, room: nat)
    requires Sane(h, s) && s.phase.DictionaryWord? && s.phase.offset < |s.phase.bytes| && room > 0
    ensures Sane(h, Drained(s, 1)) && Run(h, s, input, room) == Run(h, Drained(s, 1), input, room - 1)
  {
    OneStep(h, s, input, room);
    assert input[..0] == [] && input[0..] == input;
    hide Run;
    assert s.phase.bytes[s.phase.offset..s.phase.offset + 1] == [s.phase.bytes[s.phase.offset]];
  }

  datatype Outcome = Continue | Halt(status: Status)

  /** Bits, bytes or rank went down. */
  ghost predicate Lower(h: Header, s: State, bits: seq<bool>, t: State, left: seq<bool>)
  {
    || |left| + t.remaining < |bits| + s.remaining
    || (|left| + t.remaining == |bits| + s.remaining && Rank(h, t) < Rank(h, s))
  }

  /** What one round of the loop has to do with the machine's run from where it started. */
  ghost predicate Advances(h: Header, s: State, bits: seq<bool>, room: nat, t: State, left: seq<bool>, o: Outcome)
  {
    && Sane(h, s)
    && match o
       case Continue =>
         && Sane(h, t) && s.flat <= t.flat && |t.flat| - |s.flat| <= room
         && Run(h, s, bits, room) == Run(h, t, left, room - (|t.flat| - |s.flat|)) && Lower(h, s, bits, t, left)
       case Halt(Failed(e)) => Run(h, s, bits, room).status == Failed(e)
       case Halt(status) => Run(h, s, bits, room) == Stop(t, left, status)
  }

  /** A single step that takes no bits. */
  lemma SilentStep(h: Header, s: State, bits: seq<bool>, room: nat)
    requires Sane(h, s) && !s.phase.Finished? && !NeedsRoom(s) && BitsNeeded(h, s) == 0
    ensures match Step(h, s, [])
            case Err(e) => Advances(h, s, bits, room, s, bits, Halt(Failed(e)))
            case Ok(t) => Advances(h, s, bits, room, t, bits, Continue)
  {
    BitsStep(h, s, bits, room);
    assert bits[..0] == [] && bits[0..] == bits;
  }

  /** A single step that waits for no room. */
  lemma BitsStep(h: Header, s: State, bits: seq<bool>, room: nat)
    requires Sane(h, s) && !s.phase.Finished? && !NeedsRoom(s)
    ensures var n := BitsNeeded(h, s);
            && (|bits| < n ==> Advances(h, s, bits, room, s, bits, Halt(NeedInput)))
            && (|bits| >= n ==> StepAdvances(h, s, bits, room, Step(h, s, bits[..n]), bits[n..]))
  {
    OneStep(h, s, bits, room);
    var n := BitsNeeded(h, s);
    if |bits| >= n && Step(h, s, bits[..n]).Ok? {
      var t := StepKeeps(h, s, bits[..n]);
      StepWrites(h, s, bits[..n]);
    }
  }

  ghost predicate StepAdvances(h: Header, s: State, bits: seq<bool>, room: nat, next: Result<State, Error>,
                               left: seq<bool>)
  {
    match next
    case Err(e) => Advances(h, s, bits, room, s, left, Halt(Failed(e)))
    case Ok(t) => Advances(h, s, bits, room, t, left, Continue)
  }

  /** A round that stops within a block switch. */
  lemma RoundSwitch(h: Header, s: State, bits: seq<bool>, room: nat, b: BlockState, left: seq<bool>)
    requires Sane(h, s) && Reading(s) && (NeedsRoom(s) ==> room > 0)
    requires SwitchRun(ActivePartition(h, s), ActiveBlocks(s), bits) == (b, false, left)
    ensures Advances(h, s, bits, room, WithBlocks(s, b), left, Halt(NeedInput))
  {
    hide Sane, Run, SwitchRun, ActivePartition, ActiveBlocks;
    ReadingSwitch(h, s, bits, room);
  }

  /** A round that reads a symbol, or stops within it. */
  lemma RoundSymbol(h: Header, s: State, bits: seq<bool>, room: nat, b: BlockState, middle: seq<bool>,
                    search: Search, symbol: Option<nat>, left: seq<bool>)
    requires Sane(h, s) && Reading(s) && (NeedsRoom(s) ==> room > 0)
    requires SwitchRun(ActivePartition(h, s), ActiveBlocks(s), bits) == (b, true, middle)
    requires var t := WithBlocks(s, b); SymbolRun(ActiveCode(h, t), ActiveSearch(t), middle) == (search, symbol, left)
    ensures var t := WithSearch(WithBlocks(s, b), search);
            && (symbol.None? ==> Advances(h, s, bits, room, t, left, Halt(NeedInput)))
            && (symbol.Some? ==> StepAdvances(h, s, bits, room, Accept(h, t, symbol.value), left))
  {
    var t := WithBlocks(s, b);
    ReadingSwitch(h, s, bits, room);
    SameReading(h, s, b);
    ReadingSymbol(h, t, middle, room);
    if symbol.Some? && Accept(h, WithSearch(t, search), symbol.value).Ok? {
      var u := AcceptKeeps(h, t, symbol.value, search);
      SwitchLowersRank(h, s, b);
      AcceptWrites(h, t, search, symbol.value);
      hide *;
      AcceptedAdvances(h, s, t, u, bits, middle, left, room);
    }
  }

  lemma AcceptedAdvances(h: Header, s: State, t: State, u: State, bits: seq<bool>, middle: seq<bool>, left: seq<bool>,
                         room: nat)
    requires Sane(h, s) && Sane(h, t) && Sane(h, u) && t.flat == s.flat && t.remaining == s.remaining &&
             Rank(h, t) <= Rank(h, s)
    requires Run(h, s, bits, room) == Run(h, t, middle, room) &&
             Run(h, t, middle, room) == Run(h, u, left, Room(room, t, u))
    requires Progress(h, t, 0, u) && s.flat <= u.flat && |u.flat| <= |s.flat| + room && |left| <= |middle| <= |bits|
    ensures Advances(h, s, bits, room, u, left, Continue)
  {
    hide *;
    AcceptedRoom(room, s, t, u);
    AcceptedLower(h, s, t, u, |bits|, |left|);
    AdvancesIf(h, s, bits, room, u, left, Run(h, s, bits, room), Run(h, u, left, Room(room, t, u)));
  }

  lemma AcceptedRoom(room: nat, s: State, t: State, u: State)
    requires t.flat == s.flat && |s.flat| <= |u.flat| <= |s.flat| + room
    ensures Room(room, t, u) == room - (|u.flat| - |s.flat|)
  {
  }

  lemma AcceptedLower(h: Header, s: State, t: State, u: State, bits: nat, left: nat)
    requires t.remaining == s.remaining && Rank(h, t) <= Rank(h, s) && Progress(h, t, 0, u) && left <= bits
    ensures left + u.remaining < bits + s.remaining || (left + u.remaining == bits + s.remaining &&
                                                        Rank(h, u) < Rank(h, s))
  {
    hide Rank;
  }

  lemma AdvancesIf(h: Header, s: State, bits: seq<bool>, room: nat, u: State, left: seq<bool>, whole: Stop, part: Stop)
    requires Sane(h, s) && Sane(h, u) && s.flat <= u.flat && |u.flat| - |s.flat| <= room
    requires whole == part == Run(h, s, bits, room) && part == Run(h, u, left, room - (|u.flat| - |s.flat|))
    requires |left| + u.remaining < |bits| + s.remaining || (|left| + u.remaining == |bits| + s.remaining &&
                                                             Rank(h, u) < Rank(h, s))
    ensures Advances(h, s, bits, room, u, left, Continue)
  {
    hide Sane, Run, Rank;
  }

  lemma SwitchLowersRank(h: Header, s: State, b: BlockState)
    requires Reading(s) && Ready(ActivePartition(h, s), b)
    ensures Rank(h, WithBlocks(s, b)) <= Rank(h, s) && WithBlocks(s, b).remaining == s.remaining &&
            WithBlocks(s, b).flat == s.flat
  {
  }

  lemma AcceptWrites(h: Header, s: State, search: Search, symbol: nat)
    requires Reading(s) && Accept(h, WithSearch(s, search), symbol).Ok?
    ensures var u := Accept(h, WithSearch(s, search), symbol).value;
            s.flat <= u.flat && |u.flat| <= |s.flat| + if NeedsRoom(s) then 1 else 0
  {
    hide Decoded, AlphabetSize, ExtraBitsRead, FromSymbol;
  }

  /** After an error it does not matter what state is left behind. */
  lemma FailedAnyhow(h: Header, s: State, bits: seq<bool>, room: nat, left: seq<bool>, e: Error)
    requires exists t, more :: Advances(h, s, bits, room, t, more, Halt(Failed(e)))
    ensures forall t :: Advances(h, s, bits, room, t, left, Halt(Failed(e)))
  {
  }

  /** Decoder state for one metablock. */
  class CompressedBlock {
    const header: Header
    var literalBlocks: BlockState
    var commandBlocks: BlockState
    var distanceBlocks: BlockState
    var literalSymbol: Search
    var commandSymbol: Search
    var distanceSymbol: Search
    var remaining: nat
    var phase: Phase

    constructor (header: Header, literals: BlockState, commands: BlockState, distances: BlockState, length: nat)
      ensures this.header == header && literalBlocks == literals && commandBlocks == commands &&
              distanceBlocks == distances
      ensures literalSymbol == NoSearch() && commandSymbol == NoSearch() && distanceSymbol == NoSearch()
      ensures remaining == length && phase == Command
    {
      this.header, literalBlocks, commandBlocks, distanceBlocks := header, literals, commands, distances;
      literalSymbol, commandSymbol, distanceSymbol := NoSearch(), NoSearch(), NoSearch();
      remaining, phase := length, Command;
    }

    /** The machine's view of this object with the history and the ring it works on. */
    ghost function Abs(history: History, recent: RecentDistances): State
      reads this, history, recent
    {
      State(literalBlocks, commandBlocks, distanceBlocks, literalSymbol, commandSymbol, distanceSymbol, remaining,
            phase,
            recent.ring, history.flat)
    }

    /** A command symbol; its lengths come next. */
    method ReadCommand(bits: seq<bool>, ghost room: nat, ghost history: History, ghost recent: RecentDistances)
      returns (o: Outcome, left: seq<bool>)
      requires Sane(header, Abs(history, recent)) && phase.Command? && remaining > 0
      modifies this
      ensures Advances(header, old(Abs(history, recent)), bits, room, Abs(history, recent), left, o)
    {
      hide Sane, Advances, SwitchRun, SymbolRun, FromSymbol, Consumed, CurrentType;
      ghost var s := Abs(history, recent);
      var b, ready, middle := CurrentBlock(header.commands, commandBlocks, bits);
      commandBlocks := b;
      if !ready {
        RoundSwitch(header, s, bits, room, b, middle);
        return Halt(NeedInput), middle;
      }
      var tree := header.commandTree(CurrentType(header.commands, b));
      var search, symbol;
      search, symbol, left := DecodeSymbol(tree, commandSymbol, middle);
      RoundSymbol(header, s, bits, room, b, middle, search, symbol, left);
      commandSymbol := search;
      if symbol.None? {
        return Halt(NeedInput), left;
      }
      commandBlocks := Consumed(header.commands, b);
      if symbol.value >= COMMAND_SYMBOL_COUNT {
        FailedAnyhow(header, s, bits, room, left, BadSymbol);
        return Halt(Failed(BadSymbol)), left;
      }
      phase := CommandExtra(FromSymbol(symbol.value), None);
      o := Continue;
    }
  
    /** A literal, written as soon as it is complete. */
    method ReadLiteral(bits: seq<bool>, output: array<Byte>, at: nat, history: History, ghost recent: RecentDistances)
      returns (o: Outcome, left: seq<bool>, n: nat)
      requires Sane(header, Abs(history, recent)) && phase.Literals? && phase.count > 0
      requires history.Valid() && at < output.Length
      modifies this, history, output
      ensures Advances(header, old(Abs(history, recent)), bits, output.Length - at, Abs(history, recent), left, o)
      ensures n == |history.flat| - |old(history.flat)|
      ensures history.Valid() && WritesTo(old(output[..]), output[..], at, old(history.flat), history.flat)
    {
      hide Sane, Advances, SwitchRun, SymbolRun, Consumed, CurrentType, History.Valid, WritesTo;
      ghost var s := Abs(history, recent);
      ghost var room: nat := output.Length - at;
      WritesNothing(output[..], at, history.flat);
      var b, ready, middle := CurrentBlock(header.literals, literalBlocks, bits);
      literalBlocks := b;
      if !ready {
        RoundSwitch(header, s, bits, room, b, middle);
        return Halt(NeedInput), middle, 0;
      }
      var previous, secondPrevious := PreviousBytes(history);
      var tree := header.literalTree(CurrentType(header.literals, b), previous, secondPrevious);
      var search, symbol;
      search, symbol, left := DecodeSymbol(tree, literalSymbol, middle);
      RoundSymbol(header, s, bits, room, b, middle, search, symbol, left);
      literalSymbol := search;
      if symbol.None? {
        return Halt(NeedInput), left, 0;
      }
      var literal: Byte := if symbol.value < 256 then symbol.value else symbol.value % 256;
      WritesOne(output[..], at, history.flat, literal);
      output[at] := literal;
      history.Push(literal);
      literalBlocks := Consumed(header.literals, b);
      CountsDown(header, s);
      remaining := remaining - 1;
      phase := Literals(phase.count - 1, phase.copyLength, phase.implicit);
      o, n := Continue, 1;
    }

    /** A distance symbol: resolved at once, or with extra bits to come. */
    method ReadDistance(bits: seq<bool>, ghost room: nat, ghost history: History, recent: RecentDistances)
      returns (o: Outcome, left: seq<bool>)
      requires Sane(header, Abs(history, recent)) && phase.DistanceSymbol?
      modifies this
      ensures Advances(header, old(Abs(history, recent)), bits, room, Abs(history, recent), left, o)
    {
      hide Sane, Advances, SwitchRun, SymbolRun, Consumed, CurrentType, Decoded, AlphabetSize, ExtraBitsRead;
      ghost var s := Abs(history, recent);
      var b, ready, middle := CurrentBlock(header.distances, distanceBlocks, bits);
      distanceBlocks := b;
      if !ready {
        RoundSwitch(header, s, bits, room, b, middle);
        return Halt(NeedInput), middle;
      }
      var tree := header.distanceTree(CurrentType(header.distances, b), DistanceContext(phase.copyLength));
      var search, symbol;
      search, symbol, left := DecodeSymbol(tree, distanceSymbol, middle);
      RoundSymbol(header, s, bits, room, b, middle, search, symbol, left);
      distanceSymbol := search;
      if symbol.None? {
        return Halt(NeedInput), left;
      }
      distanceBlocks := Consumed(header.distances, b);
      if symbol.value < AlphabetSize(header.directCodes, header.postfixBits) &&
         ExtraBitsRead(symbol.value, header.directCodes, header.postfixBits) > 0 {
        phase := DistanceExtra(phase.copyLength, Extra(symbol.value));
        return Continue, left;
      }
      var distance := Decoded(recent.ring, symbol.value, 0, header.directCodes, header.postfixBits);
      match distance {
        case Err(e) =>
          FailedAnyhow(header, s, bits, room, left, BadDistance(e));
          return Halt(Failed(BadDistance(e))), left;
        case Ok(d) =>
          phase := DistanceExtra(phase.copyLength, Resolved(d));
          return Continue, left;
      }
    }

    /** The extra bits of one of the command's lengths. */
    method ReadLength(bits: seq<bool>, ghost room: nat, ghost history: History, ghost recent: RecentDistances)
      returns (o: Outcome, left: seq<bool>)
      requires Sane(header, Abs(history, recent)) && phase.CommandExtra?
      modifies `phase
      ensures Advances(header, old(Abs(history, recent)), bits, room, Abs(history, recent), left, o)
    {
      hide Sane, Advances, FromLsb, Lengths.Bits, Lengths.Base;
      ghost var s := Abs(history, recent);
      var spec, insert := phase.spec, phase.insert;
      SpecInRange(header, s);
      BitsStep(header, s, bits, room);
      var n := if insert.None? then Insert.Bits(spec.insertCode) else Copy.Bits(spec.copyCode);
      if |bits| < n {
        return Halt(NeedInput), bits;
      }
      left := bits[n..];
      var extra := FromLsb(bits[..n]);
      if insert.None? {
        phase := CommandExtra(spec, Some(Insert.Base(spec.insertCode) + extra));
        return Continue, left;
      }
      if insert.value > remaining {
        FailedAnyhow(header, s, bits, room, left, MetaBlockOverflow);
        return Halt(Failed(MetaBlockOverflow)), left;
      }
      phase := Literals(insert.value, Copy.Base(spec.copyCode) + extra, spec.implicitDistanceZero);
      o := Continue;
    }

    /** Starts a copy within reach or a dictionary word beyond it. */
    method StartCopy(copyLength: nat, distance: nat, history: History, ghost recent: RecentDistances)
      returns (error: Option<Error>)
      requires history.Valid() && history.windowSize == header.windowSize
      modifies `phase
      ensures match BeginCopy(header, old(Abs(history, recent)), copyLength, distance)
              case Err(e) => error == Some(e)
              case Ok(t) => error == None && Abs(history, recent) == t
    {
      hide Transform;
      var maxBackward := history.MaxBackwardDistance();
      if distance > maxBackward {
        var bytes := Transform(header.words, distance, copyLength, maxBackward);
        match bytes {
          case Err(e) => return Some(BadWord(e));
          case Ok(word) =>
            if |word| > remaining {
              return Some(MetaBlockOverflow);
            }
            phase := DictionaryWord(word, 0);
            return None;
        }
      }
      if copyLength > remaining {
        return Some(MetaBlockOverflow);
      }
      phase := Copying(copyLength, distance);
      return None;
    }

    /** After the literals: the end, the last distance again, or a distance symbol. */
    method AfterLiterals(ghost bits: seq<bool>, ghost room: nat, history: History, recent: RecentDistances)
      returns (o: Outcome)
      requires Sane(header, Abs(history, recent)) && phase.Literals? && phase.count == 0
      requires history.Valid() && history.windowSize == header.windowSize
      modifies `phase
      ensures Advances(header, old(Abs(history, recent)), bits, room, Abs(history, recent), bits, o)
    {
      hide Sane, Advances, BeginCopy;
      ghost var s := Abs(history, recent);
      SilentStep(header, s, bits, room);
      if remaining == 0 {
        phase := Finished;
        return Continue;
      }
      if phase.implicit {
        var error := StartCopy(phase.copyLength, recent.ring.last, history, recent);
        if error.Some? {
          FailedAnyhow(header, s, bits, room, bits, error.value);
          return Halt(Failed(error.value));
        }
        return Continue;
      }
      phase := DistanceSymbol(phase.copyLength);
      return Continue;
    }

    /** The distance's extra bits, then the copy; a distance within reach is remembered. */
    method ReadDistanceExtra(bits: seq<bool>, ghost room: nat, history: History, recent: RecentDistances)
      returns (o: Outcome, left: seq<bool>)
      requires Sane(header, Abs(history, recent)) && phase.DistanceExtra?
      requires history.Valid() && history.windowSize == header.windowSize
      modifies `phase, recent
      ensures Advances(header, old(Abs(history, recent)), bits, room, Abs(history, recent), left, o)
    {
      ghost var s := Abs(history, recent);
      var copyLength, pending := phase.copyLength, phase.pending;
      assert pending.Extra? ==> pending.symbol >= SHORT_CODE_COUNT + header.directCodes;
      hide Sane, Advances, BeginCopy, FromLsb, FromExtra, ExtraBitsOf;
      BitsStep(header, s, bits, room);
      var n := PendingBits(header, pending);
      if |bits| < n {
        return Halt(NeedInput), bits;
      }
      left := bits[n..];
      var d := match pending
               case Resolved(d) => d
               case Extra(symbol) => Distance(FromExtra(symbol, FromLsb(bits[..n]), header.directCodes,
                                                        header.postfixBits), true);
      var error := StartCopy(copyLength, d.value, history, recent);
      if error.Some? {
        FailedAnyhow(header, s, bits, room, left, error.value);
        return Halt(Failed(error.value)), left;
      }
      if d.shouldPush && phase.Copying? {
        recent.Push(d.value);
      }
      o := Continue;
    }

    /** As much of the copy as there is room for. */
    method CopyChunk(ghost bits: seq<bool>, output: array<Byte>, at: nat, history: History,
                     ghost recent: RecentDistances) returns (o: Outcome, n: nat)
      requires Sane(header, Abs(history, recent)) && phase.Copying? && phase.count > 0
      requires history.Valid() && history.windowSize == header.windowSize && at < output.Length
      modifies `phase, `remaining, history, output
      ensures Advances(header, old(Abs(history, recent)), bits, output.Length - at, Abs(history, recent), bits, o)
      ensures n == |history.flat| - |old(history.flat)|
      ensures history.Valid() && WritesTo(old(output[..]), output[..], at, old(history.flat), history.flat)
    {
      ghost var s := Abs(history, recent);
      ghost var room: nat := output.Length - at;
      CopyInReach(header, s);
      hide Sane, Advances, WritesTo, History.Valid;
      var count, distance := phase.count, phase.distance;
      var produced := history.CopyInto(distance, count, output, at);
      assert produced.Ok?;
      ChunkAdvances(header, s, bits, room, produced.value);
      WritesChunk(old(output[..]), output[..], at, s.flat, history.flat);
      remaining := remaining - produced.value;
      phase := Copying(count - produced.value, distance);
      o, n := Continue, produced.value;
    }

    /** As much of the dictionary word as there is room for. */
    method DrainWord(ghost bits: seq<bool>, output: array<Byte>, at: nat, history: History,
                     ghost recent: RecentDistances) returns (o: Outcome, n: nat)
      requires Sane(header, Abs(history, recent)) && phase.DictionaryWord? && history.Valid() && at < output.Length
      modifies `phase, `remaining, history, output
      ensures Advances(header, old(Abs(history, recent)), bits, output.Length - at, Abs(history, recent), bits, o)
      ensures n == |history.flat| - |old(history.flat)|
      ensures history.Valid() && WritesTo(old(output[..]), output[..], at, old(history.flat), history.flat)
    {
      hide Sane, Advances, WritesTo, History.Valid, Spliced, Reach, Drained;
      ghost var s := Abs(history, recent);
      ghost var room: nat := output.Length - at;
      var bytes, offset := phase.bytes, phase.offset;
      WordInRange(header, s);
      var produced := Min(|bytes| - offset, output.Length - at);
      var end := offset + produced;
      var chunk := bytes[offset..end];
      WordAdvances(header, s, bits, room, produced, chunk);
      WritesChunk(output[..], Spliced(output[..], at, chunk), at, s.flat, s.flat + chunk);
      WriteChunk(chunk, output, at, history);
      remaining := remaining - produced;
      phase := if end == |bytes| then Command else DictionaryWord(bytes, end);
      o, n := Continue, produced;
    }

    /** Nothing to wait for: the next round takes no bits and writes nothing. */
    method Silent(ghost bits: seq<bool>, ghost room: nat, ghost history: History, ghost recent: RecentDistances)
      requires Sane(header, Abs(history, recent)) && ((phase.Command? && remaining == 0) ||
                                                      (phase.Copying? && phase.count == 0))
      modifies `phase
      ensures Advances(header, old(Abs(history, recent)), bits, room, Abs(history, recent), bits, Continue)
    {
      hide Sane, Advances;
      SilentStep(header, Abs(history, recent), bits, room);
      phase := if phase.Command? then Finished else Command;
    }

    /** One round of the loop. */
    method Round(bits: seq<bool>, output: array<Byte>, at: nat, history: History, recent: RecentDistances)
      returns (o: Outcome, left: seq<bool>, n: nat)
      requires Sane(header, Abs(history, recent)) && history.Valid() && history.windowSize == header.windowSize &&
               at <= output.Length
      modifies this, history, recent, output
      ensures Advances(header, old(Abs(history, recent)), bits, output.Length - at, Abs(history, recent), left, o)
      ensures n == |history.flat| - |old(history.flat)|
      ensures history.Valid() && WritesTo(old(output[..]), output[..], at, old(history.flat), history.flat)
    {
      hide Sane, Advances, History.Valid, WritesTo;
      ghost var room: nat := output.Length - at;
      WritesNothing(output[..], at, history.flat);
      left, n := bits, 0;
      match phase {
        case Command =>
          if remaining == 0 {
            Silent(bits, room, history, recent);
            o := Continue;
          } else {
            o, left := ReadCommand(bits, room, history, recent);
          }
        case CommandExtra(_, _) =>
          o, left := ReadLength(bits, room, history, recent);
        case Literals(count, _, _) =>
          if count == 0 {
            o := AfterLiterals(bits, room, history, recent);
          } else if at == output.Length {
            Waits(header, Abs(history, recent), bits);
            o := Halt(NeedOutput);
          } else {
            o, left, n := ReadLiteral(bits, output, at, history, recent);
          }
        case DistanceSymbol(_) =>
          o, left := ReadDistance(bits, room, history, recent);
        case DistanceExtra(_, _) =>
          o, left := ReadDistanceExtra(bits, room, history, recent);
        case Copying(count, _) =>
          if count == 0 {
            Silent(bits, room, history, recent);
            o := Continue;
          } else if at == output.Length {
            Waits(header, Abs(history, recent), bits);
            o := Halt(NeedOutput);
          } else {
            o, n := CopyChunk(bits, output, at, history, recent);
          }
        case DictionaryWord(_, _) =>
          if at == output.Length {
            Waits(header, Abs(history, recent), bits);
            o := Halt(NeedOutput);
          } else {
            o, n := DrainWord(bits, output, at, history, recent);
          }
        case Finished =>
          Stops(header, Abs(history, recent), bits, room);
          o := Halt(Done);
      }
    }

    /** Executes commands until bits or room run out, the metablock ends, or something is wrong. It does
        what the machine does step by step, and every call terminates. */
    method Process(bits: seq<bool>, output: array<Byte>, history: History, recent: RecentDistances)
      returns (status: Status, left: seq<bool>, produced: nat)
      requires Sane(header, Abs(history, recent)) && history.Valid() && history.windowSize == header.windowSize
      modifies this, history, recent, output
      ensures history.Valid() && old(history.flat) <= history.flat &&
              produced == |history.flat| - |old(history.flat)| <= output.Length
      ensures output[..] == Spliced(old(output[..]), 0, history.flat[|old(history.flat)|..])
      ensures status == Run(header, old(Abs(history, recent)), bits, output.Length).status
      ensures !status.Failed? ==>
                && Sane(header, Abs(history, recent))
                && Run(header, old(Abs(history, recent)), bits, output.Length) ==
                   Stop(Abs(history, recent), left, status)
    {
      hide Sane, Advances, History.Valid, WritesTo, OnTrack, Lower, Rank, Run;
      ghost var s, was := Abs(history, recent), output[..];
      ghost var room := output.Length;
      left, produced := bits, 0;
      WritesNothing(was, 0, s.flat);
      StartOnTrack(header, s, bits, room);
      while true
        invariant history.Valid() && OnTrack(header, s, bits, room, Abs(history, recent), left, produced)
        invariant WritesTo(was, output[..], 0, s.flat, history.flat) && history.windowSize == header.windowSize
        decreases |left| + remaining, Rank(header, Abs(history, recent))
      {
        ghost var t, now, before := Abs(history, recent), output[..], left;
        TrackFacts(header, s, bits, room, t, left, produced);
        var o, n;
        o, left, n := Round(left, output, produced, history, recent);
        WritesOn(was, now, output[..], produced, s.flat, t.flat, history.flat);
        produced := produced + n;
        match o {
          case Continue =>
            KeepTrack(header, s, bits, room, t, before, |t.flat| - |s.flat|, Abs(history, recent), left);
          case Halt(end) =>
            StopOnTrack(header, s, bits, room, t, before, |t.flat| - |s.flat|, Abs(history, recent), left, end);
            WritesFacts(was, output[..], s.flat, history.flat);
            return end, left, produced;
        }
      }
    }
  }

  /** The run from the start goes on from here. */
  ghost predicate OnTrack(h: Header, s: State, bits: seq<bool>, room: nat, t: State, left: seq<bool>, produced: nat)
  {
    && Sane(h, s) && Sane(h, t) && s.flat <= t.flat && produced == |t.flat| - |s.flat| <= room
    && Run(h, s, bits, room) == Run(h, t, left, room - produced)
  }

  lemma StartOnTrack(h: Header, s: State, bits: seq<bool>, room: nat)
    requires Sane(h, s)
    ensures OnTrack(h, s, bits, room, s, bits, 0)
  {
  }

  lemma TrackFacts(h: Header, s: State, bits: seq<bool>, room: nat, t: State, left: seq<bool>, produced: nat)
    requires OnTrack(h, s, bits, room, t, left, produced)
    ensures Sane(h, t) && s.flat <= t.flat && produced == |t.flat| - |s.flat| <= room
  {
  }

  lemma KeepTrack(h: Header, s: State, bits: seq<bool>, room: nat, t: State, left: seq<bool>, produced: nat, u: State,
                  more: seq<bool>)
    requires OnTrack(h, s, bits, room, t, left, produced) && Advances(h, t, left, room - produced, u, more, Continue)
    ensures OnTrack(h, s, bits, room, u, more, |u.flat| - |s.flat|)
    ensures |more| + u.remaining < |left| + t.remaining || (|more| + u.remaining == |left| + t.remaining &&
                                                            Rank(h, u) < Rank(h, t))
  {
    hide Sane, Run, Rank;
  }

  lemma StopOnTrack(h: Header, s: State, bits: seq<bool>, room: nat, t: State, left: seq<bool>, produced: nat, u: State,
                    more: seq<bool>, end: Status)
    requires OnTrack(h, s, bits, room, t, left, produced) && Advances(h, t, left, room - produced, u, more, Halt(end))
    ensures Run(h, s, bits, room).status == end
    ensures !end.Failed? ==> Sane(h, u) && Run(h, s, bits, room) == Stop(u, more, end)
  {
    hide Sane, Rank;
  }

  /** One stretch of output after another. */
  lemma WritesOn(was: seq<Byte>, now: seq<Byte>, next: seq<Byte>, at: nat, start: seq<Byte>, before: seq<Byte>,
                 after: seq<Byte>)
    requires WritesTo(was, now, 0, start, before) && WritesTo(now, next, at, before, after) && at == |before| - |start|
    ensures WritesTo(was, next, 0, start, after) && before <= after
  {
    SplicedTwice(was, 0, before[|start|..], after[|before|..]);
    assert after[|start|..] == before[|start|..] + after[|before|..];
  }

  lemma WritesFacts(was: seq<Byte>, now: seq<Byte>, before: seq<Byte>, after: seq<Byte>)
    requires WritesTo(was, now, 0, before, after)
    ensures before <= after && |after| - |before| <= |was| && now == Spliced(was, 0, after[|before|..])
  {
  }

  /** Output is full where the machine waits for room. */
  lemma Waits(h: Header, s: State, bits: seq<bool>)
    requires Sane(h, s) && !s.phase.Finished? && NeedsRoom(s)
    ensures Advances(h, s, bits, 0, s, bits, Halt(NeedOutput))
  {
  }

  lemma Stops(h: Header, s: State, bits: seq<bool>, room: nat)
    requires Sane(h, s) && s.phase.Finished?
    ensures Advances(h, s, bits, room, s, bits, Halt(Done))
  {
  }

  lemma SpecInRange(h: Header, s: State)
    requires Sane(h, s) && s.phase.CommandExtra?
    ensures s.phase.spec.insertCode < LENGTH_CODES && s.phase.spec.copyCode < LENGTH_CODES
  {
  }

  lemma CopyInReach(h: Header, s: State)
    requires Sane(h, s) && s.phase.Copying?
    ensures 0 < s.phase.distance <= Min(|s.flat|, h.windowSize) && s.phase.count <= s.remaining
  {
  }

  lemma ChunkAdvances(h: Header, s: State, bits: seq<bool>, room: nat, k: nat)
    requires Sane(h, s) && s.phase.Copying? && 0 < k <= s.phase.count && k <= room
    ensures 0 < s.phase.distance <= |s.flat| && k <= s.remaining
    ensures Advances(h, s, bits, room, s.(flat := OverlappingCopy(s.flat, s.phase.distance, k),
                                          remaining := s.remaining - k,
                                          phase := Copying(s.phase.count - k, s.phase.distance)), bits, Continue)
  {
    CopyInReach(h, s);
    CopyRun(h, s, bits, room, k);
    hide Sane, Run, Rank;
  }

  /** Bytes go to the output and into the history. */
  method WriteChunk(chunk: seq<Byte>, output: array<Byte>, at: nat, history: History)
    requires history.Valid() && at + |chunk| <= output.Length
    modifies history, output
    ensures history.Valid() && history.flat == old(history.flat) + chunk &&
            output[..] == Spliced(old(output[..]), at, chunk)
  {
    hide History.Valid, Spliced;
    Store(chunk, output, at);
    history.PushSlice(chunk);
  }

  lemma WordInRange(h: Header, s: State)
    requires Sane(h, s) && s.phase.DictionaryWord?
    ensures s.phase.offset <= |s.phase.bytes| <= s.remaining + s.phase.offset
    ensures s.phase.bytes != [] ==> s.phase.offset < |s.phase.bytes|
  {
  }

  lemma WordAdvances(h: Header, s: State, bits: seq<bool>, room: nat, k: nat, chunk: seq<Byte>)
    requires Sane(h, s) && s.phase.DictionaryWord? && room > 0 && s.phase.offset <= |s.phase.bytes|
    requires k == Min(|s.phase.bytes| - s.phase.offset, room) &&
             chunk == s.phase.bytes[s.phase.offset..s.phase.offset + k]
    ensures k <= s.remaining && (s.flat + chunk)[|s.flat|..] == chunk
    ensures var end := s.phase.offset + k;
            Advances(h, s, bits, room, s.(flat := s.flat + chunk, remaining := s.remaining - k,
                     phase := if end == |s.phase.bytes| then Command else DictionaryWord(s.phase.bytes, end)), bits,
                       Continue)
  {
    WordInRange(h, s);
    if s.phase.bytes == [] {
      EmptyWord(h, s, bits, room);
    } else {
      WordRun(h, s, bits, room, k);
      DrainedIs(s, k, chunk);
      hide Sane, Run, Rank, Drained;
    }
  }

  lemma DrainedIs(s: State, k: nat, chunk: seq<Byte>)
    requires s.phase.DictionaryWord? && 0 < k <= s.remaining && s.phase.offset + k <= |s.phase.bytes|
    requires chunk == s.phase.bytes[s.phase.offset..s.phase.offset + k]
    ensures Drained(s, k) == s.(flat := s.flat + chunk, remaining := s.remaining - k,
              phase := if s.phase.offset + k == |s.phase.bytes| then Command
                else DictionaryWord(s.phase.bytes, s.phase.offset + k))
  {
  }

  lemma EmptyWord(h: Header, s: State, bits: seq<bool>, room: nat)
    requires Sane(h, s) && s.phase.DictionaryWord? && s.phase.bytes == [] && s.phase.offset == 0 && room > 0
    ensures Advances(h, s, bits, room, s.(flat := s.flat + [], phase := Command), bits, Continue)
  {
    OneStep(h, s, bits, room);
    assert bits[..0] == [] && bits[0..] == bits && s.flat + [] == s.flat;
    hide Run;
  }

  lemma WritesChunk(was: seq<Byte>, now: seq<Byte>, at: nat, before: seq<Byte>, after: seq<Byte>)
    requires before <= after && at + (|after| - |before|) <= |was| && now == Spliced(was, at, after[|before|..])
    ensures WritesTo(was, now, at, before, after)
  {
  }

  /** What the output gains is what the history gains. */
  ghost predicate WritesTo(was: seq<Byte>, now: seq<Byte>, at: nat, before: seq<Byte>, after: seq<Byte>)
  {
    before <= after && at + (|after| - |before|) <= |was| && now == Spliced(was, at, after[|before|..])
  }

  lemma WritesNothing(was: seq<Byte>, at: nat, flat: seq<Byte>)
    requires at <= |was|
    ensures WritesTo(was, was, at, flat, flat)
  {
    assert flat[|flat|..] == [];
  }

  lemma WritesOne(was: seq<Byte>, at: nat, flat: seq<Byte>, b: Byte)
    requires at < |was|
    ensures WritesTo(was, was[at := b], at, flat, flat + [b])
  {
    assert (flat + [b])[|flat|..] == [b];
  }

  lemma CountsDown(h: Header, s: State)
    requires Sane(h, s) && s.phase.Literals? && s.phase.count > 0
    ensures s.remaining > 0
  {
  }

  method PreviousBytes(history: History) returns (previous: Byte, secondPrevious: Byte)
    requires history.Valid()
    ensures previous == LastByte(history.flat, 0) && secondPrevious == LastByte(history.flat, 1)
  {
    return history.previous, history.secondPrevious;
  }
}
