/** Context maps on the wire (`src/encode/greedy/block_split.rs` against `src/decode/context_map.rs`): run flag and
    width, the code of the run symbols, the symbols with their extra bits, and whether to undo move-to-front; read back
    wherever the bits are cut. */
module ContextMapWire {
  import opened Arithmetic
  import opened HuffmanLengths
  import opened BitStream
  import opened CanonicalTables
  import opened ComplexPrefixDecoder
  import opened BlockStates
  import opened CompressedBlock
  import opened PrefixReading
  import opened PrefixEncodings
  import opened PrefixCodeReading
  import opened ContextMaps
  import opened Outcomes
  import Tokens = ComplexPrefixEncoder

  const MAX_TREES: nat := 256

  /** The map so far, an unfinished codeword, and a run whose extra bits are still to be read. */
  datatype Place = Place(entries: seq<nat>, search: Search, repeat: nat)

  datatype MapStatus = NeedInput | Full | RepeatOverflow

  datatype MapStop = MapStop(place: Place, rest: seq<bool>, status: MapStatus)

  function EntryBits(code: PrefixCode, p: Place): nat
  {
    if p.repeat > 0 then p.repeat else SymbolBits(code)
  }

  /** What a complete symbol does to the map. */
  function WithSymbol(p: Place, search: Search, symbol: nat, rleMax: nat): Place
  {
    if symbol == 0 then Place(p.entries + [0], search, 0)
    else if symbol <= rleMax then Place(p.entries, search, symbol)
    else Place(p.entries + [(symbol - rleMax) % 256], search, 0)
  }

  /** One step on the bits it takes; a run may not reach beyond the end of the map. */
  function EntryStep(code: PrefixCode, rleMax: nat, size: nat, p: Place, bits: seq<bool>): Option<Place>
    requires |bits| == EntryBits(code, p)
  {
    if p.repeat > 0 then
      var count := Pow2(p.repeat) + FromLsb(bits);
      if |p.entries| + count > size then None else Some(Place(p.entries + Zeros(count), p.search, 0))
    else
      var (search, symbol) := SymbolStep(code, p.search, bits);
      match symbol
      case None => Some(p.(search := search))
      case Some(s) => Some(WithSymbol(p, search, s, rleMax))
  }

  /** Steps until the map is full, bits run out, or a run is too long. */
  function ReadEntries(code: PrefixCode, rleMax: nat, size: nat, p: Place, bits: seq<bool>): (stop: MapStop)
    requires |p.entries| <= size
    ensures |stop.place.entries| <= size && |stop.rest| <= |bits|
    decreases |bits|, size - |p.entries|, if p.repeat > 0 then 0 else 1
  {
    var n := EntryBits(code, p);
    if |p.entries| == size && p.repeat == 0 then MapStop(p, bits, Full)
    else if |bits| < n then MapStop(p, bits, NeedInput)
    else
      match EntryStep(code, rleMax, size, p, bits[..n])
      case None => MapStop(p, bits, RepeatOverflow)
      case Some(next) => ReadEntries(code, rleMax, size, next, bits[n..])
  }

  /** The reader does not notice where its input was cut. */
  lemma {:induction false} ReadContinues(code: PrefixCode, rleMax: nat, size: nat, p: Place, bits: seq<bool>,
                                         x: seq<bool>)
    requires |p.entries| <= size
    ensures var stop := ReadEntries(code, rleMax, size, p, bits);
            ReadEntries(code, rleMax, size, p, bits + x) ==
            if stop.status.NeedInput? then ReadEntries(code, rleMax, size, stop.place, stop.rest + x)
            else MapStop(stop.place, stop.rest + x, stop.status)
    decreases |bits|, size - |p.entries|, if p.repeat > 0 then 0 else 1
  {
    var n := EntryBits(code, p);
    if !(|p.entries| == size && p.repeat == 0) && n <= |bits| {
      assert (bits + x)[..n] == bits[..n] && (bits + x)[n..] == bits[n..] + x;
      var next := EntryStep(code, rleMax, size, p, bits[..n]);
      if next.Some? {
        assert |next.value.entries| <= size;
        hide EntryStep, EntryBits;
        ReadContinues(code, rleMax, size, next.value, bits[n..], x);
      }
    }
  }

  /** Reading a symbol bit by bit, and then going on. */
  lemma {:induction false} ReadsSymbol(code: PrefixCode, rleMax: nat, size: nat, p: Place, bits: seq<bool>)
    requires |p.entries| < size && p.repeat == 0 && SymbolRun(code, p.search, bits).1.Some?
    ensures var (search, symbol, left) := SymbolRun(code, p.search, bits);
            ReadEntries(code, rleMax, size, p, bits) == ReadEntries(code, rleMax, size,
                                                                    WithSymbol(p, search, symbol.value, rleMax), left)
    decreases |bits|
  {
    SymbolSteps(code, p.search, bits);
    var n := SymbolBits(code);
    if |bits| >= n {
      var (search, symbol) := SymbolStep(code, p.search, bits[..n]);
      if symbol.None? {
        hide SymbolRun, SymbolStep, SymbolBits;
        ReadsSymbol(code, rleMax, size, p.(search := search), bits[n..]);
      }
    }
  }

  /** What is written for one run symbol. */
  function CodedWord(lengths: seq<nat>, c: Coded, rleMax: nat): seq<bool>
    requires c.symbol < |lengths|
  {
    SymbolWord(lengths, c.symbol) + if 0 < c.symbol <= rleMax then Lsb(c.extra, c.symbol) else []
  }

  /** The symbol has a codeword, and stands for something a map can hold. */
  predicate CodedHasWord(lengths: seq<nat>, c: Coded, rleMax: nat)
  {
    c.symbol < |lengths| && lengths[c.symbol] > 0 && ContextMaps.Writable(c, rleMax) && c.symbol < rleMax + MAX_TREES
  }

  predicate AllHaveWords(lengths: seq<nat>, cs: seq<Coded>, rleMax: nat)
  {
    forall i :: 0 <= i < |cs| ==> CodedHasWord(lengths, cs[i], rleMax)
  }

  function EntriesWords(lengths: seq<nat>, cs: seq<Coded>, rleMax: nat): seq<bool>
    requires AllHaveWords(lengths, cs, rleMax)
  {
    if cs == [] then [] else CodedWord(lengths, cs[0], rleMax) + EntriesWords(lengths, cs[1..], rleMax)
  }

  /** A run symbol and its extra bits are read as the entries they stand for. */
  lemma ReadsCoded(code: PrefixCode, lengths: seq<nat>, rleMax: nat, size: nat, table: seq<nat>, c: Coded,
                   more: seq<bool>)
    requires CodeFor(code, lengths) && CodedHasWord(lengths, c, rleMax) && |table| + |Entry(c, rleMax)| <= size
    ensures ReadEntries(code, rleMax, size, Place(table, NoSearch(), 0), CodedWord(lengths, c, rleMax) + more) ==
            ReadEntries(code, rleMax, size, Place(table + Entry(c, rleMax), NoSearch(), 0), more)
  {
    hide SymbolRun, CodeFor, SymbolWord, Lsb, FromLsb, Pow2, ReadEntries;
    EntryNotEmpty(c, rleMax);
    var p := Place(table, NoSearch(), 0);
    var extra := if 0 < c.symbol <= rleMax then Lsb(c.extra, c.symbol) else [];
    assert CodedWord(lengths, c, rleMax) + more == SymbolWord(lengths, c.symbol) + (extra + more);
    SymbolRoundTrip(code, lengths, c.symbol, extra + more);
    ReadsSymbol(code, rleMax, size, p, SymbolWord(lengths, c.symbol) + (extra + more));
    if 0 < c.symbol <= rleMax {
      ReadsExtra(code, rleMax, size, table, c, more);
    } else {
      assert extra + more == more;
    }
  }

  lemma ReadsExtra(code: PrefixCode, rleMax: nat, size: nat, table: seq<nat>, c: Coded, more: seq<bool>)
    requires 0 < c.symbol <= rleMax && c.extra < Pow2(c.symbol) && |table| + Pow2(c.symbol) + c.extra <= size
    ensures ReadEntries(code, rleMax, size, Place(table, NoSearch(), c.symbol), Lsb(c.extra, c.symbol) + more) ==
            ReadEntries(code, rleMax, size, Place(table + Zeros(Pow2(c.symbol) + c.extra), NoSearch(), 0), more)
  {
    hide Lsb, FromLsb, Pow2;
    ValueOfLsb(c.extra, c.symbol);
    var bits := Lsb(c.extra, c.symbol) + more;
    assert bits[..c.symbol] == Lsb(c.extra, c.symbol) && bits[c.symbol..] == more;
  }

  /** The words of symbols that fill the map exactly are read as the map, and nothing behind them. */
  lemma {:induction false} WordsRead(code: PrefixCode, lengths: seq<nat>, rleMax: nat, size: nat, table: seq<nat>,
                                     cs: seq<Coded>, rest: seq<bool>)
    requires CodeFor(code, lengths) && AllHaveWords(lengths, cs, rleMax) && |table| + |Entries(cs, rleMax)| == size
    ensures ReadEntries(code, rleMax, size, Place(table, NoSearch(), 0), EntriesWords(lengths, cs, rleMax) + rest) ==
            MapStop(Place(table + Entries(cs, rleMax), NoSearch(), 0), rest, Full)
    decreases |cs|
  {
    hide CodeFor, CodedWord, Entry;
    if cs == [] {
      assert [] + rest == rest && table + [] == table;
    } else {
      var later := EntriesWords(lengths, cs[1..], rleMax);
      assert CodedWord(lengths, cs[0], rleMax) + later + rest == CodedWord(lengths, cs[0], rleMax) + (later + rest);
      ReadsCoded(code, lengths, rleMax, size, table, cs[0], later + rest);
      WordsRead(code, lengths, rleMax, size, table + Entry(cs[0], rleMax), cs[1..], rest);
      assert table + Entry(cs[0], rleMax) + Entries(cs[1..], rleMax) == table + Entries(cs, rleMax);
    }
  }

  /** What is written for a map and what follows it: the width of the runs, their code, its form, the map's symbols. */
  datatype MapPlan = MapPlan(rleMax: nat, e: PrefixEncoding, frequencies: seq<nat>, tree: seq<bool>, coded: seq<Coded>,
                             rest: seq<bool>)

  function MapHeader(rleMax: nat): seq<bool>
  {
    if rleMax > 0 then [true] + Lsb(rleMax - 1, 4) else [false]
  }

  /** The symbols' bits, the flag that says that move-to-front was done, and what follows. */
  function EntriesTail(plan: MapPlan): seq<bool>
    requires AllHaveWords(LengthsOf(plan.e), plan.coded, plan.rleMax)
  {
    EntriesWords(LengthsOf(plan.e), plan.coded, plan.rleMax) + ([true] + plan.rest)
  }

  /** A plan the encoder can have for a map of this size. */
  ghost predicate Planned(plan: MapPlan, size: nat, numTrees: nat)
  {
    && plan.rleMax <= 16 && Encodes(plan.e, plan.frequencies) && |plan.frequencies| == plan.rleMax + numTrees
    && IsTree(plan.e, plan.tree) && AllHaveWords(LengthsOf(plan.e), plan.coded, plan.rleMax)
    && |Entries(plan.coded, plan.rleMax)| == size && forall v :: v in Entries(plan.coded, plan.rleMax) ==> v < MTF_SIZE
  }

  /** All of a map's bits. */
  function MapBits(plan: MapPlan): seq<bool>
    requires AllHaveWords(LengthsOf(plan.e), plan.coded, plan.rleMax)
  {
    MapHeader(plan.rleMax) + plan.tree + EntriesWords(LengthsOf(plan.e), plan.coded, plan.rleMax) + [true]
  }

  /** What is left to be read completes the map. */
  ghost predicate EntriesAhead(plan: MapPlan, code: PrefixCode, rleMax: nat, size: nat, place: Place, stream: seq<bool>)
  {
    && rleMax == plan.rleMax && |place.entries| <= size
    && ReadEntries(code, rleMax, size, place, stream) ==
       MapStop(Place(Entries(plan.coded, plan.rleMax), NoSearch(), 0), [true] + plan.rest, Full)
  }

  /** The map is complete, and its flag comes next. */
  predicate FlagAhead(plan: MapPlan, place: Place, stream: seq<bool>)
  {
    place.entries == Entries(plan.coded, plan.rleMax) && stream == [true] + plan.rest
  }

  datatype MapPhase = RleFlag | RleValue | CodeOfRuns(decoder: PrefixCodeDecoder) | Reading | Transform | Complete

  datatype MapResult = MoreBits | Overflow | BadCode(error: TreeError) | Map(entries: seq<nat>)

  /** Reads a context map across any number of calls. */
  class ContextMapDecoder {
    const size: nat
    const numTrees: nat
    var phase: MapPhase
    var rleMax: nat
    var code: PrefixCode
    var place: Place

    ghost function Repr(): (r: set<object>)
      reads this, if phase.CodeOfRuns? then {phase.decoder} else {}
      ensures r == if phase.CodeOfRuns? then {this} + phase.decoder.Repr() else {this}
    {
      {this} + if phase.CodeOfRuns? then phase.decoder.Repr() else {}
    }

    ghost predicate Valid()
      reads this, if phase.CodeOfRuns? then {phase.decoder} else {}, Repr()
    {
      && 0 < numTrees <= MAX_TREES && rleMax <= 16 && |place.entries| <= size
      && (phase == Transform ==> |place.entries| == size)
      && (forall i :: 0 <= i < |place.entries| ==> place.entries[i] < MTF_SIZE)
      && (phase.RleFlag? || phase.RleValue? ==> rleMax == 0 && place == Place([], NoSearch(), 0))
      && (phase.CodeOfRuns? ==>
            && place == Place([], NoSearch(), 0) && this !in phase.decoder.Repr()
            && phase.decoder.alphabetSize == rleMax + numTrees && phase.decoder.Valid() && !phase.decoder.form.Read?)
    }

    /** If there is a plan, the stream from here on follows it. */
    ghost predicate Expects(plan: Option<MapPlan>, codePlan: Option<TreePlan>, stream: seq<bool>)
      requires Valid()
      reads this, if phase.CodeOfRuns? then {phase.decoder} else {}, Repr()
    {
      plan.Some? ==>
        var p := plan.value;
        && Planned(p, size, numTrees)
        && match phase
           case RleFlag => stream == MapHeader(p.rleMax) + (p.tree + EntriesTail(p))
           case RleValue => p.rleMax > 0 && stream == Lsb(p.rleMax - 1, 4) + (p.tree + EntriesTail(p))
           case CodeOfRuns(d) =>
             && rleMax == p.rleMax && codePlan.Some? && codePlan.value.e == p.e && codePlan.value.rest == EntriesTail(p)
             && d.Expects(codePlan, stream)
           case Reading => EntriesAhead(p, code, rleMax, size, place, stream)
           case Transform => FlagAhead(p, place, stream)
           case Complete => true
    }

    constructor (size: nat, numTrees: nat)
      requires 0 < numTrees <= MAX_TREES
      ensures Valid() && fresh(Repr()) && phase == RleFlag && this.size == size && this.numTrees == numTrees
    {
      this.size, this.numTrees := size, numTrees;
      phase, rleMax, code, place := RleFlag, 0, Single(0), Place([], NoSearch(), 0);
    }

    /** Decodes as far as the bits go, from the run flag to whether move-to-front was done. What the encoder wrote comes
        to the map's entries with exactly its bits taken, in however many calls. */
    method Decode(bits: seq<bool>, ghost plan: Option<MapPlan>, ghost codePlan: Option<TreePlan>,
                  ghost later: seq<bool>)
      returns (result: MapResult, left: seq<bool>, ghost nextCode: Option<TreePlan>)
      requires Valid() && !phase.Complete? && Expects(plan, codePlan, bits + later)
      modifies Repr()
      ensures fresh(Repr() - old(Repr()))
      ensures result.MoreBits? ==> Valid() && !phase.Complete? && Expects(plan, nextCode, left + later)
      ensures result.MoreBits? && plan.Some? ==> later != []
      ensures result.Map? && plan.Some? ==>
                IsUndone(Entries(plan.value.coded, plan.value.rleMax), true, result.entries) &&
                left + later == plan.value.rest
      ensures result.Overflow? || result.BadCode? ==> plan.None?
    {
      hide EntriesAhead, FlagAhead, Planned, IsUndone, Entries, ReadEntries, Valid, Expects, PrefixCodeDecoder.Valid,
           PrefixCodeDecoder.Expects;
      left, nextCode := bits, codePlan;
      if phase.RleFlag? {
        if left == [] {
          WantsFlag(this, plan, codePlan, later);
          return MoreBits, left, nextCode;
        }
        nextCode := ReadFlag(left, plan, codePlan, later);
        left := left[1..];
      }
      if phase.RleValue? {
        if |left| < 4 {
          WantsWidth(this, plan, nextCode, left, later);
          return MoreBits, left, nextCode;
        }
        nextCode := ReadWidth(left, plan, nextCode, later);
        left := left[4..];
      }
      if phase.CodeOfRuns? {
        var tree;
        tree, left, nextCode := ReadCode(left, plan, nextCode, later);
        match tree {
          case MoreInput => return MoreBits, left, nextCode;
          case Invalid(e) => return BadCode(e), left, nextCode;
          case Tree(_) =>
        }
      }
      InEntries(this, plan, nextCode, left + later);
      ghost var start, full := place, phase.Transform?;
      ghost var all := left;
      result, left := ReadBody(left);
      if plan.Some? {
        BodyFollows(plan.value, code, rleMax, size, start, full, all, later, result, left, phase.Transform?, place);
        if result.MoreBits? {
          GoesOn(this, plan.value, nextCode, left + later);
        }
      } else if result.MoreBits? {
        NoPlan(this, nextCode, left + later);
      }
    }

    /** Whether there are runs. */
    method ReadFlag(bits: seq<bool>, ghost plan: Option<MapPlan>, ghost codePlan: Option<TreePlan>,
                    ghost later: seq<bool>) returns (ghost nextCode: Option<TreePlan>)
      requires Valid() && phase.RleFlag? && bits != [] && Expects(plan, codePlan, bits + later)
      modifies this
      ensures Valid() && fresh(Repr() - {this}) && if bits[0] then phase.RleValue? else phase.CodeOfRuns?
      ensures Expects(plan, nextCode, bits[1..] + later)
    {
      hide *;
      nextCode := codePlan;
      if plan.Some? {
        FlagRead(this, plan.value, codePlan, bits, later);
      }
      FlagState(this);
      if bits[0] {
        phase := RleValue;
        WidthNext(this, plan, codePlan, bits[1..] + later);
      } else {
        nextCode := BeginCode(0, plan, bits[1..] + later);
      }
    }

    /** How long the runs are. */
    method ReadWidth(bits: seq<bool>, ghost plan: Option<MapPlan>, ghost codePlan: Option<TreePlan>,
                     ghost later: seq<bool>) returns (ghost nextCode: Option<TreePlan>)
      requires Valid() && phase.RleValue? && |bits| >= 4 && Expects(plan, codePlan, bits + later)
      modifies this
      ensures Valid() && fresh(Repr() - {this}) && phase.CodeOfRuns? && Expects(plan, nextCode, bits[4..] + later)
    {
      hide *;
      SmallValue(bits[..4]);
      if plan.Some? {
        WidthRead(this, plan.value, codePlan, bits, later);
      }
      FlagState(this);
      nextCode := BeginCode(FromLsb(bits[..4]) + 1, plan, bits[4..] + later);
    }

    /** The reader of the code of the run symbols. */
    method BeginCode(width: nat, ghost plan: Option<MapPlan>, ghost stream: seq<bool>)
      returns (ghost nextCode: Option<TreePlan>)
      requires 0 < numTrees <= MAX_TREES && width <= 16 && place == Place([], NoSearch(), 0)
      requires plan.Some? ==>
                 && Planned(plan.value, size, numTrees) && width == plan.value.rleMax
                 && stream == plan.value.tree + EntriesTail(plan.value)
      modifies this
      ensures Valid() && fresh(Repr() - {this}) && phase.CodeOfRuns? && Expects(plan, nextCode, stream)
    {
      hide *;
      rleMax := width;
      var decoder := new PrefixCodeDecoder(rleMax + numTrees);
      nextCode := None;
      if plan.Some? {
        PlannedTree(plan.value, size, numTrees);
        nextCode := Some(TreePlan(plan.value.e, plan.value.frequencies, plan.value.tree, EntriesTail(plan.value),
                                  None));
        ExpectsTree(decoder, nextCode.value, stream);
      }
      phase := CodeOfRuns(decoder);
      CodeNext(this, decoder, plan, nextCode, stream);
    }

    /** The code of the run symbols, as far as the bits go. */
    method ReadCode(bits: seq<bool>, ghost plan: Option<MapPlan>, ghost codePlan: Option<TreePlan>,
                    ghost later: seq<bool>)
      returns (r: TreeResult, left: seq<bool>, ghost nextCode: Option<TreePlan>)
      requires Valid() && phase.CodeOfRuns? && Expects(plan, codePlan, bits + later)
      modifies Repr()
      ensures fresh(Repr() - old(Repr()))
      ensures r.MoreInput? ==> Valid() && phase.CodeOfRuns? && Expects(plan, nextCode, left + later)
      ensures r.MoreInput? && plan.Some? ==> later != []
      ensures r.Tree? ==> Valid() && phase == Reading && Expects(plan, nextCode, left + later)
      ensures r.Invalid? ==> plan.None?
    {
      hide *;
      var decoder := phase.decoder;
      ghost var treePlan := if plan.Some? then codePlan else None;
      AtCode(this, decoder, plan, codePlan, bits + later);
      r, left, nextCode := decoder.Decode(bits, treePlan, later);
      if plan.Some? {
        SameGoal(plan.value, treePlan, nextCode);
      }
      match r {
        case MoreInput => CodeNext(this, decoder, plan, nextCode, left + later);
        case Tree(c) =>
          phase, code := Reading, c;
          if plan.Some? {
            EntriesNext(plan.value, code, rleMax, size, numTrees, left + later);
          }
          ReadingNext(this, plan, nextCode, left + later);
        case Invalid(_) =>
      }
    }

    /** Entries until the map is full, then whether to undo move-to-front. */
    method ReadBody(bits: seq<bool>) returns (result: MapResult, left: seq<bool>)
      requires Valid() && (phase == Reading || phase == Transform)
      modifies this
      ensures Valid() && code == old(code) && rleMax == old(rleMax) && !phase.CodeOfRuns?
      ensures old(phase) == Reading ==>
                var stop := ReadEntries(code, rleMax, size, old(place), bits);
                && (stop.status == RepeatOverflow ==> result == Overflow)
                && (stop.status == NeedInput ==>
                    result == MoreBits && phase == Reading && place == stop.place && left == stop.rest)
                && (stop.status == Full && stop.rest == [] ==>
                    result == MoreBits && phase == Transform && place == stop.place && left == [])
                && (stop.status == Full && stop.rest != [] ==>
                      result.Map? && IsUndone(stop.place.entries, stop.rest[0], result.entries) &&
                        left == stop.rest[1..])
      ensures old(phase) == Transform ==>
                if bits == [] then result == MoreBits && phase == Transform && place == old(place) && left == []
                else result.Map? && IsUndone(old(place).entries, bits[0], result.entries) && left == bits[1..]
    {
      hide FromLsb, IsUndone, Pow2, ReadEntries;
      left := bits;
      if phase == Reading {
        var status;
        status, left := FillMap(bits);
        match status {
          case RepeatOverflow => return Overflow, left;
          case NeedInput => return MoreBits, left;
          case Full => phase := Transform;
        }
      }
      if left == [] {
        return MoreBits, left;
      }
      phase := Complete;
      var entries := UndoTransform(place.entries, left[0]);
      result := Map(entries);
      left := left[1..];
    }

    /** One entry or run after another. */
    method FillMap(bits: seq<bool>) returns (status: MapStatus, left: seq<bool>)
      requires Valid() && phase == Reading
      modifies `place
      ensures Valid() && phase == Reading
      ensures var stop := ReadEntries(code, rleMax, size, old(place), bits);
              status == stop.status && place == stop.place && left == stop.rest
      ensures status == Full ==> |place.entries| == size
    {
      hide FromLsb, Pow2, SymbolStep;
      left := bits;
      while !(|place.entries| == size && place.repeat == 0)
        invariant Valid()
        invariant ReadEntries(code, rleMax, size, place, left) == ReadEntries(code, rleMax, size, old(place), bits)
        decreases |left|, size - |place.entries|, if place.repeat > 0 then 0 else 1
      {
        var n := EntryBits(code, place);
        if |left| < n {
          return NeedInput, left;
        }
        var next := EntryStep(code, rleMax, size, place, left[..n]);
        if next.None? {
          return RepeatOverflow, left;
        }
        StepFits(code, rleMax, size, place, left[..n]);
        place := next.value;
        left := left[n..];
      }
      status := Full;
    }
  }

  lemma WantsFlag(d: ContextMapDecoder, plan: Option<MapPlan>, codePlan: Option<TreePlan>, later: seq<bool>)
    requires d.Valid() && d.phase.RleFlag? && d.Expects(plan, codePlan, [] + later)
    ensures plan.Some? ==> later != []
  {
    hide Planned, EntriesTail;
  }

  lemma WantsWidth(d: ContextMapDecoder, plan: Option<MapPlan>, codePlan: Option<TreePlan>, bits: seq<bool>,
                   later: seq<bool>)
    requires d.Valid() && d.phase.RleValue? && |bits| < 4 && d.Expects(plan, codePlan, bits + later)
    ensures plan.Some? ==> later != []
  {
    hide Planned, EntriesTail;
    assert |bits + later| == |bits| + |later|;
  }

  lemma FlagState(d: ContextMapDecoder)
    requires d.Valid() && (d.phase.RleFlag? || d.phase.RleValue?)
    ensures d.rleMax == 0 && d.place == Place([], NoSearch(), 0) && 0 < d.numTrees <= MAX_TREES
  {
  }

  lemma FlagRead(d: ContextMapDecoder, p: MapPlan, codePlan: Option<TreePlan>, bits: seq<bool>, later: seq<bool>)
    requires d.Valid() && d.phase.RleFlag? && bits != [] && d.Expects(Some(p), codePlan, bits + later)
    ensures Planned(p, d.size, d.numTrees) && (bits[0] <==> p.rleMax > 0)
    ensures bits[1..] + later == if bits[0] then Lsb(p.rleMax - 1, 4) + (p.tree + EntriesTail(p))
            else p.tree + EntriesTail(p)
  {
    hide EntriesTail, Encodes, IsTree, AllHaveWords, Entries, Lsb;
    var stream, more := bits + later, p.tree + EntriesTail(p);
    assert stream[0] == bits[0] && stream[1..] == bits[1..] + later;
    assert stream == MapHeader(p.rleMax) + more;
    if p.rleMax > 0 {
      assert [true] + Lsb(p.rleMax - 1, 4) + more == [true] + (Lsb(p.rleMax - 1, 4) + more);
    }
  }

  lemma WidthNext(d: ContextMapDecoder, plan: Option<MapPlan>, codePlan: Option<TreePlan>, stream: seq<bool>)
    requires d.phase.RleValue? && d.rleMax == 0 && d.place == Place([], NoSearch(), 0) && 0 < d.numTrees <= MAX_TREES
    requires plan.Some? ==>
               && Planned(plan.value, d.size, d.numTrees) && plan.value.rleMax > 0
               && stream == Lsb(plan.value.rleMax - 1, 4) + (plan.value.tree + EntriesTail(plan.value))
    ensures d.Valid() && d.Repr() == {d} && d.Expects(plan, codePlan, stream)
  {
    hide EntriesTail, Encodes, IsTree, AllHaveWords, Entries, Lsb;
  }

  lemma WidthRead(d: ContextMapDecoder, p: MapPlan, codePlan: Option<TreePlan>, bits: seq<bool>, later: seq<bool>)
    requires d.Valid() && d.phase.RleValue? && |bits| >= 4 && d.Expects(Some(p), codePlan, bits + later)
    ensures Planned(p, d.size, d.numTrees) && FromLsb(bits[..4]) + 1 == p.rleMax
    ensures bits[4..] + later == p.tree + EntriesTail(p)
  {
    hide EntriesTail, Encodes, IsTree, AllHaveWords, Entries, Lsb, FromLsb;
    var stream, more := bits + later, p.tree + EntriesTail(p);
    assert stream[..4] == bits[..4] && stream[4..] == bits[4..] + later;
    assert stream == Lsb(p.rleMax - 1, 4) + more && stream[..4] == Lsb(p.rleMax - 1, 4) && stream[4..] == more;
    assert Pow2(4) == 16;
    ValueOfLsb(p.rleMax - 1, 4);
  }

  lemma PlannedTree(p: MapPlan, size: nat, numTrees: nat)
    requires Planned(p, size, numTrees) && numTrees <= MAX_TREES
    ensures Encodes(p.e, p.frequencies) && |p.frequencies| == p.rleMax + numTrees <= MAX_ALPHABET
    ensures IsTree(p.e, p.tree) && AllHaveWords(LengthsOf(p.e), p.coded, p.rleMax)
    ensures |Entries(p.coded, p.rleMax)| == size
  {
    hide Encodes, IsTree, AllHaveWords, Entries;
  }

  /** The reader of the code goes on. */
  lemma CodeNext(d: ContextMapDecoder, decoder: PrefixCodeDecoder, plan: Option<MapPlan>, codePlan: Option<TreePlan>,
                 stream: seq<bool>)
    requires d.phase == CodeOfRuns(decoder) && 0 < d.numTrees <= MAX_TREES && d.rleMax <= 16
    requires d.place == Place([], NoSearch(), 0) && d !in decoder.Repr()
    requires decoder.alphabetSize == d.rleMax + d.numTrees && decoder.Valid() && !decoder.form.Read?
    requires plan.Some? ==>
               && Planned(plan.value, d.size, d.numTrees) && d.rleMax == plan.value.rleMax && codePlan.Some?
               && codePlan.value.e == plan.value.e && codePlan.value.rest == EntriesTail(plan.value)
               && decoder.Expects(codePlan, stream)
    ensures d.Valid() && d.Repr() == {d} + decoder.Repr() && d.Expects(plan, codePlan, stream)
  {
    hide EntriesTail, Planned, PrefixCodeDecoder.Valid, PrefixCodeDecoder.Expects;
  }

  lemma AtCode(d: ContextMapDecoder, decoder: PrefixCodeDecoder, plan: Option<MapPlan>, codePlan: Option<TreePlan>,
               stream: seq<bool>)
    requires d.phase == CodeOfRuns(decoder) && d.Valid() && d.Expects(plan, codePlan, stream)
    ensures 0 < d.numTrees <= MAX_TREES && d.rleMax <= 16 && d.place == Place([], NoSearch(), 0)
    ensures d !in decoder.Repr() && decoder.alphabetSize == d.rleMax + d.numTrees && decoder.Valid() &&
            !decoder.form.Read? && d.Repr() == {d} + decoder.Repr()
    ensures decoder.Expects(if plan.Some? then codePlan else None, stream)
    ensures plan.Some? ==>
              && Planned(plan.value, d.size, d.numTrees) && d.rleMax == plan.value.rleMax && codePlan.Some?
              && codePlan.value.e == plan.value.e && codePlan.value.rest == EntriesTail(plan.value)
  {
    hide EntriesTail, Planned, PrefixCodeDecoder.Valid;
  }

  lemma SameGoal(p: MapPlan, codePlan: Option<TreePlan>, next: Option<TreePlan>)
    requires codePlan.Some? && next.Some? && Towards(codePlan.value, next.value)
    ensures next.value.e == codePlan.value.e && next.value.rest == codePlan.value.rest
  {
  }

  /** Behind the code come the words of the map. */
  lemma EntriesNext(p: MapPlan, code: PrefixCode, rleMax: nat, size: nat, numTrees: nat, stream: seq<bool>)
    requires Planned(p, size, numTrees) && rleMax == p.rleMax && CodeFor(code, LengthsOf(p.e))
    requires stream == EntriesTail(p)
    ensures EntriesAhead(p, code, rleMax, size, Place([], NoSearch(), 0), stream)
  {
    hide Encodes, IsTree, AllHaveWords, Entries, CodeFor, LengthsOf, EntriesWords, ReadEntries;
    WordsRead(code, LengthsOf(p.e), rleMax, size, [], p.coded, [true] + p.rest);
    assert [] + Entries(p.coded, rleMax) == Entries(p.coded, rleMax);
  }

  lemma ReadingNext(d: ContextMapDecoder, plan: Option<MapPlan>, codePlan: Option<TreePlan>, stream: seq<bool>)
    requires d.phase == Reading && 0 < d.numTrees <= MAX_TREES && d.rleMax <= 16 && d.place == Place([], NoSearch(), 0)
    requires plan.Some? ==> Planned(plan.value, d.size, d.numTrees) &&
                            EntriesAhead(plan.value, d.code, d.rleMax, d.size, d.place, stream)
    ensures d.Valid() && d.Repr() == {d} && d.Expects(plan, codePlan, stream)
  {
    hide Planned, EntriesAhead;
  }

  lemma InEntries(d: ContextMapDecoder, plan: Option<MapPlan>, codePlan: Option<TreePlan>, stream: seq<bool>)
    requires d.Valid() && (d.phase == Reading || d.phase == Transform) && d.Expects(plan, codePlan, stream)
    ensures |d.place.entries| <= d.size
    ensures plan.Some? ==>
              && Planned(plan.value, d.size, d.numTrees)
              && if d.phase == Reading then EntriesAhead(plan.value, d.code, d.rleMax, d.size, d.place, stream)
                 else FlagAhead(plan.value, d.place, stream)
  {
    hide Planned, EntriesAhead, FlagAhead;
  }

  /** What the entries and the flag come to, on part of the bits. */
  lemma BodyFollows(p: MapPlan, code: PrefixCode, rleMax: nat, size: nat, start: Place, full: bool, bits: seq<bool>,
                    later: seq<bool>, result: MapResult, left: seq<bool>, fullNow: bool, place: Place)
    requires if full then FlagAhead(p, start, bits + later)
             else EntriesAhead(p, code, rleMax, size, start, bits + later)
    requires !full ==>
               && |start.entries| <= size
               && var stop := ReadEntries(code, rleMax, size, start, bits);
                  && (stop.status == RepeatOverflow ==> result == Overflow)
                  && (stop.status == NeedInput ==>
                      result == MoreBits && !fullNow && place == stop.place && left == stop.rest)
                  && (stop.status == Full && stop.rest == [] ==>
                      result == MoreBits && fullNow && place == stop.place && left == [])
                  && (stop.status == Full && stop.rest != [] ==>
                        result.Map? && IsUndone(stop.place.entries, stop.rest[0], result.entries) &&
                          left == stop.rest[1..])
    requires full ==>
               if bits == [] then result == MoreBits && fullNow && place == start && left == []
               else result.Map? && IsUndone(start.entries, bits[0], result.entries) && left == bits[1..]
    ensures !result.Overflow? && !result.BadCode? && (result.MoreBits? ==> later != [])
    ensures result.MoreBits? ==> if fullNow then FlagAhead(p, place, left + later)
                                 else EntriesAhead(p, code, rleMax, size, place, left + later)
    ensures result.Map? ==> IsUndone(Entries(p.coded, p.rleMax), true, result.entries) && left + later == p.rest
  {
    hide ReadEntries, IsUndone, Entries;
    if full {
      FirstAndRest(bits, later, p.rest);
    } else {
      ReadContinues(code, rleMax, size, start, bits, later);
      var stop := ReadEntries(code, rleMax, size, start, bits);
      assert later == [] ==> bits + later == bits;
      if stop.status == Full {
        FirstAndRest(stop.rest, later, p.rest);
      }
    }
  }

  lemma FirstAndRest(bits: seq<bool>, later: seq<bool>, rest: seq<bool>)
    requires bits + later == [true] + rest
    ensures if bits == [] then later != [] && [] + later == [true] + rest else bits[0] && bits[1..] + later == rest
  {
    if bits != [] {
      assert (bits + later)[0] == bits[0] && (bits + later)[1..] == bits[1..] + later;
    }
  }

  lemma GoesOn(d: ContextMapDecoder, p: MapPlan, codePlan: Option<TreePlan>, stream: seq<bool>)
    requires d.Valid() && (d.phase == Reading || d.phase == Transform) && Planned(p, d.size, d.numTrees)
    requires if d.phase == Transform then FlagAhead(p, d.place, stream)
             else EntriesAhead(p, d.code, d.rleMax, d.size, d.place, stream)
    ensures d.Expects(Some(p), codePlan, stream)
  {
    hide Planned, EntriesAhead, FlagAhead;
  }

  lemma NoPlan(d: ContextMapDecoder, codePlan: Option<TreePlan>, stream: seq<bool>)
    requires d.Valid()
    ensures d.Expects(None, codePlan, stream)
  {
  }

  lemma SmallValue(bits: seq<bool>)
    requires |bits| == 4
    ensures FromLsb(bits) < 16
  {
    assert Pow2(4) == 16;
  }

  /** A step keeps the map within its size and its entries within a byte, and comes closer to the end. */
  lemma StepFits(code: PrefixCode, rleMax: nat, size: nat, p: Place, bits: seq<bool>)
    requires |p.entries| <= size && !(|p.entries| == size && p.repeat == 0) && |bits| == EntryBits(code, p)
    requires EntryStep(code, rleMax, size, p, bits).Some? && forall i :: 0 <= i < |p.entries| ==>
             p.entries[i] < MTF_SIZE
    ensures var next := EntryStep(code, rleMax, size, p, bits).value;
            && |next.entries| <= size && (forall i :: 0 <= i < |next.entries| ==> next.entries[i] < MTF_SIZE)
            && (|bits| > 0 || |next.entries| > |p.entries| ||
                (|next.entries| == |p.entries| && p.repeat == 0 && next.repeat > 0))
  {
    hide FromLsb, Pow2;
  }

  /** Move-to-front is undone if it was done. */
  ghost predicate IsUndone(entries: seq<nat>, moved: bool, r: seq<nat>)
  {
    (forall v :: v in entries ==> v < MTF_SIZE) && r == if moved then Restored(UpTo(MTF_SIZE), entries) else entries
  }

  method UndoTransform(entries: seq<nat>, moved: bool) returns (r: seq<nat>)
    requires forall v :: v in entries ==> v < MTF_SIZE
    ensures IsUndone(entries, moved, r)
  {
    hide Restored, UpTo;
    if !moved {
      return entries;
    }
    var slots := new nat[|entries|](i requires 0 <= i < |entries| => entries[i]);
    assert slots[..] == entries;
    assert forall i :: 0 <= i < slots.Length ==> slots[i] in entries;
    InverseMoveToFront(slots);
    r := slots[..];
  }

  /** The symbols behind a map's entries lie in the alphabet, and there are no more of them than entries. */
  lemma {:induction false} SymbolsBelow(cs: seq<Coded>, rleMax: nat, n: nat)
    requires n > 0 && forall v :: v in Entries(cs, rleMax) ==> v < n
    ensures |cs| <= |Entries(cs, rleMax)| && forall i :: 0 <= i < |cs| ==> cs[i].symbol < rleMax + n
  {
    hide Pow2;
    if cs != [] {
      EntryNotEmpty(cs[0], rleMax);
      var first := Entry(cs[0], rleMax);
      assert forall v :: v in first || v in Entries(cs[1..], rleMax) ==> v in Entries(cs, rleMax);
      assert cs[0].symbol > rleMax ==> first == [cs[0].symbol - rleMax] && first[0] in first;
      SymbolsBelow(cs[1..], rleMax, n);
    }
  }

  method CountCoded(cs: seq<Coded>, size: nat) returns (frequencies: seq<nat>)
    requires cs != [] && forall i :: 0 <= i < |cs| ==> cs[i].symbol < size
    ensures |frequencies| == size && Total(frequencies) == |cs| && Active(frequencies) > 0
    ensures forall i :: 0 <= i < |cs| ==> frequencies[cs[i].symbol] > 0
  {
    hide Total, Active;
    frequencies := Zeros(size);
    ZerosTotal(size);
    for i := 0 to |cs|
      invariant |frequencies| == size && Total(frequencies) == i
      invariant forall j :: 0 <= j < i ==> frequencies[cs[j].symbol] > 0
    {
      TotalOne(frequencies, cs[i].symbol);
      frequencies := frequencies[cs[i].symbol := frequencies[cs[i].symbol] + 1];
    }
    Tokens.SomeActive(frequencies, cs[0].symbol);
  }

  const MAX_MAP_SIZE: nat := 0x4000

  /** What the encoder makes of a map: run symbols with a code that has a word for each. */
  method CodeMap(table: seq<nat>, numTrees: nat) returns (coded: seq<Coded>, rleMax: nat, e: PrefixEncoding,
                                                          ghost frequencies: seq<nat>)
    requires 0 < |table| <= MAX_MAP_SIZE && 0 < numTrees <= MAX_TREES && forall v :: v in table ==> v < numTrees
    ensures rleMax <= MAX_CONTEXT_MAP_RUN_LENGTH_PREFIX
    ensures 0 < |frequencies| == rleMax + numTrees <= MAX_ALPHABET && Encodes(e, frequencies)
    ensures AllHaveWords(LengthsOf(e), coded, rleMax)
    ensures |Entries(coded, rleMax)| == |table|
    ensures forall v :: v in Entries(coded, rleMax) ==> v < MTF_SIZE
    ensures Restored(UpTo(MTF_SIZE), Entries(coded, rleMax)) == table
  {
    assert MAX_TREES == MTF_SIZE == 256 && MAX_ALPHABET == 704 && MAX_TOTAL == 0x1000_0000;
    assert MAX_MAP_SIZE == 0x4000 && MAX_CONTEXT_MAP_RUN_LENGTH_PREFIX == 6;
    hide *;
    var transformed := MoveToFrontTransform(table);
    ghost var m: nat :| m in table && (forall v :: v in table ==> v in UpTo(m + 1)) &&
        transformed == ContextMaps.Transformed(UpTo(m + 1), table);
    assert m < numTrees && m < MTF_SIZE;
    coded, rleMax := RunLengthCodeZeros(transformed);
    RunLengthRestored(transformed, 0, rleMax);
    ExpandsAll(coded, transformed, rleMax);
    RestoresTransformed(UpTo(m + 1), seq(MTF_SIZE - (m + 1), i => i + m + 1), table);
    LongerList(m);
    ListLength(m + 1);
    assert forall v :: v in transformed ==> v < m + 1;
    SymbolsBelow(coded, rleMax, numTrees);
    SomeCoded(coded, rleMax);
    var counts := CountCoded(coded, rleMax + numTrees);
    var made := FromFrequencies(counts);
    e, frequencies := made.value, counts;
    forall i | 0 <= i < |coded|
      ensures CodedHasWord(LengthsOf(e), coded[i], rleMax)
    {
      assert coded[i] in coded;
      OneHasWord(e, counts, coded[i], rleMax);
    }
    WordsForAll(LengthsOf(e), coded, rleMax);
  }

  lemma ListLength(n: nat)
    ensures |UpTo(n)| == n
  {
  }

  lemma SomeCoded(coded: seq<Coded>, rleMax: nat)
    ensures Entries(coded, rleMax) != [] ==> coded != []
  {
  }

  lemma OneHasWord(e: PrefixEncoding, frequencies: seq<nat>, c: Coded, rleMax: nat)
    requires Encodes(e, frequencies) && c.symbol < |frequencies| && frequencies[c.symbol] > 0
    requires ContextMaps.Writable(c, rleMax) && c.symbol < rleMax + MAX_TREES
    ensures CodedHasWord(LengthsOf(e), c, rleMax)
  {
    hide LengthsOf, Decodable, WritesSymbol;
  }

  lemma WordsForAll(lengths: seq<nat>, cs: seq<Coded>, rleMax: nat)
    requires forall i :: 0 <= i < |cs| ==> CodedHasWord(lengths, cs[i], rleMax)
    ensures AllHaveWords(lengths, cs, rleMax)
  {
  }

  /** A wire form of a map: the decoder's alphabet, symbols that restore the map, and their bits. */
  ghost predicate IsMap(written: seq<bool>, table: seq<nat>, numTrees: nat)
  {
    exists plan :: Planned(plan, |table|, numTrees) && written == MapBits(plan) &&
                   Restored(UpTo(MTF_SIZE), Entries(plan.coded, plan.rleMax)) == table
  }

  /** Writes a map. */
  method WriteMap(table: seq<nat>, numTrees: nat) returns (written: seq<bool>, ghost plan: MapPlan)
    requires 0 < |table| <= MAX_MAP_SIZE && 0 < numTrees <= MAX_TREES && forall v :: v in table ==> v < numTrees
    ensures Planned(plan, |table|, numTrees) && written == MapBits(plan) && IsMap(written, table, numTrees)
    ensures Restored(UpTo(MTF_SIZE), Entries(plan.coded, plan.rleMax)) == table
  {
    hide LengthsOf, Encodes, Restored, UpTo, Lsb, Entries, AllHaveWords, EntriesWords, IsTree, CodedHasWord, MapHeader;
    var coded, rleMax, e;
    ghost var frequencies;
    coded, rleMax, e, frequencies := CodeMap(table, numTrees);
    var tree := WriteTree(e, frequencies);
    written := MapHeader(rleMax) + tree + EntriesWords(LengthsOf(e), coded, rleMax) + [true];
    plan := MapPlan(rleMax, e, frequencies, tree, coded, []);
    assert Planned(plan, |table|, numTrees) && written == MapBits(plan);
  }

  /** All the pieces, one after another. */
  function Joined(pieces: seq<seq<bool>>): seq<bool>
  {
    if pieces == [] then [] else pieces[0] + Joined(pieces[1..])
  }

  /** Writes a map, cuts its bits and what follows them into pieces, and reads it back piece by piece: the decoder's map
      is the encoder's, and what follows the map is left. */
  method MapRoundTrip(table: seq<nat>, numTrees: nat, rest: seq<bool>, cut: seq<bool> -> seq<seq<bool>>)
    returns (written: seq<bool>, restored: seq<nat>, left: seq<bool>)
    requires 0 < |table| <= MAX_MAP_SIZE && 0 < numTrees <= MAX_TREES && forall v :: v in table ==> v < numTrees
    requires forall bits :: Joined(cut(bits)) == bits
    ensures IsMap(written, table, numTrees) && restored == table && left == rest
  {
    hide *;
    ghost var plan;
    written, plan := WriteMap(table, numTrees);
    var pieces := cut(written + rest);
    ghost var whole := plan.(rest := rest);
    var decoder := new ContextMapDecoder(|table|, numTrees);
    StartsMap(decoder, plan, rest, written + rest);
    restored, left := ReadInPieces(decoder, pieces, whole);
    UndoneIs(whole, restored);
  }

  /** Calls the decoder with the bits the last call left and the next piece, until the map is there. */
  method ReadInPieces(decoder: ContextMapDecoder, pieces: seq<seq<bool>>, ghost plan: MapPlan)
    returns (restored: seq<nat>, left: seq<bool>)
    requires decoder.Valid() && decoder.phase == RleFlag && decoder.Expects(Some(plan), None, Joined(pieces))
    modifies decoder.Repr()
    ensures IsUndone(Entries(plan.coded, plan.rleMax), true, restored) && left == plan.rest
  {
    hide Planned, IsUndone, Entries, Joined, ContextMapDecoder.Valid, ContextMapDecoder.Expects,
         PrefixCodeDecoder.Valid,
         PrefixCodeDecoder.Expects;
    restored, left := [], [];
    ghost var codePlan: Option<TreePlan> := None;
    NotEmpty(decoder, plan, Joined(pieces));
    assert pieces[0..] == pieces && [] + Joined(pieces) == Joined(pieces);
    JoinedParts(pieces, 0);
    var i: nat := 0;
    while i < |pieces|
      invariant i < |pieces| && decoder.Valid() && fresh(decoder.Repr() - old(decoder.Repr()))
      invariant !decoder.phase.Complete? && decoder.Expects(Some(plan), codePlan, left + Joined(pieces[i..]))
      decreases |pieces| - i
    {
      var bits := left + pieces[i];
      JoinedParts(pieces, i);
      assert left + (pieces[i] + Joined(pieces[i + 1..])) == bits + Joined(pieces[i + 1..]);
      var result;
      result, left, codePlan := decoder.Decode(bits, Some(plan), codePlan, Joined(pieces[i + 1..]));
      match result {
        case Map(entries) =>
          restored := entries;
          left := left + Joined(pieces[i + 1..]);
          return;
        case MoreBits =>
          JoinedParts(pieces, i + 1);
        case _ =>
      }
      i := i + 1;
    }
  }

  lemma JoinedParts(pieces: seq<seq<bool>>, i: nat)
    requires i <= |pieces|
    ensures i < |pieces| ==> Joined(pieces[i..]) == pieces[i] + Joined(pieces[i + 1..])
    ensures i == |pieces| ==> Joined(pieces[i..]) == []
  {
    if i < |pieces| {
      assert pieces[i..][1..] == pieces[i + 1..];
    }
  }

  lemma NotEmpty(d: ContextMapDecoder, p: MapPlan, stream: seq<bool>)
    requires d.Valid() && d.phase == RleFlag && d.Expects(Some(p), None, stream)
    ensures stream != []
  {
    hide Planned, EntriesTail;
  }

  lemma StartsMap(d: ContextMapDecoder, plan: MapPlan, rest: seq<bool>, stream: seq<bool>)
    requires d.Valid() && d.phase == RleFlag && Planned(plan, d.size, d.numTrees) && stream == MapBits(plan) + rest
    ensures d.Expects(Some(plan.(rest := rest)), None, stream)
  {
    hide Encodes, IsTree, AllHaveWords, Entries, EntriesWords, LengthsOf, MapHeader;
    var words := EntriesWords(LengthsOf(plan.e), plan.coded, plan.rleMax);
    FourParts(MapHeader(plan.rleMax), plan.tree, words, [true], rest);
  }

  lemma FourParts(a: seq<bool>, b: seq<bool>, c: seq<bool>, d: seq<bool>, rest: seq<bool>)
    ensures a + b + c + d + rest == a + (b + (c + (d + rest)))
  {
  }

  lemma UndoneIs(plan: MapPlan, restored: seq<nat>)
    requires IsUndone(Entries(plan.coded, plan.rleMax), true, restored)
    ensures restored == Restored(UpTo(MTF_SIZE), Entries(plan.coded, plan.rleMax))
  {
    hide Restored, UpTo, Entries;
  }
}
