/** Context maps: move-to-front and zero-run coding on the encoder's side
    (`src/encode/greedy/block_split.rs`), their undoing on the decoder's (`src/decode/context_map.rs`). */
module ContextMaps {
  import opened Arithmetic
  import opened Outcomes

  const MAX_CONTEXT_MAP_RUN_LENGTH_PREFIX: nat := 6
  const MTF_SIZE: nat := 256

  /** The list with entry `i` moved to the front. */
  function ToFront(list: seq<nat>, i: nat): (r: seq<nat>)
    requires i < |list|
    ensures |r| == |list|
  {
    [list[i]] + list[..i] + list[i + 1..]
  }

  function IndexOf(list: seq<nat>, v: nat): (i: nat)
    requires v in list
    ensures i < |list| && list[i] == v
  {
    if list[0] == v then 0 else 1 + IndexOf(list[1..], v)
  }

  /** Each value as its place in a list that remembers what came last. */
  function Transformed(list: seq<nat>, values: seq<nat>): (r: seq<nat>)
    requires forall v :: v in values ==> v in list
    ensures |r| == |values|
    decreases |values|
  {
    if values == [] then []
    else
      var i := IndexOf(list, values[0]);
      ToFrontKeeps(list, i);
      [i] + Transformed(ToFront(list, i), values[1..])
  }

  lemma ToFrontKeeps(list: seq<nat>, i: nat)
    requires i < |list|
    ensures forall v :: v in list <==> v in ToFront(list, i)
  {
    var r := ToFront(list, i);
    forall v | v in list
      ensures v in r
    {
      var j :| 0 <= j < |list| && list[j] == v;
      assert r[if j == i then 0 else if j < i then j + 1 else j] == v;
    }
    assert list == list[..i] + [list[i]] + list[i + 1..];
  }

  /** Each place back to the value that stands there. */
  function Restored(list: seq<nat>, indices: seq<nat>): (r: seq<nat>)
    requires forall i :: i in indices ==> i < |list|
    ensures |r| == |indices|
    decreases |indices|
  {
    if indices == [] then []
    else
      assert indices[0] in indices && forall i :: i in indices[1..] ==> i in indices;
      [list[indices[0]]] + Restored(ToFront(list, indices[0]), indices[1..])
  }

  /** The decoder's list may be longer than the encoder's: what is behind never moves. */
  lemma {:induction false} RestoresTransformed(list: seq<nat>, behind: seq<nat>, values: seq<nat>)
    requires forall v :: v in values ==> v in list
    ensures var t := Transformed(list, values);
            (forall i :: i in t ==> i < |list|) && Restored(list + behind, t) == values
    decreases |values|
  {
    if values != [] {
      var i := IndexOf(list, values[0]);
      ToFrontKeeps(list, i);
      RestoresTransformed(ToFront(list, i), behind, values[1..]);
      assert ToFront(list + behind, i) == ToFront(list, i) + behind;
      var t := Transformed(list, values);
      assert t[0] == i && t[1..] == Transformed(ToFront(list, i), values[1..]);
      assert forall j :: j in t ==> j == i || j in t[1..];
    }
  }

  function UpTo(n: nat): (s: seq<nat>)
    ensures |s| == n && forall i :: 0 <= i < n ==> s[i] == i
  {
    seq(n, i => i)
  }

  /** The first `n` slots hold only numbers below `n`. */
  predicate Closed(list: seq<nat>, n: nat)
  {
    n <= |list| && forall i :: 0 <= i < n ==> list[i] < n
  }

  /** Whatever places below `n` a stream names, the values restored are below `n`. */
  lemma {:induction false} RestoredBelow(list: seq<nat>, indices: seq<nat>, n: nat)
    requires Closed(list, n) && forall i :: i in indices ==> i < n
    ensures forall v :: v in Restored(list, indices) ==> v < n
    decreases |indices|
  {
    if indices != [] {
      var i := indices[0];
      assert i in indices && forall j :: j in indices[1..] ==> j in indices;
      assert Closed(ToFront(list, i), n) by {
        forall j | 0 <= j < n
          ensures ToFront(list, i)[j] < n
        {
          assert ToFront(list, i)[j] == if j == 0 then list[i] else if j <= i then list[j - 1] else list[j];
        }
      }
      RestoredBelow(ToFront(list, i), indices[1..], n);
    }
  }

  /** Restores the map in place with a list of 256 slots. */
  method InverseMoveToFront(entries: array<nat>)
    requires forall i :: 0 <= i < entries.Length ==> entries[i] < MTF_SIZE
    modifies entries
    ensures forall v :: v in old(entries[..]) ==> v < MTF_SIZE
    ensures entries[..] == Restored(UpTo(MTF_SIZE), old(entries[..]))
  {
    hide Restored, UpTo;
    ghost var before := entries[..];
    var mtf := UpTo(MTF_SIZE);
    assert forall v :: v in before ==> v < MTF_SIZE;
    assert before[0..] == before;
    for i := 0 to entries.Length
      invariant |mtf| == MTF_SIZE && entries[i..] == before[i..] && forall v :: v in before[i..] ==> v < |mtf|
      invariant entries[..i] + Restored(mtf, before[i..]) == Restored(UpTo(MTF_SIZE), before)
    {
      var index := entries[i];
      assert index == before[i] && before[i..][1..] == before[i + 1..];
      RestoredStep(mtf, before[i..]);
      var value := mtf[index];
      ghost var done := entries[..i];
      mtf := ToFront(mtf, index);
      entries[i] := value;
      assert entries[..i + 1] == done + [value];
    }
    RestoredNone(mtf);
    assert before[entries.Length..] == [] && entries[..entries.Length] == entries[..];
  }

  lemma RestoredStep(list: seq<nat>, indices: seq<nat>)
    requires indices != [] && forall i :: i in indices ==> i < |list|
    ensures indices[0] < |list|
    ensures forall i :: i in indices[1..] ==> i < |list|
    ensures Restored(list, indices) == [list[indices[0]]] + Restored(ToFront(list, indices[0]), indices[1..])
  {
    assert indices[0] in indices;
    assert forall j :: j in indices[1..] ==> j in indices;
  }

  lemma RestoredNone(list: seq<nat>)
    ensures Restored(list, []) == []
  {
  }

  /** The largest entry. */
  method Largest(entries: seq<nat>) returns (m: nat)
    requires entries != []
    ensures m in entries && forall v :: v in entries ==> v <= m
  {
    m := entries[0];
    for i := 1 to |entries|
      invariant m in entries && forall j :: 0 <= j < i ==> entries[j] <= m
    {
      if entries[i] > m {
        m := entries[i];
      }
    }
  }

  lemma {:induction false} FoundFirst(list: seq<nat>, v: nat, i: nat)
    requires i < |list| && list[i] == v && forall j :: 0 <= j < i ==> list[j] != v
    ensures v in list && IndexOf(list, v) == i
  {
    if i > 0 {
      FoundFirst(list[1..], v, i - 1);
    }
  }

  lemma TransformedStep(list: seq<nat>, values: seq<nat>)
    requires values != [] && forall v :: v in values ==> v in list
    ensures values[0] in list && forall v :: v in values[1..] ==> v in ToFront(list, IndexOf(list, values[0]))
    ensures Transformed(list, values) ==
            [IndexOf(list, values[0])] + Transformed(ToFront(list, IndexOf(list, values[0])), values[1..])
  {
    assert values[0] in values;
    ToFrontKeeps(list, IndexOf(list, values[0]));
    assert forall v :: v in values[1..] ==> v in values;
  }

  /** The encoder's transform, with a list just long enough. */
  method MoveToFrontTransform(entries: seq<nat>) returns (transformed: seq<nat>)
    ensures entries == [] ==> transformed == []
    ensures entries != [] ==>
            exists m: nat :: m in entries && (forall v :: v in entries ==> v in UpTo(m + 1)) &&
                             transformed == Transformed(UpTo(m + 1), entries)
  {
    hide Transformed, IndexOf, ToFront;
    if entries == [] {
      return [];
    }
    var m := Largest(entries);
    assert forall v :: v in entries ==> v in UpTo(m + 1) by {
      forall v | v in entries
        ensures v in UpTo(m + 1)
      {
        assert UpTo(m + 1)[v] == v;
      }
    }
    var list := UpTo(m + 1);
    transformed := [];
    assert entries[0..] == entries;
    for i := 0 to |entries|
      invariant forall v :: v in entries[i..] ==> v in list
      invariant transformed + Transformed(list, entries[i..]) == Transformed(UpTo(m + 1), entries)
    {
      TransformedStep(list, entries[i..]);
      assert entries[i..][1..] == entries[i + 1..];
      var value := entries[i];
      var index: nat := 0;
      while list[index] != value
        invariant index < |list| && forall j :: 0 <= j < index ==> list[j] != value
        decreases |list| - index
      {
        Further(list, value, index);
        index := index + 1;
      }
      FoundFirst(list, value, index);
      transformed := transformed + [index];
      list := ToFront(list, index);
    }
    TransformedNone(list);
    assert entries[|entries|..] == [] && transformed + [] == transformed;
  }

  lemma Further(list: seq<nat>, v: nat, i: nat)
    requires v in list && i < |list| && forall j :: 0 <= j <= i ==> list[j] != v
    ensures i + 1 < |list|
  {
    var j :| 0 <= j < |list| && list[j] == v;
  }

  lemma TransformedNone(list: seq<nat>)
    ensures Transformed(list, []) == []
  {
  }

  /** A zero-run symbol with its extra bits, or a value moved up past those symbols. */
  datatype Coded = Coded(symbol: nat, extra: nat)

  /** What the decoder makes of one symbol: a zero, a run of zeros, or a value. */
  function Entry(c: Coded, rleMax: nat): seq<nat>
  {
    if c.symbol == 0 then [0]
    else if c.symbol <= rleMax then Zeros(Pow2(c.symbol) + c.extra)
    else [c.symbol - rleMax]
  }

  function Entries(cs: seq<Coded>, rleMax: nat): seq<nat>
  {
    if cs == [] then [] else Entry(cs[0], rleMax) + Entries(cs[1..], rleMax)
  }

  /** The decoder takes symbols until the map is full; a run may not reach beyond its end. */
  function Decoded(entries: seq<nat>, cs: seq<Coded>, rleMax: nat, size: nat): Option<seq<nat>>
    decreases |cs|
  {
    if |entries| == size || cs == [] then Some(entries)
    else if |entries| + |Entry(cs[0], rleMax)| > size then None
    else Decoded(entries + Entry(cs[0], rleMax), cs[1..], rleMax, size)
  }

  lemma EntryNotEmpty(c: Coded, rleMax: nat)
    ensures |Entry(c, rleMax)| > 0
  {
  }

  /** Symbols whose entries fill the map exactly are all read, without overflow. */
  lemma {:induction false} DecodesEntries(entries: seq<nat>, cs: seq<Coded>, rleMax: nat, size: nat)
    requires |entries| + |Entries(cs, rleMax)| == size
    ensures Decoded(entries, cs, rleMax, size) == Some(entries + Entries(cs, rleMax))
    decreases |cs|
  {
    if cs == [] {
      assert entries + [] == entries;
    } else {
      EntryNotEmpty(cs[0], rleMax);
      hide Entry;
      DecodesEntries(entries + Entry(cs[0], rleMax), cs[1..], rleMax, size);
      assert entries + Entry(cs[0], rleMax) + Entries(cs[1..], rleMax) == entries +
             (Entry(cs[0], rleMax) + Entries(cs[1..], rleMax));
    }
  }

  /** Places below the number of trees stay below it, so every tree index is in range. */
  lemma {:induction false} DecodedBelow(entries: seq<nat>, cs: seq<Coded>, rleMax: nat, size: nat, numTrees: nat)
    requires numTrees > 0 && (forall v :: v in entries ==> v < numTrees) && forall c :: c in cs ==>
             c.symbol < numTrees + rleMax
    requires Decoded(entries, cs, rleMax, size).Some?
    ensures forall v :: v in Decoded(entries, cs, rleMax, size).value ==> v < numTrees
    decreases |cs|
  {
    if |entries| != size && cs != [] {
      assert cs[0] in cs && forall c :: c in cs[1..] ==> c in cs;
      forall v | v in Entry(cs[0], rleMax)
        ensures v < numTrees
      {
      }
      DecodedBelow(entries + Entry(cs[0], rleMax), cs[1..], rleMax, size, numTrees);
    }
  }

  /** For any symbols of the alphabet, every entry of the final map names one of the trees. */
  lemma AnyMapInRange(cs: seq<Coded>, rleMax: nat, size: nat, numTrees: nat)
    requires 0 < numTrees <= MTF_SIZE && forall c :: c in cs ==> c.symbol < numTrees + rleMax
    requires Decoded([], cs, rleMax, size).Some?
    ensures var entries := Decoded([], cs, rleMax, size).value;
            && (forall i :: i in entries ==> i < numTrees)
            && forall v :: v in Restored(UpTo(MTF_SIZE), entries) ==> v < numTrees
  {
    DecodedBelow([], cs, rleMax, size, numTrees);
    hide Decoded, Restored;
    RestoredBelow(UpTo(MTF_SIZE), Decoded([], cs, rleMax, size).value, numTrees);
  }

  /** How many zeros start at `i`. */
  function ZeroRun(values: seq<nat>, i: nat): (n: nat)
    requires i <= |values|
    ensures i + n <= |values| && values[i..i + n] == Zeros(n) && (i + n < |values| ==> values[i + n] != 0)
    decreases |values| - i
  {
    if i == |values| || values[i] != 0 then 0
    else
      var n := ZeroRun(values, i + 1);
      assert values[i..i + 1 + n] == [values[i]] + values[i + 1..i + 1 + n];
      1 + n
  }

  /** Floor of the binary logarithm. */
  function Log2(n: nat): (b: nat)
    requires n > 0
    ensures Pow2(b) <= n < Pow2(b + 1)
  {
    if n == 1 then 0 else 1 + Log2(n / 2)
  }

  /** A run as one symbol if it is short enough, else as longest runs and a rest. */
  function RunCodes(n: nat, maxPrefix: nat): seq<Coded>
  {
    if n == 0 then []
    else if n < Pow2(maxPrefix + 1) then [Coded(Log2(n), n - Pow2(Log2(n)))]
    else [Coded(maxPrefix, Pow2(maxPrefix) - 1)] + RunCodes(n - (Pow2(maxPrefix + 1) - 1), maxPrefix)
  }

  function RunLengthCoded(values: seq<nat>, i: nat, maxPrefix: nat): seq<Coded>
    requires i <= |values|
    decreases |values| - i
  {
    if i == |values| then []
    else if values[i] != 0 then [Coded(values[i] + maxPrefix, 0)] + RunLengthCoded(values, i + 1, maxPrefix)
    else RunCodes(ZeroRun(values, i), maxPrefix) + RunLengthCoded(values, i + ZeroRun(values, i), maxPrefix)
  }

  lemma ZerosAppend(m: nat, n: nat)
    ensures Zeros(m) + Zeros(n) == Zeros(m + n)
  {
  }

  lemma {:induction false} EntriesAppend(xs: seq<Coded>, ys: seq<Coded>, rleMax: nat)
    ensures Entries(xs + ys, rleMax) == Entries(xs, rleMax) + Entries(ys, rleMax)
  {
    if xs == [] {
      assert xs + ys == ys;
    } else {
      hide Entry;
      assert (xs + ys)[1..] == xs[1..] + ys;
      EntriesAppend(xs[1..], ys, rleMax);
    }
  }

  /** The extra bits of a run symbol are as many as the decoder reads for it. */
  predicate Writable(c: Coded, rleMax: nat)
  {
    if c.symbol == 0 then c.extra == 0 else if c.symbol <= rleMax then c.extra < Pow2(c.symbol) else c.extra == 0
  }

  lemma OneCode(n: nat, maxPrefix: nat)
    requires 0 < n < Pow2(maxPrefix + 1)
    ensures var c := Coded(Log2(n), n - Pow2(Log2(n)));
            Entry(c, maxPrefix) == Zeros(n) && Writable(c, maxPrefix) && c.symbol <= maxPrefix
  {
    var b := Log2(n);
    if b > maxPrefix {
      Pow2Monotone(maxPrefix + 1, b);
      assert false;
    }
    assert Pow2(b + 1) == 2 * Pow2(b);
    assert b == 0 ==> n == 1 && Zeros(1) == [0];
  }

  lemma EntriesOne(c: Coded, rleMax: nat)
    ensures Entries([c], rleMax) == Entry(c, rleMax)
  {
    assert [c][1..] == [] && Entry(c, rleMax) + [] == Entry(c, rleMax);
  }

  /** The codes of a run stand for exactly as many zeros. */
  lemma {:induction false} RunRestored(n: nat, maxPrefix: nat)
    ensures Entries(RunCodes(n, maxPrefix), maxPrefix) == Zeros(n)
    ensures forall c :: c in RunCodes(n, maxPrefix) ==> Writable(c, maxPrefix) && c.symbol <= maxPrefix
    decreases n
  {
    if n == 0 {
    } else if n < Pow2(maxPrefix + 1) {
      OneCode(n, maxPrefix);
      EntriesOne(Coded(Log2(n), n - Pow2(Log2(n))), maxPrefix);
    } else {
      var c, longest := Coded(maxPrefix, Pow2(maxPrefix) - 1), Pow2(maxPrefix + 1) - 1;
      assert Pow2(maxPrefix + 1) == 2 * Pow2(maxPrefix);
      RunRestored(n - longest, maxPrefix);
      assert maxPrefix == 0 ==> Zeros(1) == [0];
      assert Entry(c, maxPrefix) == Zeros(longest);
      hide RunCodes, Pow2, Entries;
      EntriesOne(c, maxPrefix);
      EntriesAppend([c], RunCodes(n - longest, maxPrefix), maxPrefix);
      ZerosAppend(longest, n - longest);
      RunCodesLong(n, maxPrefix);
    }
  }

  lemma RunCodesLong(n: nat, maxPrefix: nat)
    requires n >= Pow2(maxPrefix + 1)
    ensures RunCodes(n, maxPrefix) == [Coded(maxPrefix, Pow2(maxPrefix) - 1)] +
            RunCodes(n - (Pow2(maxPrefix + 1) - 1), maxPrefix)
  {
  }

  lemma RunLengthNone(values: seq<nat>, maxPrefix: nat)
    ensures RunLengthCoded(values, |values|, maxPrefix) == []
  {
  }

  lemma RunLengthZeros(values: seq<nat>, i: nat, maxPrefix: nat)
    requires i < |values| && values[i] == 0
    ensures ZeroRun(values, i) > 0
    ensures RunLengthCoded(values, i, maxPrefix) ==
            RunCodes(ZeroRun(values, i), maxPrefix) + RunLengthCoded(values, i + ZeroRun(values, i), maxPrefix)
  {
  }

  lemma RunLengthValue(values: seq<nat>, i: nat, maxPrefix: nat)
    requires i < |values| && values[i] != 0
    ensures RunLengthCoded(values, i, maxPrefix) == [Coded(values[i] + maxPrefix, 0)] +
            RunLengthCoded(values, i + 1, maxPrefix)
  {
  }

  /** Codes that expand to the values from `i` on, each with extra bits the stream has room for. */
  predicate Expands(cs: seq<Coded>, values: seq<nat>, i: nat, end: nat, rleMax: nat)
  {
    i <= end <= |values| && Entries(cs, rleMax) == values[i..end] && forall c :: c in cs ==> Writable(c, rleMax)
  }

  lemma ExpandsOn(xs: seq<Coded>, ys: seq<Coded>, values: seq<nat>, i: nat, j: nat, k: nat, rleMax: nat)
    requires Expands(xs, values, i, j, rleMax) && Expands(ys, values, j, k, rleMax)
    ensures Expands(xs + ys, values, i, k, rleMax)
  {
    hide Entries, Writable;
    EntriesAppend(xs, ys, rleMax);
    assert values[i..k] == values[i..j] + values[j..k];
  }

  lemma ValueExpands(values: seq<nat>, i: nat, rleMax: nat)
    requires i < |values| && values[i] != 0
    ensures Expands([Coded(values[i] + rleMax, 0)], values, i, i + 1, rleMax)
  {
    EntriesOne(Coded(values[i] + rleMax, 0), rleMax);
    assert values[i..i + 1] == [values[i]];
  }

  lemma RunExpands(values: seq<nat>, i: nat, rleMax: nat)
    requires i <= |values|
    ensures Expands(RunCodes(ZeroRun(values, i), rleMax), values, i, i + ZeroRun(values, i), rleMax)
  {
    hide Entries, RunCodes, Writable;
    RunRestored(ZeroRun(values, i), rleMax);
  }

  /** Expanding the symbols gives back the values. */
  lemma {:induction false} RunLengthRestored(values: seq<nat>, i: nat, maxPrefix: nat)
    requires i <= |values|
    ensures Expands(RunLengthCoded(values, i, maxPrefix), values, i, |values|, maxPrefix)
    decreases |values| - i
  {
    hide *;
    if i == |values| {
      NothingExpands(values, maxPrefix);
    } else if values[i] != 0 {
      RunLengthRestored(values, i + 1, maxPrefix);
      ValueFirst(values, i, maxPrefix);
    } else {
      RunLengthZeros(values, i, maxPrefix);
      RunLengthRestored(values, i + ZeroRun(values, i), maxPrefix);
      RunFirst(values, i, maxPrefix);
    }
  }

  lemma NothingExpands(values: seq<nat>, rleMax: nat)
    ensures Expands(RunLengthCoded(values, |values|, rleMax), values, |values|, |values|, rleMax)
  {
    RunLengthNone(values, rleMax);
    assert values[|values|..] == [];
  }

  lemma ValueFirst(values: seq<nat>, i: nat, rleMax: nat)
    requires i < |values| && values[i] != 0 && Expands(RunLengthCoded(values, i + 1, rleMax), values, i + 1, |values|,
                                                       rleMax)
    ensures Expands(RunLengthCoded(values, i, rleMax), values, i, |values|, rleMax)
  {
    hide Expands, RunLengthCoded;
    RunLengthValue(values, i, rleMax);
    ValueExpands(values, i, rleMax);
    ExpandsOn([Coded(values[i] + rleMax, 0)], RunLengthCoded(values, i + 1, rleMax), values, i, i + 1, |values|,
              rleMax);
  }

  lemma RunFirst(values: seq<nat>, i: nat, rleMax: nat)
    requires i < |values| && values[i] == 0
    requires Expands(RunLengthCoded(values, i + ZeroRun(values, i), rleMax), values, i + ZeroRun(values, i), |values|,
                     rleMax)
    ensures Expands(RunLengthCoded(values, i, rleMax), values, i, |values|, rleMax)
  {
    hide Expands, RunLengthCoded, RunCodes, ZeroRun;
    var n := ZeroRun(values, i);
    RunLengthZeros(values, i, rleMax);
    RunExpands(values, i, rleMax);
    ExpandsOn(RunCodes(n, rleMax), RunLengthCoded(values, i + n, rleMax), values, i, i + n, |values|, rleMax);
  }

  /** Counts the zeros from `i` on. */
  method CountZeros(values: seq<nat>, i: nat) returns (n: nat)
    requires i <= |values|
    ensures n == ZeroRun(values, i)
  {
    n := 0;
    while i + n < |values| && values[i + n] == 0
      invariant i + n <= |values| && ZeroRun(values, i) == n + ZeroRun(values, i + n)
    {
      n := n + 1;
    }
  }

  predicate ZeroStretch(values: seq<nat>, a: nat, n: nat)
  {
    a + n <= |values| && forall i :: a <= i < a + n ==> values[i] == 0
  }

  /** No stretch of zeros that starts before `end` is longer than `most`. */
  ghost predicate NoLonger(values: seq<nat>, end: nat, most: nat)
  {
    forall a: nat, n: nat :: a < end && ZeroStretch(values, a, n) ==> n <= most
  }

  /** Past a value, or past a whole run. */
  lemma NoLongerPast(values: seq<nat>, end: nat, most: nat, run: nat)
    requires end + run <= |values| && NoLonger(values, end, most) && ZeroStretch(values, end, run)
    requires end + run < |values| ==> values[end + run] != 0
    ensures NoLonger(values, end + run, if most < run then run else most)
    ensures end + run < |values| ==> NoLonger(values, end + run + 1, if most < run then run else most)
  {
    forall a: nat, n: nat | a < end + run + 1 && ZeroStretch(values, a, n)
      ensures a < end + run || end + run < |values| ==> n <= if most < run then run else most
    {
    }
  }

  /** The longest run of zeros. */
  method LongestRun(values: seq<nat>) returns (longest: nat)
    ensures NoLonger(values, |values|, longest) && (longest > 0 ==> exists a: nat :: ZeroStretch(values, a, longest))
  {
    hide NoLonger;
    longest := 0;
    var index: nat := 0;
    NoneBefore(values, longest);
    ghost var at := 0;
    while index < |values|
      invariant index <= |values| && NoLonger(values, index, longest)
      invariant longest > 0 ==> ZeroStretch(values, at, longest)
    {
      while index < |values| && values[index] != 0
        invariant index <= |values| && NoLonger(values, index, longest)
      {
        NoLongerPast(values, index, longest, 0);
        index := index + 1;
      }
      var repetitions := CountZeros(values, index);
      RunIsStretch(values, index);
      NoLongerPast(values, index, longest, repetitions);
      if longest < repetitions {
        longest, at := repetitions, index;
      }
      index := index + repetitions;
      if repetitions == 0 {
        RunEnds(values, index);
      }
    }
  }

  lemma NoneBefore(values: seq<nat>, most: nat)
    ensures NoLonger(values, 0, most)
  {
  }

  lemma RunIsStretch(values: seq<nat>, i: nat)
    requires i <= |values|
    ensures var n := ZeroRun(values, i);
            i + n <= |values| && ZeroStretch(values, i, n) && (i + n < |values| ==> values[i + n] != 0)
  {
    var n := ZeroRun(values, i);
    forall k | i <= k < i + n
      ensures values[k] == 0
    {
      assert values[i..i + n][k - i] == Zeros(n)[k - i];
    }
  }

  /** The width for a longest run: it covers every run, unless it is the widest there is, and some run is
      long enough to need it. */
  lemma WidthFits(values: seq<nat>, longest: nat, width: nat)
    requires NoLonger(values, |values|, longest) && (longest > 0 ==> exists a: nat :: ZeroStretch(values, a, longest))
    requires width == if longest == 0 then 0 else Min(Log2(longest), MAX_CONTEXT_MAP_RUN_LENGTH_PREFIX)
    ensures width == MAX_CONTEXT_MAP_RUN_LENGTH_PREFIX || NoLonger(values, |values|, 2 * Pow2(width) - 1)
    ensures width > 0 ==> exists a: nat :: ZeroStretch(values, a, Pow2(width))
  {
    assert longest > 0 ==> longest < 2 * Pow2(Log2(longest));
    assert Pow2(0) == 1;
    if longest > 0 {
      var a: nat :| ZeroStretch(values, a, longest);
      Pow2Monotone(width, Log2(longest));
      assert Pow2(width) <= longest;
      hide Pow2, Log2;
      assert ZeroStretch(values, a, Pow2(width));
    }
  }

  /** Run symbols as wide as the longest run asks for, up to six bits. */
  method RunLengthCodeZeros(values: seq<nat>) returns (encoded: seq<Coded>, maxPrefix: nat)
    ensures maxPrefix <= MAX_CONTEXT_MAP_RUN_LENGTH_PREFIX
    ensures maxPrefix == MAX_CONTEXT_MAP_RUN_LENGTH_PREFIX || NoLonger(values, |values|, 2 * Pow2(maxPrefix) - 1)
    ensures maxPrefix > 0 ==> exists a: nat :: ZeroStretch(values, a, Pow2(maxPrefix))
    ensures encoded == RunLengthCoded(values, 0, maxPrefix)
  {
    hide RunLengthCoded, RunCodes, ZeroRun, Log2, NoLonger, ZeroStretch;
    var maxRepetitions := LongestRun(values);
    maxPrefix := 0;
    if maxRepetitions != 0 {
      maxPrefix := Log2(maxRepetitions);
      if maxPrefix > MAX_CONTEXT_MAP_RUN_LENGTH_PREFIX {
        maxPrefix := MAX_CONTEXT_MAP_RUN_LENGTH_PREFIX;
      }
    }
    WidthFits(values, maxRepetitions, maxPrefix);
    encoded := [];
    var index: nat := 0;
    ghost var rest := RunLengthCoded(values, 0, maxPrefix);
    assert [] + rest == rest;
    while index < |values|
      invariant index <= |values| && rest == RunLengthCoded(values, index, maxPrefix)
      invariant encoded + rest == RunLengthCoded(values, 0, maxPrefix)
      decreases |values| - index
    {
      if values[index] != 0 {
        RunLengthValue(values, index, maxPrefix);
        rest := RunLengthCoded(values, index + 1, maxPrefix);
        Regroup(encoded, [Coded(values[index] + maxPrefix, 0)], rest);
        encoded := encoded + [Coded(values[index] + maxPrefix, 0)];
        index := index + 1;
      } else {
        RunLengthZeros(values, index, maxPrefix);
        var repetitions := CountZeros(values, index);
        rest := RunLengthCoded(values, index + repetitions, maxPrefix);
        Regroup(encoded, RunCodes(repetitions, maxPrefix), rest);
        var run := CodeRun(repetitions, maxPrefix);
        encoded := encoded + run;
        index := index + repetitions;
      }
    }
    assert rest == [] by {
      RunLengthNone(values, maxPrefix);
    }
    assert encoded + [] == encoded;
  }

  lemma Regroup(xs: seq<Coded>, ys: seq<Coded>, zs: seq<Coded>)
    ensures xs + (ys + zs) == (xs + ys) + zs
  {
  }

  lemma RunEnds(values: seq<nat>, i: nat)
    requires i <= |values| && ZeroRun(values, i) == 0
    ensures i < |values| ==> values[i] != 0
  {
  }

  /** The symbols of one run. */
  method CodeRun(count: nat, maxPrefix: nat) returns (run: seq<Coded>)
    ensures run == RunCodes(count, maxPrefix)
  {
    run := [];
    var repetitions: nat := count;
    assert [] + RunCodes(count, maxPrefix) == RunCodes(count, maxPrefix);
    while repetitions != 0
      invariant run + RunCodes(repetitions, maxPrefix) == RunCodes(count, maxPrefix)
      decreases repetitions
    {
      if repetitions < Pow2(maxPrefix + 1) {
        var prefix := Log2(repetitions);
        return run + [Coded(prefix, repetitions - Pow2(prefix))];
      }
      assert Pow2(maxPrefix + 1) == 2 * Pow2(maxPrefix);
      Regroup(run, [Coded(maxPrefix, Pow2(maxPrefix) - 1)], RunCodes(repetitions - (Pow2(maxPrefix + 1) - 1),
                                                                     maxPrefix));
      run := run + [Coded(maxPrefix, Pow2(maxPrefix) - 1)];
      repetitions := repetitions - (Pow2(maxPrefix + 1) - 1);
    }
    assert run + [] == run;
  }

  /** The symbols of a map: its move-to-front positions in the list up to `m`, with the runs of zeros coded. */
  ghost predicate CodedFrom(coded: seq<Coded>, table: seq<nat>, m: nat, rleMax: nat)
  {
    && m < MTF_SIZE && (forall v :: v in table ==> v in UpTo(m + 1))
    && coded == RunLengthCoded(Transformed(UpTo(m + 1), table), 0, rleMax)
  }

  /** From the map to its symbols and back: what the symbols decode to restores the map, with no run too long. */
  method EncodeThenDecode(table: seq<nat>) returns (coded: seq<Coded>, rleMax: nat, restored: seq<nat>)
    requires table != [] && forall v :: v in table ==> v < MTF_SIZE
    ensures forall c :: c in coded ==> Writable(c, rleMax)
    ensures var entries := Decoded([], coded, rleMax, |table|);
            && entries.Some? && (forall v :: v in entries.value ==> v < MTF_SIZE)
            && restored == Restored(UpTo(MTF_SIZE), entries.value)
    ensures exists m :: CodedFrom(coded, table, m, rleMax)
    ensures restored == table
  {
    hide *;
    var transformed := MoveToFrontTransform(table);
    ghost var m: nat :| m in table && (forall v :: v in table ==> v in UpTo(m + 1)) &&
        transformed == Transformed(UpTo(m + 1), table);
    coded, rleMax := RunLengthCodeZeros(transformed);
    RunLengthRestored(transformed, 0, rleMax);
    ExpandsAll(coded, transformed, rleMax);
    DecodesEntries([], coded, rleMax, |table|);
    assert [] + transformed == transformed;
    RestoresTransformed(UpTo(m + 1), seq(MTF_SIZE - (m + 1), i => i + m + 1), table);
    LongerList(m);
    var entries := Decoded([], coded, rleMax, |table|).value;
    var slots := new nat[|entries|](i requires 0 <= i < |entries| => entries[i]);
    assert slots[..] == entries;
    assert forall i :: 0 <= i < slots.Length ==> slots[i] in entries;
    InverseMoveToFront(slots);
    restored := slots[..];
    CodedShown(coded, table, m, rleMax);
  }

  lemma CodedShown(coded: seq<Coded>, table: seq<nat>, m: nat, rleMax: nat)
    requires m < MTF_SIZE && (forall v :: v in table ==> v in UpTo(m + 1))
    requires coded == RunLengthCoded(Transformed(UpTo(m + 1), table), 0, rleMax)
    ensures CodedFrom(coded, table, m, rleMax)
  {
    hide RunLengthCoded, Transformed, UpTo;
  }

  lemma ExpandsAll(cs: seq<Coded>, values: seq<nat>, rleMax: nat)
    requires Expands(cs, values, 0, |values|, rleMax)
    ensures Entries(cs, rleMax) == values && forall c :: c in cs ==> Writable(c, rleMax)
  {
    assert values[0..|values|] == values;
  }

  lemma LongerList(m: nat)
    requires m < MTF_SIZE
    ensures UpTo(m + 1) + seq(MTF_SIZE - (m + 1), i => i + m + 1) == UpTo(MTF_SIZE) && |UpTo(m + 1)| <= MTF_SIZE
  {
  }

  /** The symbols of the map that gives every block type its own tree. */
  function TrivialFrom(t: nat, numTypes: nat, contextBits: nat): seq<Coded>
    requires t <= numTypes && contextBits >= 2
    decreases numTypes - t
  {
    if t == numTypes then []
    else
      [Coded(if t == 0 then 0 else t + contextBits - 1, 0), Coded(contextBits - 1, Pow2(contextBits - 1) - 1)] +
      TrivialFrom(t + 1, numTypes, contextBits)
  }

  /** Each type `n` times in a row. */
  function Repeated(t: nat, numTypes: nat, n: nat): seq<nat>
    requires t <= numTypes
    decreases numTypes - t
  {
    if t == numTypes then [] else Same(t, n) + Repeated(t + 1, numTypes, n)
  }

  /** Types in reverse order of appearance, then those still to come. */
  function Seen(t: nat): (list: seq<nat>)
    requires t <= MTF_SIZE
    ensures |list| == MTF_SIZE
  {
    seq(MTF_SIZE, i requires 0 <= i < MTF_SIZE => if i < t then t - 1 - i else i)
  }

  lemma SeenNext(t: nat)
    requires t < MTF_SIZE
    ensures Seen(t)[t] == t && ToFront(Seen(t), t) == Seen(t + 1)
  {
  }

  /** Zeros repeat what stands in front. */
  lemma {:induction false} ZerosRepeat(list: seq<nat>, n: nat, rest: seq<nat>)
    requires list != [] && forall i :: i in rest ==> i < |list|
    ensures forall i :: i in Zeros(n) + rest ==> i < |list|
    ensures Restored(list, Zeros(n) + rest) == Same(list[0], n) + Restored(list, rest)
    decreases n
  {
    if n == 0 {
      assert Zeros(0) + rest == rest;
    } else {
      ZerosRepeat(list, n - 1, rest);
      assert Zeros(n) + rest == [0] + (Zeros(n - 1) + rest);
      assert ToFront(list, 0) == list;
      RestoredStep(list, Zeros(n) + rest);
    }
  }

  /** The trivial map's symbols expand to each type's place and zeros behind it. */
  function TrivialEntries(t: nat, numTypes: nat, n: nat): seq<nat>
    requires t <= numTypes && n > 0
    decreases numTypes - t
  {
    if t == numTypes then [] else [t] + Zeros(n - 1) + TrivialEntries(t + 1, numTypes, n)
  }

  lemma {:induction false} TrivialExpands(t: nat, numTypes: nat, contextBits: nat)
    requires t <= numTypes && contextBits >= 2
    ensures Entries(TrivialFrom(t, numTypes, contextBits), contextBits - 1) ==
            TrivialEntries(t, numTypes, Pow2(contextBits))
    decreases numTypes - t
  {
    hide Entry, Pow2, Zeros, Entries, TrivialEntries, TrivialFrom;
    if t == numTypes {
      NoTypes(numTypes, contextBits);
    } else {
      var first := Coded(if t == 0 then 0 else t + contextBits - 1, 0);
      var run := Coded(contextBits - 1, Pow2(contextBits - 1) - 1);
      var rest := TrivialFrom(t + 1, numTypes, contextBits);
      TrivialEntry(t, contextBits, first, run);
      TrivialExpands(t + 1, numTypes, contextBits);
      TrivialStep(t, numTypes, contextBits, first, run);
      TrivialEntriesStep(t, numTypes, Pow2(contextBits));
      TwoEntries(first, run, rest, contextBits - 1);
    }
  }

  lemma NoTypes(numTypes: nat, contextBits: nat)
    requires contextBits >= 2
    ensures Entries(TrivialFrom(numTypes, numTypes, contextBits), contextBits - 1) ==
            TrivialEntries(numTypes, numTypes, Pow2(contextBits)) == []
  {
  }

  lemma TwoEntries(first: Coded, run: Coded, rest: seq<Coded>, rleMax: nat)
    ensures Entries([first] + [run] + rest, rleMax) == Entry(first, rleMax) + Entry(run, rleMax) + Entries(rest, rleMax)
  {
    hide Entry, Entries;
    EntriesAppend([first], [run], rleMax);
    EntriesAppend([first] + [run], rest, rleMax);
    EntriesOne(first, rleMax);
    EntriesOne(run, rleMax);
  }

  lemma TrivialEntry(t: nat, contextBits: nat, first: Coded, run: Coded)
    requires contextBits >= 2
    requires first == Coded(if t == 0 then 0 else t + contextBits - 1, 0) &&
             run == Coded(contextBits - 1, Pow2(contextBits - 1) - 1)
    ensures Entry(first, contextBits - 1) == [t] && Entry(run, contextBits - 1) == Zeros(Pow2(contextBits) - 1)
  {
    assert Pow2(contextBits) == 2 * Pow2(contextBits - 1);
  }

  lemma TrivialStep(t: nat, numTypes: nat, contextBits: nat, first: Coded, run: Coded)
    requires t < numTypes && contextBits >= 2
    requires first == Coded(if t == 0 then 0 else t + contextBits - 1, 0) &&
             run == Coded(contextBits - 1, Pow2(contextBits - 1) - 1)
    ensures TrivialFrom(t, numTypes, contextBits) == [first] + [run] + TrivialFrom(t + 1, numTypes, contextBits)
  {
    assert [first, run] == [first] + [run];
  }

  lemma TrivialEntriesStep(t: nat, numTypes: nat, n: nat)
    requires t < numTypes && n > 0
    ensures TrivialEntries(t, numTypes, n) == [t] + Zeros(n - 1) + TrivialEntries(t + 1, numTypes, n)
  {
  }

  lemma {:induction false} TrivialRestored(t: nat, numTypes: nat, n: nat)
    requires t <= numTypes <= MTF_SIZE && n > 0
    ensures forall i :: i in TrivialEntries(t, numTypes, n) ==> i < MTF_SIZE
    ensures Restored(Seen(t), TrivialEntries(t, numTypes, n)) == Repeated(t, numTypes, n)
    decreases numTypes - t
  {
    hide Restored, Seen, Zeros, Same, ToFront;
    if t < numTypes {
      TrivialRestored(t + 1, numTypes, n);
      TypeRestored(t, n, TrivialEntries(t + 1, numTypes, n));
      assert TrivialEntries(t, numTypes, n) == [t] + Zeros(n - 1) + TrivialEntries(t + 1, numTypes, n);
    } else {
      RestoredNone(Seen(t));
    }
  }

  /** A type's own entry and the zeros behind it. */
  lemma TypeRestored(t: nat, n: nat, rest: seq<nat>)
    requires t < MTF_SIZE && n > 0 && forall i :: i in rest ==> i < MTF_SIZE
    ensures var whole := [t] + Zeros(n - 1) + rest; forall i :: i in whole ==> i < MTF_SIZE
    ensures Restored(Seen(t), [t] + Zeros(n - 1) + rest) == Same(t, n) + Restored(Seen(t + 1), rest)
  {
    SeenNext(t);
    hide Restored, Zeros;
    var whole := [t] + Zeros(n - 1) + rest;
    assert whole == [t] + (Zeros(n - 1) + rest) && whole[1..] == Zeros(n - 1) + rest;
    ZerosRepeat(Seen(t + 1), n - 1, rest);
    RestoredStep(Seen(t), whole);
    assert [t] + (Same(t, n - 1) + Restored(Seen(t + 1), rest)) == Same(t, n) + Restored(Seen(t + 1), rest);
  }

  /** The trivial map is read back as every type repeated for all of its contexts. */
  lemma TrivialMapRoundTrip(numTypes: nat, contextBits: nat)
    requires 0 < numTypes <= MTF_SIZE && contextBits >= 2
    ensures var entries := Entries(TrivialFrom(0, numTypes, contextBits), contextBits - 1);
            && (forall i :: i in entries ==> i < MTF_SIZE)
            && Decoded([], TrivialFrom(0, numTypes, contextBits), contextBits - 1, |entries|) == Some(entries)
            && Restored(UpTo(MTF_SIZE), entries) == Repeated(0, numTypes, Pow2(contextBits))
  {
    var cs := TrivialFrom(0, numTypes, contextBits);
    TrivialExpands(0, numTypes, contextBits);
    TrivialRestored(0, numTypes, Pow2(contextBits));
    DecodesEntries([], cs, contextBits - 1, |Entries(cs, contextBits - 1)|);
    assert [] + Entries(cs, contextBits - 1) == Entries(cs, contextBits - 1);
    assert Seen(0) == UpTo(MTF_SIZE);
  }
}
