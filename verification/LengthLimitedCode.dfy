/** The whole builder of `src/encode/prefix_code.rs`: minimal lengths for the raised counts, the
    retry loop's termination and its 32-bit sums. */
module LengthLimitedCode {
  import opened Arithmetic
  import opened HuffmanTree
  import opened HuffmanOptimality
  import opened HuffmanMerge
  import opened HuffmanBuilder
  import opened HuffmanDepths
  import opened HuffmanLengths

  /** Exactly the symbols that occur have a length, and none is too long. */
  ghost predicate CoversUsed(counts: seq<nat>, lengths: seq<nat>, maxBits: nat)
  {
    |lengths| == |counts| && forall s :: 0 <= s < |counts| ==>
      lengths[s] <= maxBits && (lengths[s] > 0 <==> counts[s] > 0)
  }

  /** Some other lengths a prefix code could give the symbols that occur, by Kraft's inequality. */
  ghost predicate Competes(ws: seq<nat>, other: seq<nat>, limit: nat)
  {
    && |other| == |ws| && Space(other, limit) <= Pow2(limit)
    && forall s :: 0 <= s < |ws| && ws[s] != 0 ==> 0 < other[s] <= limit
  }

  ghost predicate Minimal(ws: seq<nat>, lengths: seq<nat>)
  {
    && |lengths| == |ws|
    && forall other: seq<nat>, limit: nat :: Competes(ws, other, limit) ==> Cost(ws, lengths) <= Cost(ws, other)
  }

  ghost predicate TooTall(counts: seq<nat>, limit: nat, maxBits: nat)
  {
    exists root :: BuiltFor(root, counts, limit) && Height(root) > maxBits
  }

  lemma {:induction false} ZerosSpace(n: nat, limit: nat)
    ensures Space(Zeros(n), limit) == 0
  {
    if n > 0 {
      ZerosSpace(n - 1, limit);
      assert Zeros(n)[1..] == Zeros(n - 1);
    }
  }

  lemma {:induction false} ZerosCost(ws: seq<nat>)
    ensures Cost(ws, Zeros(|ws|)) == 0
  {
    if ws != [] {
      ZerosCost(ws[1..]);
      assert Zeros(|ws|)[1..] == Zeros(|ws| - 1);
    }
  }

  /** A tree with two or more leaves fills the code space exactly. */
  lemma FilledSpace(root: Tree, n: nat, maxBits: nat)
    requires root.Node? && Distinct(root) && SymbolsUnder(root, n) && Height(root) <= maxBits
    ensures Space(Assign(Zeros(n), root, 0), maxBits) == Pow2(maxBits)
  {
    var zeros := Zeros(n);
    hide Zeros, Space;
    ZerosSpace(n, maxBits);
    AllZero(n);
    assert Blank(zeros, root);
    BlankSplits(zeros, root, 1);
    AssignSpace(zeros, root.left, 1, maxBits);
    AssignSpace(Assign(zeros, root.left, 1), root.right, 1, maxBits);
  }

  lemma AllZero(n: nat)
    ensures |Zeros(n)| == n && forall s :: 0 <= s < n ==> Zeros(n)[s] == 0
  {
  }

  /** A symbol below the root is at least one bit deep. */
  lemma AssignCovers(root: Tree, ws: seq<nat>, maxBits: nat)
    requires root.Node? && TreeFor(root, ws) && Height(root) <= maxBits
    ensures CoversUsed(ws, Assign(Zeros(|ws|), root, 0), maxBits)
  {
    var n := |ws|;
    var zeros := Zeros(n);
    var half := Assign(zeros, root.left, 1);
    assert Assign(zeros, root, 0) == Assign(half, root.right, 1);
    hide Assign, TreeFor;
    forall s | 0 <= s < n
      ensures var l := Assign(half, root.right, 1)[s]; l <= maxBits && (l > 0 <==> ws[s] > 0)
    {
      AllZero(n);
      AssignTouches(zeros, root.left, 1, s);
      AssignTouches(half, root.right, 1, s);
      SymbolsOfTreeFor(root, ws, s);
    }
  }

  lemma SymbolsOfTreeFor(root: Tree, ws: seq<nat>, s: nat)
    requires root.Node? && TreeFor(root, ws) && s < |ws|
    ensures (s in Symbols(root.left) || s in Symbols(root.right)) <==> ws[s] != 0
  {
    assert s in Symbols(root) <==> ws[s] != 0;
  }

  /** The tree's depths spend the least of all lengths that fit a code space of any width. */
  lemma TreeIsMinimal(root: Tree, counts: seq<nat>, limit: nat, other: seq<nat>, width: nat)
    requires BuiltFor(root, counts, limit) && Competes(Raised(counts, limit), other, width)
    ensures Cost(Raised(counts, limit), Assign(Zeros(|counts|), root, 0)) <= Cost(Raised(counts, limit), other)
  {
    var ws := Raised(counts, limit);
    TreeCost(root, counts, limit);
    hide BuiltFor, Raised, UsedItems, Sum, Cost, Space, GreedyCost, Weights, PoolWeights, Assign;
    UsedItemsSums(ws, other, 0, width);
    UsedItemsWeights(ws, other, 0);
    assert ws[0..] == ws && other[0..] == other;
    LowerBound(UsedItems(ws, other, 0), width);
  }

  lemma TreeCost(root: Tree, counts: seq<nat>, limit: nat)
    requires BuiltFor(root, counts, limit)
    ensures Cost(Raised(counts, limit), Assign(Zeros(|counts|), root, 0)) ==
            GreedyCost(PoolWeights(LeafTrees(LeafNodes(Raised(counts, limit), 0))))
  {
    var ws := Raised(counts, limit);
    hide Zeros, Cost, Assign, PathCost, MergeCost, Raised, GreedyCost;
    assert Blank(Zeros(|ws|), root) by {
      AllZero(|ws|);
    }
    AllZero(|ws|);
    AssignCost(ws, Zeros(|ws|), root, 0);
    ZerosCost(ws);
    PathCostIsMergeCost(root, 0);
  }

  lemma MinimalTree(root: Tree, counts: seq<nat>, limit: nat)
    requires BuiltFor(root, counts, limit)
    ensures Minimal(Raised(counts, limit), Assign(Zeros(|counts|), root, 0))
  {
    forall other: seq<nat>, width: nat | Competes(Raised(counts, limit), other, width)
      ensures Cost(Raised(counts, limit), Assign(Zeros(|counts|), root, 0)) <= Cost(Raised(counts, limit), other)
    {
      TreeIsMinimal(root, counts, limit, other, width);
    }
  }

  /** Raising counts to one changes nothing. */
  lemma RaisedToOne(counts: seq<nat>)
    ensures Raised(counts, 1) == counts
  {
  }

  lemma {:induction false} CostMonotone(ws: seq<nat>, less: seq<nat>, more: seq<nat>)
    requires |ws| == |less| == |more| && forall s :: 0 <= s < |ws| && ws[s] != 0 ==> less[s] <= more[s]
    ensures Cost(ws, less) <= Cost(ws, more)
  {
    if ws != [] {
      CostMonotone(ws[1..], less[1..], more[1..]);
      if ws[0] != 0 {
        MulMonotone(ws[0], less[0], more[0]);
      }
    }
  }

  /** One symbol alone gets one bit, the shortest length there is. */
  lemma SingleIsMinimal(counts: seq<nat>, lengths: seq<nat>)
    requires |lengths| == |counts| && forall s :: 0 <= s < |counts| ==> lengths[s] <= 1
    ensures Minimal(Raised(counts, 1), lengths)
  {
    RaisedToOne(counts);
    forall other: seq<nat>, width: nat | Competes(counts, other, width)
      ensures Cost(counts, lengths) <= Cost(counts, other)
    {
      CostMonotone(counts, lengths, other);
    }
  }

  /** The alphabets in use: at most 704 symbols at 15 bits, and the 18 code lengths at 5 bits. */
  predicate Supported(active: nat, maxCodeBits: nat)
  {
    (maxCodeBits == 15 && active <= 704) || (maxCodeBits == 5 && active <= 18)
  }

  function Slack(active: nat, maxCodeBits: nat): int
  {
    if maxCodeBits == 15 then 2584 - active else 21 - active
  }

  lemma FibValues()
    ensures Fib(18) == 2584 && Fib(8) == 21
  {
    FibUp(0);
    FibUp(2);
    FibUp(4);
    FibUp(6);
    FibUp(8);
    FibUp(10);
    FibUp(12);
    FibUp(14);
    FibUp(16);
  }

  lemma FibUp(n: nat)
    ensures Fib(n + 2) == Fib(n + 1) + Fib(n) && Fib(n + 3) == Fib(n + 2) + Fib(n + 1)
  {
  }

  lemma HeavyMeansEarly(f: nat, fh: nat, n: nat, limit: nat, weight: nat, total: nat)
    requires f <= fh && fh * limit <= weight <= total + n * limit
    ensures (f - n) * limit <= total
  {
    MulMonotone(limit, f, fh);
    assert (f - n) * limit == f * limit - n * limit;
  }

  /** A tree that is too tall weighs too much to have been raised far: the limit is still small. */
  lemma TooTallIsEarly(root: Tree, counts: seq<nat>, limit: nat, maxCodeBits: nat)
    requires BuiltFor(root, counts, limit) && Height(root) > maxCodeBits && Supported(Active(counts), maxCodeBits)
    ensures Slack(Active(counts), maxCodeBits) * limit <= Total(counts)
  {
    hide Fib, Height, Weight, Raised, Total, Active, TreeFor, Merged, LeavesFrom, MergeCost, GreedyCost, PoolWeights;
    var h := Height(root) + 2;
    TallTreesAreHeavy(root, limit);
    FibMonotone(maxCodeBits + 3, h);
    FibValues();
    RaisedTotal(counts, limit);
    HeavyMeansEarly(Fib(maxCodeBits + 3), Fib(h), Active(counts), limit, Weight(root), Total(counts));
  }

  lemma Raises(n: nat, limit: nat, total: nat, maxCodeBits: nat)
    requires Supported(n, maxCodeBits) && total <= MAX_TOTAL
    requires limit == 1 || Slack(n, maxCodeBits) * limit <= 2 * total
    ensures total + n * limit <= U32_MAX
  {
    if maxCodeBits == 15 {
      MulMonotone(limit, n, 704);
      assert (2584 - n) * limit == 2584 * limit - n * limit;
    } else {
      MulMonotone(limit, n, 18);
      assert (21 - n) * limit == 21 * limit - n * limit;
    }
  }

  /** As long as the limit is that small, no population exceeds 32 bits. */
  lemma SumsFit(counts: seq<nat>, limit: nat, maxCodeBits: nat)
    requires Supported(Active(counts), maxCodeBits) && Total(counts) <= MAX_TOTAL
    requires limit == 1 || Slack(Active(counts), maxCodeBits) * limit <= 2 * Total(counts)
    ensures Total(Raised(counts, limit)) <= U32_MAX
  {
    hide Raised, Total, Active, Supported, Slack;
    RaisedTotal(counts, limit);
    Raises(Active(counts), limit, Total(counts), maxCodeBits);
  }

  lemma LimitBounded(counts: seq<nat>, limit: nat, maxCodeBits: nat)
    requires Supported(Active(counts), maxCodeBits) && Slack(Active(counts), maxCodeBits) * limit <= Total(counts)
    ensures limit <= Total(counts)
  {
    hide Total, Active;
    MulMonotone(limit, 1, Slack(Active(counts), maxCodeBits));
  }

  lemma {:induction false} ActiveTotal(counts: seq<nat>)
    ensures Active(counts) <= Total(counts)
  {
    if counts != [] {
      ActiveTotal(counts[1..]);
    }
  }

  lemma {:induction false} NoneActive(counts: seq<nat>)
    requires Active(counts) == 0
    ensures forall s :: 0 <= s < |counts| ==> counts[s] == 0
  {
    if counts != [] {
      NoneActive(counts[1..]);
      assert forall s :: 0 < s < |counts| ==> counts[s] == counts[1..][s - 1];
    }
  }

  /** The first symbol that occurs. */
  method FirstUsed(counts: seq<nat>) returns (symbol: nat)
    requires Active(counts) == 1
    ensures symbol < |counts| && forall s :: 0 <= s < |counts| ==> (counts[s] > 0 <==> s == symbol)
  {
    symbol := 0;
    assert counts[0..] == counts;
    while counts[symbol] == 0
      invariant symbol < |counts| && Active(counts[symbol..]) == 1
      invariant forall s :: 0 <= s < symbol ==> counts[s] == 0
      decreases |counts| - symbol
    {
      assert counts[symbol..][1..] == counts[symbol + 1..];
      symbol := symbol + 1;
    }
    assert counts[symbol..][1..] == counts[symbol + 1..];
    NoneActive(counts[symbol + 1..]);
    assert forall s :: symbol < s < |counts| ==> counts[s] == counts[symbol + 1..][s - symbol - 1];
  }

  /** Code lengths of at most `maxCodeBits` bits. They are minimal for the counts raised to the
      final limit, and the limit was raised only because the tree before was too tall. */
  method HuffmanCodeLengthsWithLimit(counts: seq<nat>, maxCodeBits: nat) returns (lengths: seq<nat>, ghost limit: nat)
    requires Active(counts) > 0 && Supported(Active(counts), maxCodeBits) && Total(counts) <= MAX_TOTAL
    ensures CoversUsed(counts, lengths, maxCodeBits)
    ensures Active(counts) > 1 ==> Space(lengths, maxCodeBits) == Pow2(maxCodeBits)
    ensures Active(counts) == 1 ==> forall s :: 0 <= s < |lengths| ==> lengths[s] <= 1
    ensures Minimal(Raised(counts, limit), lengths)
    ensures limit != 1 ==> TooTall(counts, 1, maxCodeBits) && TooTall(counts, limit / 2, maxCodeBits)
  {
    hide Active, Total, Raised, Minimal, BuiltFor, WellFormed, LeafSymbols, TreeAt, Space, Assign, Height;
    if Active(counts) == 1 {
      var symbol := FirstUsed(counts);
      lengths := Zeros(|counts|)[symbol := 1];
      limit := 1;
      SingleIsMinimal(counts, lengths);
      return;
    }
    var countLimit: nat := 1;
    ActiveTotal(counts);
    while true
      invariant countLimit == 1 || Slack(Active(counts), maxCodeBits) * countLimit <= 2 * Total(counts)
      invariant 0 < countLimit <= 2 * Total(counts)
      invariant countLimit != 1 ==> TooTall(counts, 1, maxCodeBits) && TooTall(counts, countLimit / 2, maxCodeBits)
      decreases 2 * Total(counts) - countLimit
    {
      SumsFit(counts, countLimit, maxCodeBits);
      var nodes := BuildNodes(counts, countLimit);
      var root := |nodes| - 1;
      ghost var tree := TreeAt(nodes, root);
      var ok, depths := SetHuffmanDepths(nodes, root, Zeros(|counts|), maxCodeBits);
      if ok {
        TreeFits(tree, counts, countLimit, maxCodeBits);
        return depths, countLimit;
      }
      TooTallIsEarly(tree, counts, countLimit, maxCodeBits);
      LimitBounded(counts, countLimit, maxCodeBits);
      assert TooTall(counts, countLimit, maxCodeBits);
      countLimit := 2 * countLimit;
    }
  }

  lemma TreeFits(root: Tree, counts: seq<nat>, limit: nat, maxCodeBits: nat)
    requires BuiltFor(root, counts, limit) && root.Node? && Height(root) <= maxCodeBits && limit > 0
    ensures var lengths := Assign(Zeros(|counts|), root, 0);
            && CoversUsed(counts, lengths, maxCodeBits) && Space(lengths, maxCodeBits) == Pow2(maxCodeBits)
            && Minimal(Raised(counts, limit), lengths)
  {
    hide Space, Assign, Minimal, Zeros, Height;
    MinimalTree(root, counts, limit);
    FilledSpace(root, |counts|, maxCodeBits);
    AssignCovers(root, Raised(counts, limit), maxCodeBits);
  }
}
