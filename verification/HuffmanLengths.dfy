/** Code lengths for a histogram: the retry loop around the builder, and what its result is worth. */
module HuffmanLengths {
  import opened Arithmetic
  import opened HuffmanTree
  import opened HuffmanOptimality
  import opened HuffmanMerge
  import opened HuffmanSort
  import opened HuffmanBuilder
  import opened HuffmanDepths

  /** Histogram totals up to here keep every sum within 32 bits; a metablock has at most 2^24 symbols. */
  const MAX_TOTAL: nat := 0x1000_0000

  function Total(counts: seq<nat>): nat
  {
    if counts == [] then 0 else counts[0] + Total(counts[1..])
  }

  lemma {:induction false} TotalOne(f: seq<nat>, s: nat)
    requires s < |f|
    ensures Total(f[s := f[s] + 1]) == Total(f) + 1
  {
    if s > 0 {
      TotalOne(f[1..], s - 1);
      assert f[s := f[s] + 1][1..] == f[1..][s - 1 := f[1..][s - 1] + 1];
    } else {
      assert f[s := f[s] + 1][1..] == f[1..];
    }
  }

  lemma {:induction false} ZerosTotal(n: nat)
    ensures Total(Zeros(n)) == 0
  {
    if n > 0 {
      ZerosTotal(n - 1);
      assert Zeros(n)[1..] == Zeros(n - 1);
    }
  }

  /** How many symbols occur. */
  function Active(counts: seq<nat>): nat
  {
    if counts == [] then 0 else (if counts[0] != 0 then 1 else 0) + Active(counts[1..])
  }

  function RaisedCount(count: nat, limit: nat): nat
  {
    if count == 0 then 0 else if count < limit then limit else count
  }

  /** Every nonzero count lifted to at least the limit. */
  function Raised(counts: seq<nat>, limit: nat): (ws: seq<nat>)
    ensures |ws| == |counts| && forall s :: 0 <= s < |ws| ==> ws[s] == RaisedCount(counts[s], limit)
  {
    seq(|counts|, s requires 0 <= s < |counts| => RaisedCount(counts[s], limit))
  }

  lemma {:induction false} RaisedTotal(counts: seq<nat>, limit: nat)
    ensures Total(Raised(counts, limit)) <= Total(counts) + Active(counts) * limit
  {
    if counts != [] {
      RaisedTotal(counts[1..], limit);
      assert Raised(counts, limit)[1..] == Raised(counts[1..], limit);
      var tail := Active(counts[1..]);
      assert Active(counts) * limit == tail * limit + (if counts[0] != 0 then limit else 0);
    }
  }

  /** The leaves of the symbols from `from` on that occur, in symbol order. */
  function LeafNodes(ws: seq<nat>, from: nat): (nodes: seq<HuffmanNode>)
    requires from <= |ws|
    decreases |ws| - from
  {
    if from == |ws| then []
    else (if ws[from] == 0 then [] else [LeafNode(ws[from], from)]) + LeafNodes(ws, from + 1)
  }

  function LeafTree(n: HuffmanNode): Tree
  {
    Leaf(n.totalCount, n.rightOrSymbol)
  }

  function LeafTrees(nodes: seq<HuffmanNode>): (ts: seq<Tree>)
    ensures |ts| == |nodes|
  {
    if nodes == [] then [] else [LeafTree(nodes[0])] + LeafTrees(nodes[1..])
  }

  lemma {:induction false} LeafTreesAppend(xs: seq<HuffmanNode>, ys: seq<HuffmanNode>)
    ensures LeafTrees(xs + ys) == LeafTrees(xs) + LeafTrees(ys)
  {
    if xs == [] {
      assert xs + ys == ys;
    } else {
      assert (xs + ys)[1..] == xs[1..] + ys;
      LeafTreesAppend(xs[1..], ys);
    }
  }

  lemma {:induction false} LeavesAreTrees(nodes: seq<HuffmanNode>, least: nat, from: nat)
    requires AllLeaves(nodes, least) && from <= |nodes|
    ensures Trees(nodes, from, |nodes|) == LeafTrees(nodes[from..])
    decreases |nodes| - from
  {
    if from < |nodes| {
      LeavesAreTrees(nodes, least, from + 1);
      assert nodes[from..][1..] == nodes[from + 1..];
    }
  }

  /** What a pool of leaves adds up to. */
  datatype Sums = Sums(bag: multiset<(nat, nat)>, weights: multiset<nat>, total: nat)

  function SumsOf(ts: seq<Tree>): Sums
  {
    Sums(PoolBag(ts), PoolWeights(ts), PoolTotal(ts))
  }

  lemma SumsMiddle(xs: seq<Tree>, t: Tree, ys: seq<Tree>, zs: seq<Tree>)
    requires SumsOf(zs) == SumsOf(xs + ys)
    ensures SumsOf([t] + zs) == SumsOf(xs + ([t] + ys))
  {
    hide PoolBag, PoolWeights, Weight, PoolMergeCost;
    PoolCons(t, zs);
    PoolMiddle(xs, t, ys);
    PoolTotalAppend(xs, [t] + ys);
    PoolTotalAppend([t], ys);
    PoolTotalAppend(xs, ys);
    PoolTotalAppend([t], zs);
  }

  /** Sorting does not change what the leaves add up to. */
  lemma {:induction false} PermutedSums(xs: seq<HuffmanNode>, ys: seq<HuffmanNode>)
    requires multiset(xs) == multiset(ys)
    ensures SumsOf(LeafTrees(xs)) == SumsOf(LeafTrees(ys))
    decreases |xs|
  {
    hide SumsOf, LeafTrees;
    if xs == [] {
      assert |multiset(ys)| == 0;
    } else {
      var front, back := FindFirst(xs, ys);
      PermutedSums(xs[1..], front + back);
      MovedToFront(xs[0], xs[1..], front, back);
    }
  }

  /** The first of `xs` sits somewhere in its permutation `ys`. */
  lemma FindFirst(xs: seq<HuffmanNode>, ys: seq<HuffmanNode>) returns (front: seq<HuffmanNode>, back: seq<HuffmanNode>)
    requires xs != [] && multiset(xs) == multiset(ys)
    ensures ys == front + ([xs[0]] + back) && xs == [xs[0]] + xs[1..]
    ensures multiset(xs[1..]) == multiset(front + back)
  {
    var x := xs[0];
    assert x in multiset(ys);
    var k :| 0 <= k < |ys| && ys[k] == x;
    front, back := ys[..k], ys[k + 1..];
    assert ys == front + ([x] + back);
    assert xs == [x] + xs[1..];
    BagWithout(xs[1..], front, back, x);
  }

  lemma BagWithout(rest: seq<HuffmanNode>, front: seq<HuffmanNode>, back: seq<HuffmanNode>, x: HuffmanNode)
    requires multiset([x] + rest) == multiset(front + ([x] + back))
    ensures multiset(rest) == multiset(front + back)
  {
    assert multiset([x] + rest) - multiset{x} == multiset(rest);
    assert multiset(front + ([x] + back)) - multiset{x} == multiset(front + back);
  }

  lemma MovedToFront(x: HuffmanNode, rest: seq<HuffmanNode>, front: seq<HuffmanNode>, back: seq<HuffmanNode>)
    requires SumsOf(LeafTrees(rest)) == SumsOf(LeafTrees(front + back))
    ensures SumsOf(LeafTrees([x] + rest)) == SumsOf(LeafTrees(front + ([x] + back)))
  {
    assert LeafTrees([x]) == [LeafTree(x)];
    hide SumsOf, LeafTrees;
    LeafTreesAppend(front, back);
    LeafTreesAppend(front, [x] + back);
    LeafTreesAppend([x], back);
    LeafTreesAppend([x], rest);
    SumsMiddle(LeafTrees(front), LeafTree(x), LeafTrees(back), LeafTrees(rest));
  }

  lemma {:induction false} LeafNodesFacts(ws: seq<nat>, from: nat)
    requires from <= |ws|
    ensures forall n :: n in LeafNodes(ws, from) ==>
              n.IsLeaf() && from <= n.rightOrSymbol < |ws| && n.totalCount == ws[n.rightOrSymbol] != 0
    ensures |LeafNodes(ws, from)| == Active(ws[from..])
    ensures PoolTotal(LeafTrees(LeafNodes(ws, from))) == Total(ws[from..])
    decreases |ws| - from
  {
    if from < |ws| {
      LeafNodesFacts(ws, from + 1);
      assert ws[from..][1..] == ws[from + 1..];
      var head := if ws[from] == 0 then [] else [LeafNode(ws[from], from)];
      LeafTreesAppend(head, LeafNodes(ws, from + 1));
      PoolTotalAppend(LeafTrees(head), LeafTrees(LeafNodes(ws, from + 1)));
    }
  }

  lemma BagCons(n: HuffmanNode, rest: seq<HuffmanNode>, p: (nat, nat))
    ensures PoolBag(LeafTrees([n] + rest))[p] == (if p == (n.rightOrSymbol, n.totalCount) then 1 else 0) +
            PoolBag(LeafTrees(rest))[p]
  {
    assert ([n] + rest)[1..] == rest;
    PoolCons(LeafTree(n), LeafTrees(rest));
  }

  /** Every symbol that occurs is in the bag once, with its own weight, and nothing else is. */
  lemma {:induction false} UsedOnce(ws: seq<nat>, from: nat, p: (nat, nat))
    requires from <= |ws|
    ensures PoolBag(LeafTrees(LeafNodes(ws, from)))[p] == if from <= p.0 < |ws| && ws[p.0] == p.1 != 0 then 1 else 0
    decreases |ws| - from
  {
    if from < |ws| {
      hide PoolBag, LeafTrees;
      UsedOnce(ws, from + 1, p);
      if ws[from] != 0 {
        BagCons(LeafNode(ws[from], from), LeafNodes(ws, from + 1), p);
      } else {
        assert [] + LeafNodes(ws, from + 1) == LeafNodes(ws, from + 1);
      }
    }
  }

  /** No leaf occurs more often than the histogram allows. */
  ghost predicate Within(t: Tree, ws: seq<nat>)
  {
    forall p: (nat, nat) :: Bag(t)[p] <= if p.0 < |ws| && ws[p.0] == p.1 != 0 then 1 else 0
  }

  lemma {:induction false} WithinLabels(t: Tree, ws: seq<nat>)
    requires Within(t, ws)
    ensures Labels(t, ws) && Distinct(t) && SymbolsUnder(t, |ws|)
    ensures forall s :: s in Symbols(t) ==> s < |ws| && ws[s] != 0 && (s, ws[s]) in Bag(t)
    decreases t
  {
    match t {
      case Leaf(w, s) =>
        assert Bag(t)[(s, w)] == 1;
      case Node(l, r) =>
        assert forall p :: Bag(t)[p] == Bag(l)[p] + Bag(r)[p];
        WithinLabels(l, ws);
        WithinLabels(r, ws);
        forall s | s in Symbols(l)
          ensures s !in Symbols(r)
        {
          var p := (s, ws[s]);
          assert Bag(l)[p] >= 1;
          assert Bag(l)[p] + Bag(r)[p] <= 1;
        }
    }
  }

  lemma {:induction false} BagSymbols(t: Tree, p: (nat, nat))
    requires p in Bag(t)
    ensures p.0 in Symbols(t)
  {
    if t.Node? {
      if p in Bag(t.left) {
        BagSymbols(t.left, p);
      } else {
        assert p in Bag(t.right);
        BagSymbols(t.right, p);
      }
    }
  }

  /** A tree over exactly the symbols of a histogram. */
  ghost predicate TreeFor(t: Tree, ws: seq<nat>)
  {
    && Labels(t, ws) && Distinct(t) && SymbolsUnder(t, |ws|)
    && forall s :: s in Symbols(t) <==> 0 <= s < |ws| && ws[s] != 0
  }

  lemma BagMakesTreeFor(t: Tree, ws: seq<nat>)
    requires Bag(t) == PoolBag(LeafTrees(LeafNodes(ws, 0)))
    ensures TreeFor(t, ws)
  {
    forall p: (nat, nat)
      ensures Bag(t)[p] == if p.0 < |ws| && ws[p.0] == p.1 != 0 then 1 else 0
    {
      UsedOnce(ws, 0, p);
    }
    WithinLabels(t, ws);
    forall s | 0 <= s < |ws| && ws[s] != 0
      ensures s in Symbols(t)
    {
      BagSymbols(t, (s, ws[s]));
    }
  }

  /** The weights and lengths of the symbols that occur. */
  function UsedItems(ws: seq<nat>, ls: seq<nat>, from: nat): (items: seq<Item>)
    requires from <= |ws| == |ls|
    decreases |ws| - from
  {
    if from == |ws| then []
    else (if ws[from] == 0 then [] else [Item(ws[from], ls[from])]) + UsedItems(ws, ls, from + 1)
  }

  lemma ItemCons(x: Item, rest: seq<Item>, f: Item -> nat)
    ensures Sum([x] + rest, f) == f(x) + Sum(rest, f)
    ensures multiset(Weights([x] + rest)) == multiset{x.weight} + multiset(Weights(rest))
  {
    assert ([x] + rest)[1..] == rest;
    assert Weights([x] + rest) == [x.weight] + Weights(rest);
  }

  lemma CostCons(ws: seq<nat>, ls: seq<nat>, from: nat, limit: nat)
    requires from < |ws| == |ls|
    ensures Cost(ws[from..], ls[from..]) == ws[from] * ls[from] + Cost(ws[from + 1..], ls[from + 1..])
    ensures Space(ls[from..], limit) == Share(ls[from], limit) + Space(ls[from + 1..], limit)
  {
    assert ws[from..][1..] == ws[from + 1..] && ls[from..][1..] == ls[from + 1..];
  }

  lemma UsedStep(ws: seq<nat>, ls: seq<nat>, from: nat, f: Item -> nat)
    requires from < |ws| == |ls|
    ensures Sum(UsedItems(ws, ls, from), f) ==
            (if ws[from] == 0 then 0 else f(Item(ws[from], ls[from]))) + Sum(UsedItems(ws, ls, from + 1), f)
  {
    var rest := UsedItems(ws, ls, from + 1);
    hide Sum;
    if ws[from] != 0 {
      ItemCons(Item(ws[from], ls[from]), rest, f);
    } else {
      assert [] + rest == rest;
    }
  }

  lemma {:induction false} UsedItemsSums(ws: seq<nat>, ls: seq<nat>, from: nat, limit: nat)
    requires from <= |ws| == |ls|
    requires forall s :: from <= s < |ws| && ws[s] != 0 ==> 0 < ls[s] <= limit
    ensures LengthsUpTo(UsedItems(ws, ls, from), limit)
    ensures Sum(UsedItems(ws, ls, from), BitsOf()) == Cost(ws[from..], ls[from..])
    ensures Sum(UsedItems(ws, ls, from), RoomOf(limit)) <= Space(ls[from..], limit)
    decreases |ws| - from
  {
    if from < |ws| {
      UsedItemsSums(ws, ls, from + 1, limit);
      hide Sum, Cost, Space;
      CostCons(ws, ls, from, limit);
      UsedStep(ws, ls, from, BitsOf());
      UsedStep(ws, ls, from, RoomOf(limit));
    } else {
      assert ws[from..] == [] && ls[from..] == [];
    }
  }

  lemma LeafCons(n: HuffmanNode, rest: seq<HuffmanNode>)
    ensures PoolWeights(LeafTrees([n] + rest)) == multiset{n.totalCount} + PoolWeights(LeafTrees(rest))
  {
    assert ([n] + rest)[1..] == rest;
    PoolCons(LeafTree(n), LeafTrees(rest));
  }

  lemma {:induction false} UsedItemsWeights(ws: seq<nat>, ls: seq<nat>, from: nat)
    requires from <= |ws| == |ls|
    ensures multiset(Weights(UsedItems(ws, ls, from))) == PoolWeights(LeafTrees(LeafNodes(ws, from)))
    decreases |ws| - from
  {
    if from < |ws| {
      hide PoolWeights, LeafTrees, Weights;
      UsedItemsWeights(ws, ls, from + 1);
      var rest, nodes := UsedItems(ws, ls, from + 1), LeafNodes(ws, from + 1);
      if ws[from] != 0 {
        ItemCons(Item(ws[from], ls[from]), rest, BitsOf());
        LeafCons(LeafNode(ws[from], from), nodes);
      } else {
        assert [] + rest == rest && [] + nodes == nodes;
      }
    }
  }

  /** What one pass over the raised counts builds. */
  ghost predicate BuiltFor(root: Tree, counts: seq<nat>, limit: nat)
  {
    var ws := Raised(counts, limit);
    && TreeFor(root, ws) && Merged(root) && LeavesFrom(root, limit) && Weight(root) == Total(ws)
    && MergeCost(root) == GreedyCost(PoolWeights(LeafTrees(LeafNodes(ws, 0))))
  }

  lemma BuiltFromLeaves(root: Tree, counts: seq<nat>, limit: nat, leaves: seq<HuffmanNode>)
    requires multiset(leaves) == multiset(LeafNodes(Raised(counts, limit), 0)) && limit > 0
    requires AllLeaves(leaves, limit) && MergedInto(root, Trees(leaves, 0, |leaves|), limit)
    ensures BuiltFor(root, counts, limit)
  {
    hide PoolBag, PoolWeights, PoolTotal, LeafTrees, Trees, LeafNodes, GreedyCost, TreeFor, Merged, LeavesFrom, Weight,
         MergeCost, Bag;
    var ws := Raised(counts, limit);
    LeavesAreTrees(leaves, limit, 0);
    assert leaves[0..] == leaves;
    PermutedSums(leaves, LeafNodes(ws, 0));
    BagMakesTreeFor(root, ws);
    LeafNodesFacts(ws, 0);
    assert ws[0..] == ws;
  }

  lemma SortedLeaves(leaves: seq<HuffmanNode>, ws: seq<nat>, counts: seq<nat>, limit: nat)
    requires multiset(leaves) == multiset(LeafNodes(ws, 0)) && ws == Raised(counts, limit) && limit > 0
    ensures AllLeaves(leaves, limit) && LeafSymbols(leaves, |counts|) && |leaves| == Active(counts)
    ensures PoolTotal(Trees(leaves, 0, |leaves|)) == Total(ws)
  {
    PermutedFacts(leaves, ws, counts, limit);
    hide PoolBag, PoolWeights, PoolTotal, LeafTrees, Trees, LeafNodes;
    RaisedActive(counts, limit);
    LeavesAreTrees(leaves, limit, 0);
    assert leaves[0..] == leaves;
    PermutedSums(leaves, LeafNodes(ws, 0));
  }

  lemma PermutedFacts(leaves: seq<HuffmanNode>, ws: seq<nat>, counts: seq<nat>, limit: nat)
    requires multiset(leaves) == multiset(LeafNodes(ws, 0)) && ws == Raised(counts, limit)
    ensures AllLeaves(leaves, limit) && LeafSymbols(leaves, |counts|) && |leaves| == Active(ws)
    ensures PoolTotal(LeafTrees(LeafNodes(ws, 0))) == Total(ws)
  {
    hide PoolTotal, LeafTrees, LeafNodes, Total, Active;
    LeafNodesFacts(ws, 0);
    assert ws[0..] == ws;
    assert |leaves| == |multiset(leaves)| == |LeafNodes(ws, 0)|;
    forall i | 0 <= i < |leaves|
      ensures leaves[i] in LeafNodes(ws, 0)
    {
      assert leaves[i] in multiset(leaves);
    }
  }

  lemma {:induction false} RaisedActive(counts: seq<nat>, limit: nat)
    requires limit > 0
    ensures Active(Raised(counts, limit)) == Active(counts)
  {
    if counts != [] {
      RaisedActive(counts[1..], limit);
      assert Raised(counts, limit)[1..] == Raised(counts[1..], limit);
    }
  }

  /** One pass: collect the leaves, sort them, merge them. */
  method BuildNodes(counts: seq<nat>, limit: nat) returns (nodes: seq<HuffmanNode>)
    requires limit > 0 && Active(counts) > 0 && 2 * Active(counts) - 1 < LEAF_SENTINEL
    requires Total(Raised(counts, limit)) <= U32_MAX
    ensures |nodes| == 2 * Active(counts) - 1 && WellFormed(nodes) && LeafSymbols(nodes, |counts|)
    ensures BuiltFor(TreeAt(nodes, |nodes| - 1), counts, limit)
    ensures Active(counts) > 1 ==> TreeAt(nodes, |nodes| - 1).Node?
  {
    hide LeafNodes, Raised, BuiltFor, WellFormed, MergedInto, TreeAt, Trees, PoolTotal, Sorted, Active, Total,
         AllLeaves, LeafSymbols;
    ghost var ws := Raised(counts, limit);
    nodes := [];
    for symbol := 0 to |counts|
      invariant nodes + LeafNodes(ws, symbol) == LeafNodes(ws, 0)
    {
      LeafNodesStep(ws, symbol);
      RaisedAt(counts, limit, symbol);
      if counts[symbol] != 0 {
        nodes := nodes + [LeafNode(if counts[symbol] < limit then limit else counts[symbol], symbol)];
      }
    }
    LeafNodesEnd(ws);
    ghost var collected := nodes;
    assert collected + [] == collected;
    var slots := new HuffmanNode[|nodes|](i requires 0 <= i < |nodes| => nodes[i]);
    assert slots[..] == collected;
    SortHuffmanNodes(slots);
    ghost var sorted := slots[..];
    SortedLeaves(sorted, ws, counts, limit);
    nodes := MergeNodes(slots[..], limit);
    BuiltFromLeaves(TreeAt(nodes, |nodes| - 1), counts, limit, sorted);
    OnlyLeavesNameSymbols(nodes, sorted, |counts|);
    if Active(counts) > 1 {
      ParentTree(nodes, |nodes| - 1);
    }
  }

  lemma ParentTree(nodes: seq<HuffmanNode>, i: nat)
    requires WellFormed(nodes) && i < |nodes| && !nodes[i].IsLeaf()
    ensures TreeAt(nodes, i).Node?
  {
  }

  lemma OnlyLeavesNameSymbols(nodes: seq<HuffmanNode>, leaves: seq<HuffmanNode>, n: nat)
    requires LeafSymbols(leaves, n) && leaves <= nodes && forall i :: |leaves| <= i < |nodes| ==> !nodes[i].IsLeaf()
    ensures LeafSymbols(nodes, n)
  {
  }

  lemma RaisedAt(counts: seq<nat>, limit: nat, s: nat)
    requires s < |counts|
    ensures Raised(counts, limit)[s] == RaisedCount(counts[s], limit)
  {
  }

  lemma LeafNodesStep(ws: seq<nat>, from: nat)
    requires from < |ws|
    ensures LeafNodes(ws, from) == (if ws[from] == 0 then [] else [LeafNode(ws[from], from)]) + LeafNodes(ws, from + 1)
  {
  }

  lemma LeafNodesEnd(ws: seq<nat>)
    ensures LeafNodes(ws, |ws|) == []
  {
  }
}
