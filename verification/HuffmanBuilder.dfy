/** The length-limited builder of `src/encode/prefix_code.rs`: node vector, two-queue merge,
    depth walk with an explicit stack, and the loop that raises small counts until the tree fits. */
module HuffmanBuilder {
  import opened HuffmanTree
  import opened HuffmanOptimality
  import opened HuffmanMerge
  import opened HuffmanSort

  const MAX_CODE_BITS: nat := 15
  const U32_MAX: nat := 0xffff_ffff

  function LeafNode(count: nat, symbol: nat): HuffmanNode
  {
    HuffmanNode(count, LEAF_SENTINEL, symbol)
  }

  /** The tree a node stands for; children come before their parent. */
  function TreeAt(nodes: seq<HuffmanNode>, i: nat): Tree
    requires i < |nodes|
  {
    var n := nodes[i];
    if n.left < i && n.rightOrSymbol < i && !n.IsLeaf() then
      Node(TreeAt(nodes, n.left), TreeAt(nodes, n.rightOrSymbol))
    else
      Leaf(n.totalCount, n.rightOrSymbol)
  }

  /** The trees of the nodes from `a` up to `b`. */
  function Trees(nodes: seq<HuffmanNode>, a: nat, b: nat): (ts: seq<Tree>)
    requires a <= b <= |nodes|
    ensures |ts| == b - a
    decreases b - a
  {
    if a == b then [] else [TreeAt(nodes, a)] + Trees(nodes, a + 1, b)
  }

  lemma {:induction false} TreesLast(nodes: seq<HuffmanNode>, a: nat, b: nat)
    requires a <= b < |nodes|
    ensures Trees(nodes, a, b + 1) == Trees(nodes, a, b) + [TreeAt(nodes, b)]
    decreases b - a
  {
    if a < b {
      TreesLast(nodes, a + 1, b);
    }
  }

  lemma {:induction false} TreeAtPrefix(nodes: seq<HuffmanNode>, n: HuffmanNode, i: nat)
    requires i < |nodes|
    ensures TreeAt(nodes + [n], i) == TreeAt(nodes, i)
    decreases i
  {
    var m := nodes[i];
    if m.left < i && m.rightOrSymbol < i && !m.IsLeaf() {
      TreeAtPrefix(nodes, n, m.left);
      TreeAtPrefix(nodes, n, m.rightOrSymbol);
    }
  }

  lemma {:induction false} TreesPrefix(nodes: seq<HuffmanNode>, n: HuffmanNode, a: nat, b: nat)
    requires a <= b <= |nodes|
    ensures Trees(nodes + [n], a, b) == Trees(nodes, a, b)
    decreases b - a
  {
    if a < b {
      TreeAtPrefix(nodes, n, a);
      TreesPrefix(nodes, n, a + 1, b);
    }
  }

  /** Internal nodes point backwards and every node carries its tree's weight. */
  ghost predicate WellFormed(nodes: seq<HuffmanNode>)
  {
    && |nodes| <= LEAF_SENTINEL
    && forall i :: 0 <= i < |nodes| ==>
         && (!nodes[i].IsLeaf() ==> nodes[i].left < i && nodes[i].rightOrSymbol < i)
         && nodes[i].totalCount == Weight(TreeAt(nodes, i))
  }

  lemma WellFormedAppend(nodes: seq<HuffmanNode>, left: nat, right: nat)
    requires WellFormed(nodes) && |nodes| < LEAF_SENTINEL && left < |nodes| && right < |nodes|
    ensures var n := HuffmanNode(nodes[left].totalCount + nodes[right].totalCount, left, right);
            && WellFormed(nodes + [n])
            && TreeAt(nodes + [n], |nodes|) == Node(TreeAt(nodes, left), TreeAt(nodes, right))
  {
    var n := HuffmanNode(nodes[left].totalCount + nodes[right].totalCount, left, right);
    var more := nodes + [n];
    TreeAtPrefix(nodes, n, left);
    TreeAtPrefix(nodes, n, right);
    forall i | 0 <= i < |nodes|
      ensures more[i] == nodes[i] && TreeAt(more, i) == TreeAt(nodes, i)
    {
      TreeAtPrefix(nodes, n, i);
    }
  }

  /** The two queues the cursors describe. */
  function QueuesAt(nodes: seq<HuffmanNode>, leafCount: nat, nextLeaf: nat, nextParent: nat): Queues
    requires nextLeaf <= leafCount <= nextParent <= |nodes|
  {
    Queues(Trees(nodes, nextLeaf, leafCount), Trees(nodes, nextParent, |nodes|))
  }

  /** Takes the lighter of the next leaf and the next parent. */
  method TakeSmallestNode(nodes: seq<HuffmanNode>, leafCount: nat, nextLeaf: nat, nextParent: nat)
    returns (result: nat, leaf: nat, parent: nat)
    requires WellFormed(nodes) && nextLeaf <= leafCount <= nextParent <= |nodes|
    requires nextLeaf < leafCount || nextParent < |nodes|
    ensures result < |nodes| && nextLeaf <= leaf <= leafCount && nextParent <= parent <= |nodes|
    ensures var q := QueuesAt(nodes, leafCount, nextLeaf, nextParent);
            TreeAt(nodes, result) == First(q) && QueuesAt(nodes, leafCount, leaf, parent) == Rest(q)
  {
    hide WellFormed, TreeAt, Weight;
    FrontWeights(nodes);
    if nextLeaf < leafCount && (nextParent >= |nodes| || nodes[nextLeaf].totalCount <= nodes[nextParent].totalCount) {
      return nextLeaf, nextLeaf + 1, nextParent;
    } else {
      return nextParent, nextLeaf, nextParent + 1;
    }
  }

  lemma FrontWeights(nodes: seq<HuffmanNode>)
    requires WellFormed(nodes)
    ensures forall i :: 0 <= i < |nodes| ==> nodes[i].totalCount == Weight(TreeAt(nodes, i))
  {
  }

  function PoolTotal(ts: seq<Tree>): nat
  {
    if ts == [] then 0 else Weight(ts[0]) + PoolTotal(ts[1..])
  }

  lemma {:induction false} PoolTotalAppend(xs: seq<Tree>, ys: seq<Tree>)
    ensures PoolTotal(xs + ys) == PoolTotal(xs) + PoolTotal(ys)
  {
    if xs == [] {
      assert xs + ys == ys;
    } else {
      assert (xs + ys)[1..] == xs[1..] + ys;
      PoolTotalAppend(xs[1..], ys);
    }
  }

  lemma TotalTake(q: Queues)
    requires All(q) != []
    ensures PoolTotal(All(q)) == Weight(First(q)) + PoolTotal(All(Rest(q)))
  {
    hide Weight;
    PoolTotalAppend(q.leaves, q.parents);
    PoolTotalAppend(Rest(q).leaves, Rest(q).parents);
  }

  /** Merging moves weight around without changing its total, so no sum exceeds the total. */
  lemma TotalStep(q: Queues)
    requires |All(q)| >= 2
    ensures PoolTotal(All(Step(q))) == PoolTotal(All(q))
    ensures Weight(First(q)) + Weight(First(Rest(q))) <= PoolTotal(All(q))
  {
    StepAll(q);
    TotalTake(q);
    TotalTake(Rest(q));
    var n := Node(First(q), First(Rest(q)));
    PoolTotalAppend(All(Rest(Rest(q))), [n]);
    assert PoolTotal([n]) == Weight(n);
  }

  /** What every merge preserves, from the sorted leaves to the root. */
  ghost predicate Merging(q: Queues, leaves: seq<Tree>, last: nat, least: nat)
  {
    && Ready(q, last, least)
    && PoolBag(All(q)) == PoolBag(leaves)
    && GreedyCost(PoolWeights(All(q))) + PoolMergeCost(All(q)) == GreedyCost(PoolWeights(leaves))
    && PoolTotal(All(q)) == PoolTotal(leaves)
  }

  lemma MergingStep(q: Queues, leaves: seq<Tree>, last: nat, least: nat) returns (later: nat)
    requires |All(q)| >= 2 && Merging(q, leaves, last, least)
    ensures Merging(Step(q), leaves, later, least) && |All(Step(q))| == |All(q)| - 1
    ensures Weight(First(q)) + Weight(First(Rest(q))) <= PoolTotal(leaves)
  {
    hide Ready, PoolBag, GreedyCost, PoolWeights, PoolMergeCost, PoolTotal, First, Rest, Step, Weight;
    StepKeepsLeaves(q);
    StepPaysGreedily(q, last, least);
    TotalStep(q);
    later := StepKeepsReady(q, last, least);
  }

  predicate AllLeaves(leaves: seq<HuffmanNode>, least: nat)
  {
    forall i :: 0 <= i < |leaves| ==> leaves[i].IsLeaf() && least <= leaves[i].totalCount
  }

  lemma MergingStarts(leaves: seq<HuffmanNode>, least: nat)
    requires Sorted(leaves) && AllLeaves(leaves, least) && |leaves| <= LEAF_SENTINEL
    ensures WellFormed(leaves)
    ensures var ts := Trees(leaves, 0, |leaves|); Merging(QueuesAt(leaves, |leaves|, 0, |leaves|), ts, 0, least)
  {
    var ts := Trees(leaves, 0, |leaves|);
    LeavesReady(leaves, least);
    assert Trees(leaves, |leaves|, |leaves|) == [];
    assert All(QueuesAt(leaves, |leaves|, 0, |leaves|)) == ts;
    LeavesHaveNoCost(ts);
  }

  lemma LeavesReady(leaves: seq<HuffmanNode>, least: nat)
    requires Sorted(leaves) && AllLeaves(leaves, least) && |leaves| <= LEAF_SENTINEL
    ensures var ts := Trees(leaves, 0, |leaves|);
            && (forall i :: 0 <= i < |ts| ==> ts[i].Leaf?) && Ascending(ts)
            && (forall t :: t in ts ==> Pending(t, 0, least))
  {
    var ts := Trees(leaves, 0, |leaves|);
    TreesIndex(leaves, 0, |leaves|);
    forall i | 0 <= i < |ts|
      ensures ts[i] == Leaf(leaves[i].totalCount, leaves[i].rightOrSymbol) && Pending(ts[i], 0, least)
    {
      assert ts[i] == TreeAt(leaves, i);
    }
    forall i, j | 0 <= i < j < |ts|
      ensures Weight(ts[i]) <= Weight(ts[j])
    {
      assert !Before(leaves[j], leaves[i]);
    }
  }

  lemma TreesIndex(nodes: seq<HuffmanNode>, a: nat, b: nat)
    requires a <= b <= |nodes|
    ensures forall i :: 0 <= i < b - a ==> Trees(nodes, a, b)[i] == TreeAt(nodes, a + i)
  {
    forall i | 0 <= i < b - a
      ensures Trees(nodes, a, b)[i] == TreeAt(nodes, a + i)
    {
      TreesAt(nodes, a, b, i);
    }
  }

  lemma {:induction false} TreesAt(nodes: seq<HuffmanNode>, a: nat, b: nat, i: nat)
    requires a <= b <= |nodes| && i < b - a
    ensures Trees(nodes, a, b)[i] == TreeAt(nodes, a + i)
    decreases i
  {
    hide TreeAt;
    if i > 0 {
      TreesAt(nodes, a + 1, b, i - 1);
    }
  }

  lemma {:induction false} LeavesHaveNoCost(ts: seq<Tree>)
    requires forall i :: 0 <= i < |ts| ==> ts[i].Leaf?
    ensures PoolMergeCost(ts) == 0
  {
    if ts != [] {
      LeavesHaveNoCost(ts[1..]);
    }
  }

  /** Adding the parent node performs the step on the queues. */
  lemma PushStep(nodes: seq<HuffmanNode>, leafCount: nat, nextLeaf: nat, nextParent: nat, n: HuffmanNode, q: Queues)
    requires nextLeaf <= leafCount <= nextParent <= |nodes|
    requires QueuesAt(nodes, leafCount, nextLeaf, nextParent) == Rest(Rest(q))
    requires TreeAt(nodes + [n], |nodes|) == Node(First(q), First(Rest(q)))
    ensures QueuesAt(nodes + [n], leafCount, nextLeaf, nextParent) == Step(q)
  {
    hide TreeAt;
    TreesPrefix(nodes, n, nextLeaf, leafCount);
    TreesLast(nodes + [n], nextParent, |nodes|);
    TreesPrefix(nodes, n, nextParent, |nodes|);
  }

  /** What the merge makes of its leaves. */
  ghost predicate MergedInto(root: Tree, leaves: seq<Tree>, least: nat)
  {
    && Bag(root) == PoolBag(leaves) && MergeCost(root) == GreedyCost(PoolWeights(leaves))
    && Merged(root) && LeavesFrom(root, least) && Weight(root) == PoolTotal(leaves)
  }

  lemma MergingEnds(q: Queues, leaves: seq<Tree>, last: nat, least: nat)
    requires |All(q)| == 1 && Merging(q, leaves, last, least)
    ensures MergedInto(All(q)[0], leaves, least)
  {
    var root := All(q)[0];
    assert All(q) == [root];
    PoolSingle(root);
    PoolSize(All(q));
    assert root in q.leaves || root in q.parents;
    assert PoolTotal([root]) == Weight(root);
    assert Pending(root, last, least);
    assert GreedyCost(PoolWeights(All(q))) == 0;
  }

  /** Merges the two lightest pending nodes until one is left; no sum overflows 32 bits. */
  method MergeNodes(leaves: seq<HuffmanNode>, ghost least: nat) returns (nodes: seq<HuffmanNode>)
    requires Sorted(leaves) && AllLeaves(leaves, least) && leaves != [] && 2 * |leaves| - 1 < LEAF_SENTINEL
    requires PoolTotal(Trees(leaves, 0, |leaves|)) <= U32_MAX
    ensures |nodes| == 2 * |leaves| - 1 && WellFormed(nodes)
    ensures nodes[..|leaves|] == leaves && forall i :: |leaves| <= i < |nodes| ==> !nodes[i].IsLeaf()
    ensures MergedInto(TreeAt(nodes, |nodes| - 1), Trees(leaves, 0, |leaves|), least)
  {
    hide Merging, MergedInto, Ready, WellFormed, TreeAt, Trees, First, Rest, Step, PoolTotal, Sorted, AllLeaves, Weight;
    nodes := leaves;
    var leafCount := |leaves|;
    var nextLeaf: nat, nextParent: nat := 0, leafCount;
    ghost var ts := Trees(leaves, 0, |leaves|);
    ghost var last: nat := 0;
    MergingStarts(leaves, least);
    QueuesSize(nodes, leafCount, nextLeaf, nextParent);
    for k := 1 to leafCount
      invariant |nodes| == leafCount + k - 1 && WellFormed(nodes)
      invariant nodes[..leafCount] == leaves && forall i :: leafCount <= i < |nodes| ==> !nodes[i].IsLeaf()
      invariant nextLeaf <= leafCount <= nextParent <= |nodes|
      invariant (leafCount - nextLeaf) + (|nodes| - nextParent) == leafCount - k + 1
      invariant k > 1 ==> nextParent < |nodes|
      invariant Merging(QueuesAt(nodes, leafCount, nextLeaf, nextParent), ts, last, least)
    {
      ghost var q := QueuesAt(nodes, leafCount, nextLeaf, nextParent);
      QueuesSize(nodes, leafCount, nextLeaf, nextParent);
      last := MergingStep(q, ts, last, least);
      var left, leaf, parent := TakeSmallestNode(nodes, leafCount, nextLeaf, nextParent);
      QueuesSize(nodes, leafCount, leaf, parent);
      StepAll(q);
      var right, leaf', parent' := TakeSmallestNode(nodes, leafCount, leaf, parent);
      QueuesSize(nodes, leafCount, leaf', parent');
      FrontWeights(nodes);
      var total := nodes[left].totalCount + nodes[right].totalCount;
      assert total <= U32_MAX;
      var n := HuffmanNode(total, left, right);
      WellFormedAppend(nodes, left, right);
      PushStep(nodes, leafCount, leaf', parent', n, q);
      nodes := nodes + [n];
      nextLeaf, nextParent := leaf', parent';
      QueuesSize(nodes, leafCount, nextLeaf, nextParent);
    }

    OnlyRootLeft(nodes, leafCount, nextLeaf, nextParent);
    MergingEnds(QueuesAt(nodes, leafCount, nextLeaf, nextParent), ts, last, least);
  }

  lemma QueuesSize(nodes: seq<HuffmanNode>, leafCount: nat, nextLeaf: nat, nextParent: nat)
    requires nextLeaf <= leafCount <= nextParent <= |nodes|
    ensures |All(QueuesAt(nodes, leafCount, nextLeaf, nextParent))| == (leafCount - nextLeaf) + (|nodes| - nextParent)
  {
  }

  lemma OnlyRootLeft(nodes: seq<HuffmanNode>, leafCount: nat, nextLeaf: nat, nextParent: nat)
    requires nextLeaf <= leafCount <= nextParent <= |nodes| && nodes != []
    requires (leafCount - nextLeaf) + (|nodes| - nextParent) == 1
    requires nextParent < |nodes| || leafCount == |nodes|
    ensures All(QueuesAt(nodes, leafCount, nextLeaf, nextParent)) == [TreeAt(nodes, |nodes| - 1)]
  {
    var root := |nodes| - 1;
    assert Trees(nodes, |nodes|, |nodes|) == [];
    assert Trees(nodes, root, |nodes|) == [TreeAt(nodes, root)];
  }
}
