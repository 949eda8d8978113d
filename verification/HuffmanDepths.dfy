/** The depth walk: leaf depths become code lengths by an explicit stack of pending right
    children, giving up as soon as a level exceeds the limit. */
module HuffmanDepths {
  import opened HuffmanTree
  import opened HuffmanSort
  import opened HuffmanBuilder

  /** The lengths once the pending right children on levels `level` down to 1 are assigned too. */
  ghost function AssignPending(lengths: seq<nat>, nodes: seq<HuffmanNode>, stack: seq<nat>, level: nat): seq<nat>
    requires level < |stack|
    decreases level
  {
    if level == 0 then
      lengths
    else if stack[level] < |nodes| then
      AssignPending(Assign(lengths, TreeAt(nodes, stack[level]), level), nodes, stack, level - 1)
    else
      AssignPending(lengths, nodes, stack, level - 1)
  }

  /** Whether the pending right children stay within the limit. */
  ghost predicate PendingFits(nodes: seq<HuffmanNode>, stack: seq<nat>, level: nat, limit: nat)
    requires level < |stack|
    decreases level
  {
    level > 0 ==>
      && (stack[level] < |nodes| ==> level + Height(TreeAt(nodes, stack[level])) <= limit)
      && PendingFits(nodes, stack, level - 1, limit)
  }

  ghost function PendingSize(nodes: seq<HuffmanNode>, stack: seq<nat>, level: nat): nat
    requires level < |stack|
    decreases level
  {
    if level == 0 then 0
    else
      (if stack[level] < |nodes| then Size(TreeAt(nodes, stack[level])) else 0) + PendingSize(nodes, stack, level - 1)
  }

  /** Only the levels up to `level` matter. */
  lemma {:induction false} PendingAbove(lengths: seq<nat>, nodes: seq<HuffmanNode>, stack: seq<nat>, level: nat,
                                        at: nat, x: nat, limit: nat)
    requires level < at < |stack|
    ensures AssignPending(lengths, nodes, stack[at := x], level) == AssignPending(lengths, nodes, stack, level)
    ensures PendingFits(nodes, stack[at := x], level, limit) == PendingFits(nodes, stack, level, limit)
    ensures PendingSize(nodes, stack[at := x], level) == PendingSize(nodes, stack, level)
    decreases level
  {
    if level > 0 {
      PendingAbove(if stack[level] < |nodes| then Assign(lengths, TreeAt(nodes, stack[level]), level) else lengths,
                   nodes, stack, level - 1, at, x, limit);
    }
  }

  /** The state of the walk at a node: what is assigned, plus the node's own tree, plus what is
      pending, makes the lengths of the whole tree; and all of it fits if the whole tree does. */
  ghost predicate Walking(nodes: seq<HuffmanNode>, stack: seq<nat>, level: nat, node: nat, limit: nat,
                          lengths: seq<nat>,
                          goal: seq<nat>, fits: bool)
  {
    && level < |stack| && node < |nodes| && |nodes| <= LEAF_SENTINEL
    && AssignPending(Assign(lengths, TreeAt(nodes, node), level), nodes, stack, level) == goal
    && (fits <==> level + Height(TreeAt(nodes, node)) <= limit && PendingFits(nodes, stack, level, limit))
  }

  ghost function WorkLeft(nodes: seq<HuffmanNode>, stack: seq<nat>, level: nat, node: nat): nat
    requires level < |stack| && node < |nodes|
  {
    Size(TreeAt(nodes, node)) + PendingSize(nodes, stack, level)
  }

  lemma Descend(nodes: seq<HuffmanNode>, stack: seq<nat>, level: nat, node: nat, limit: nat, lengths: seq<nat>,
                goal: seq<nat>, fits: bool)
    requires WellFormed(nodes) && Walking(nodes, stack, level, node, limit, lengths, goal, fits) &&
             !nodes[node].IsLeaf()
    ensures level + 1 > limit ==> !fits
    ensures var n := nodes[node];
            var pushed := if level + 1 < |stack| then stack[level + 1 := n.rightOrSymbol] else stack;
            level + 1 < |stack| ==>
              && Walking(nodes, pushed, level + 1, n.left, limit, lengths, goal, fits)
              && WorkLeft(nodes, pushed, level + 1, n.left) < WorkLeft(nodes, stack, level, node)
  {
    var n := nodes[node];
    var l, r := TreeAt(nodes, n.left), TreeAt(nodes, n.rightOrSymbol);
    assert TreeAt(nodes, node) == Node(l, r);
    if level + 1 < |stack| {
      PendingAbove(Assign(Assign(lengths, l, level + 1), r, level + 1), nodes, stack, level, level + 1, n.rightOrSymbol,
                   limit);
    }
  }

  /** A popped level goes on with the right child it remembered. */
  lemma Resume(nodes: seq<HuffmanNode>, stack: seq<nat>, level: nat, limit: nat, lengths: seq<nat>)
    requires 0 < level < |stack| && stack[level] < |nodes| && |nodes| <= LEAF_SENTINEL
    ensures var popped := stack[level := LEAF_SENTINEL];
            var node := stack[level];
            && AssignPending(Assign(lengths, TreeAt(nodes, node), level), nodes, popped, level) ==
               AssignPending(lengths, nodes, stack, level)
            && (level + Height(TreeAt(nodes, node)) <= limit && PendingFits(nodes, popped, level, limit) <==>
                PendingFits(nodes, stack, level, limit))
            && WorkLeft(nodes, popped, level, node) == PendingSize(nodes, stack, level)
  {
    PendingAbove(Assign(lengths, TreeAt(nodes, stack[level]), level), nodes, stack, level - 1, level, LEAF_SENTINEL,
                 limit);
  }

  /** A leaf gets its level; what is pending remains. */
  lemma LeafAssigned(nodes: seq<HuffmanNode>, stack: seq<nat>, level: nat, node: nat, limit: nat, lengths: seq<nat>,
                     goal: seq<nat>, fits: bool)
    requires WellFormed(nodes) && Walking(nodes, stack, level, node, limit, lengths, goal, fits)
    requires nodes[node].IsLeaf() && nodes[node].rightOrSymbol < |lengths| && level <= limit
    ensures AssignPending(lengths[nodes[node].rightOrSymbol := level], nodes, stack, level) == goal
    ensures fits <==> PendingFits(nodes, stack, level, limit)
    ensures PendingSize(nodes, stack, level) < WorkLeft(nodes, stack, level, node)
  {
  }

  lemma PendingStep(nodes: seq<HuffmanNode>, stack: seq<nat>, level: nat, limit: nat, lengths: seq<nat>)
    requires level < |stack|
    ensures level == 0 ==>
            AssignPending(lengths, nodes, stack, level) == lengths && PendingFits(nodes, stack, level, limit)
    ensures level > 0 && stack[level] >= |nodes| ==>
              && AssignPending(lengths, nodes, stack, level) == AssignPending(lengths, nodes, stack, level - 1)
              && PendingFits(nodes, stack, level, limit) == PendingFits(nodes, stack, level - 1, limit)
              && PendingSize(nodes, stack, level) == PendingSize(nodes, stack, level - 1)
  {
  }

  lemma StartOfWalk(nodes: seq<HuffmanNode>, stack: seq<nat>, root: nat, limit: nat, blank: seq<nat>)
    requires stack != [] && root < |nodes| && |nodes| <= LEAF_SENTINEL
    ensures Walking(nodes, stack, 0, root, limit, blank, Assign(blank, TreeAt(nodes, root), 0),
                    Height(TreeAt(nodes, root)) <= limit)
  {
  }

  predicate LeafSymbols(nodes: seq<HuffmanNode>, n: nat)
  {
    forall i :: 0 <= i < |nodes| && nodes[i].IsLeaf() ==> nodes[i].rightOrSymbol < n
  }

  predicate PointsBack(nodes: seq<HuffmanNode>)
  {
    forall i :: 0 <= i < |nodes| && !nodes[i].IsLeaf() ==> nodes[i].left < i && nodes[i].rightOrSymbol < i
  }

  /** Assigns leaf depths; false exactly when the tree is taller than the limit. */
  method SetHuffmanDepths(nodes: seq<HuffmanNode>, root: nat, blank: seq<nat>, maxCodeBits: nat)
    returns (ok: bool, lengths: seq<nat>)
    requires WellFormed(nodes) && root < |nodes| && maxCodeBits <= MAX_CODE_BITS
    requires LeafSymbols(nodes, |blank|)
    ensures ok <==> Height(TreeAt(nodes, root)) <= maxCodeBits
    ensures ok ==> lengths == Assign(blank, TreeAt(nodes, root), 0)
  {
    var stack: seq<nat> := seq(MAX_CODE_BITS + 1, _ => LEAF_SENTINEL);
    var level: nat := 0;
    var nodeIndex: nat := root;
    lengths := blank;
    ghost var goal := Assign(blank, TreeAt(nodes, root), 0);
    ghost var fits := Height(TreeAt(nodes, root)) <= maxCodeBits;
    assert PointsBack(nodes) && |nodes| <= LEAF_SENTINEL;
    hide AssignPending, PendingFits, PendingSize, Assign, Height, TreeAt, Size, Walking, WellFormed, WorkLeft;
    StartOfWalk(nodes, stack, root, maxCodeBits, blank);
    while true
      invariant |stack| == MAX_CODE_BITS + 1 && stack[0] == LEAF_SENTINEL && level <= maxCodeBits &&
                nodeIndex < |nodes| && |lengths| == |blank|
      invariant forall j :: 0 <= j <= level ==> stack[j] == LEAF_SENTINEL || stack[j] < |nodes|
      invariant Walking(nodes, stack, level, nodeIndex, maxCodeBits, lengths, goal, fits)
      decreases WorkLeft(nodes, stack, level, nodeIndex)
    {
      var node := nodes[nodeIndex];
      if !node.IsLeaf() {
        Descend(nodes, stack, level, nodeIndex, maxCodeBits, lengths, goal, fits);
        level := level + 1;
        if level > maxCodeBits {
          return false, lengths;
        }
        stack := stack[level := node.rightOrSymbol];
        nodeIndex := node.left;
        continue;
      }

      LeafAssigned(nodes, stack, level, nodeIndex, maxCodeBits, lengths, goal, fits);
      lengths := lengths[node.rightOrSymbol := level];
      ghost var work := PendingSize(nodes, stack, level);
      while stack[level] == LEAF_SENTINEL
        invariant level <= maxCodeBits
        invariant AssignPending(lengths, nodes, stack, level) == goal &&
                  (fits <==> PendingFits(nodes, stack, level, maxCodeBits))
        invariant PendingSize(nodes, stack, level) == work
        invariant forall j :: 0 <= j <= level ==> stack[j] == LEAF_SENTINEL || stack[j] < |nodes|
        decreases level
      {
        PendingStep(nodes, stack, level, maxCodeBits, lengths);
        if level == 0 {
          return true, lengths;
        }
        level := level - 1;
      }
      Resume(nodes, stack, level, maxCodeBits, lengths);
      ResumeWalks(nodes, stack, level, maxCodeBits, lengths, goal, fits);
      nodeIndex := stack[level];
      stack := stack[level := LEAF_SENTINEL];
    }
  }

  lemma ResumeWalks(nodes: seq<HuffmanNode>, stack: seq<nat>, level: nat, limit: nat, lengths: seq<nat>, goal: seq<nat>,
                    fits: bool)
    requires 0 < level < |stack| && stack[level] < |nodes| && |nodes| <= LEAF_SENTINEL
    requires AssignPending(lengths, nodes, stack, level) == goal && (fits <==> PendingFits(nodes, stack, level, limit))
    ensures Walking(nodes, stack[level := LEAF_SENTINEL], level, stack[level], limit, lengths, goal, fits)
  {
    Resume(nodes, stack, level, limit, lengths);
  }
}
