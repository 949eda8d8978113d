/** Huffman trees as values: their weights, heights and fringes, the growth of merged trees, and
    what assigning leaf depths as code lengths means for cost and code space. */
module HuffmanTree {
  import opened Arithmetic

  datatype Tree = Leaf(count: nat, symbol: nat) | Node(left: Tree, right: Tree)

  function Weight(t: Tree): nat
  {
    match t
    case Leaf(w, _) => w
    case Node(l, r) => Weight(l) + Weight(r)
  }

  function Height(t: Tree): nat
  {
    match t
    case Leaf(_, _) => 0
    case Node(l, r) => 1 + if Height(l) < Height(r) then Height(r) else Height(l)
  }

  function Size(t: Tree): (n: nat)
    ensures n > 0
  {
    match t
    case Leaf(_, _) => 1
    case Node(l, r) => 1 + Size(l) + Size(r)
  }

  /** The leaves of a tree, as pairs of symbol and weight. */
  function Bag(t: Tree): multiset<(nat, nat)>
  {
    match t
    case Leaf(w, s) => multiset{(s, w)}
    case Node(l, r) => Bag(l) + Bag(r)
  }

  /** The sum of all internal node weights. */
  function MergeCost(t: Tree): nat
  {
    match t
    case Leaf(_, _) => 0
    case Node(l, r) => Weight(t) + MergeCost(l) + MergeCost(r)
  }

  /** The weighted sum of leaf depths, for a tree whose root is at `depth`. */
  function PathCost(t: Tree, depth: nat): nat
  {
    match t
    case Leaf(w, _) => w * depth
    case Node(l, r) => PathCost(l, depth + 1) + PathCost(r, depth + 1)
  }

  /** Weighted path length counts each internal node once. */
  lemma {:induction false} PathCostIsMergeCost(t: Tree, depth: nat)
    ensures PathCost(t, depth) == Weight(t) * depth + MergeCost(t)
  {
    if t.Node? {
      PathCostIsMergeCost(t.left, depth + 1);
      PathCostIsMergeCost(t.right, depth + 1);
      calc {
        Weight(t.left) * (depth + 1) + Weight(t.right) * (depth + 1);
        (Weight(t.left) + Weight(t.right)) * (depth + 1);
        Weight(t) * depth + Weight(t);
      }
    }
  }

  /** The children of a node, which were the two lightest trees when it was made, weigh at most `last`. */
  predicate ChildrenUpTo(t: Tree, last: nat)
  {
    t.Node? ==> Weight(t.left) <= last && Weight(t.right) <= last
  }

  /** Every node was merged from the lightest trees: a sibling is no lighter than a nephew. */
  predicate Merged(t: Tree)
  {
    t.Node? ==>
      && Merged(t.left) && Merged(t.right)
      && ChildrenUpTo(t.left, Weight(t.right)) && ChildrenUpTo(t.right, Weight(t.left))
  }

  predicate LeavesFrom(t: Tree, least: nat)
  {
    match t
    case Leaf(w, _) => least <= w
    case Node(l, r) => LeavesFrom(l, least) && LeavesFrom(r, least)
  }

  function Fib(n: nat): nat
  {
    if n < 2 then n else Fib(n - 1) + Fib(n - 2)
  }

  lemma {:induction false} FibMonotone(m: nat, n: nat)
    requires 1 <= m <= n
    ensures 1 <= Fib(m) <= Fib(n)
    decreases n
  {
    if m < n {
      FibMonotone(m, n - 1);
      if n > 2 {
        FibMonotone(1, n - 2);
      }
    } else if n >= 2 {
      FibMonotone(1, n - 1);
    }
  }

  /** A tall child brings a light grandchild's weight on top: merged trees grow like Fibonacci numbers. */
  lemma {:induction false} TallTreesAreHeavy(t: Tree, least: nat)
    requires Merged(t) && LeavesFrom(t, least)
    ensures Weight(t) >= Fib(Height(t) + 2) * least
    decreases t, 0
  {
    if t.Node? {
      if Height(t.left) >= Height(t.right) {
        TallChild(t.left, t.right, least);
      } else {
        TallChild(t.right, t.left, least);
      }
    } else {
      assert Fib(2) == 1;
    }
  }

  lemma {:induction false} TallChild(tall: Tree, other: Tree, least: nat)
    requires Merged(tall) && LeavesFrom(tall, least) && LeavesFrom(other, least)
    requires ChildrenUpTo(tall, Weight(other))
    ensures Weight(tall) + Weight(other) >= Fib(Height(tall) + 3) * least
    decreases tall, 1
  {
    var h := Height(tall);
    TallTreesAreHeavy(tall, least);
    if tall.Node? {
      var nephew := if Height(tall.left) >= Height(tall.right) then tall.left else tall.right;
      TallTreesAreHeavy(nephew, least);
      assert Height(nephew) + 2 == h + 1;
    } else {
      LightestTree(other, least);
      assert Fib(1) == 1;
    }
    FibStep(h, least);
  }

  lemma FibStep(h: nat, least: nat)
    ensures Fib(h + 3) * least == Fib(h + 2) * least + Fib(h + 1) * least
  {
    assert Fib(h + 3) == Fib(h + 2) + Fib(h + 1);
  }

  lemma {:induction false} LightestTree(t: Tree, least: nat)
    requires LeavesFrom(t, least)
    ensures Weight(t) >= least
  {
    if t.Node? {
      LightestTree(t.left, least);
    }
  }

  /** The lengths vector after the leaves of `t`, rooted at `depth`, have been given their depths. */
  function Assign(lengths: seq<nat>, t: Tree, depth: nat): (r: seq<nat>)
    ensures |r| == |lengths|
    decreases t
  {
    match t
    case Leaf(_, s) => if s < |lengths| then lengths[s := depth] else lengths
    case Node(l, r) => Assign(Assign(lengths, l, depth + 1), r, depth + 1)
  }

  /** Every leaf of the tree names its own symbol, with that symbol's weight. */
  predicate Labels(t: Tree, weights: seq<nat>)
  {
    match t
    case Leaf(w, s) => s < |weights| && weights[s] == w
    case Node(l, r) => Labels(l, weights) && Labels(r, weights)
  }

  function Symbols(t: Tree): set<nat>
  {
    match t
    case Leaf(_, s) => {s}
    case Node(l, r) => Symbols(l) + Symbols(r)
  }

  predicate SymbolsUnder(t: Tree, n: nat)
  {
    match t
    case Leaf(_, s) => s < n
    case Node(l, r) => SymbolsUnder(l, n) && SymbolsUnder(r, n)
  }

  predicate Distinct(t: Tree)
  {
    t.Node? ==> Distinct(t.left) && Distinct(t.right) && Symbols(t.left) !! Symbols(t.right)
  }

  /** Only the tree's own symbols change, and none of them below the root's depth. */
  lemma {:induction false} AssignTouches(lengths: seq<nat>, t: Tree, depth: nat, s: nat)
    requires s < |lengths|
    ensures s !in Symbols(t) ==> Assign(lengths, t, depth)[s] == lengths[s]
    ensures s in Symbols(t) ==> depth <= Assign(lengths, t, depth)[s] <= depth + Height(t)
    decreases t
  {
    if t.Node? {
      AssignTouches(lengths, t.left, depth + 1, s);
      AssignTouches(Assign(lengths, t.left, depth + 1), t.right, depth + 1, s);
    }
  }

  /** Total bits spent: the sum of weight times length. */
  function Cost(weights: seq<nat>, lengths: seq<nat>): nat
    requires |weights| == |lengths|
  {
    if weights == [] then 0 else weights[0] * lengths[0] + Cost(weights[1..], lengths[1..])
  }

  /** Code space used, in units of one codeword of `limit` bits. */
  function Space(lengths: seq<nat>, limit: nat): nat
  {
    if lengths == [] then 0 else Share(lengths[0], limit) + Space(lengths[1..], limit)
  }

  function Share(length: nat, limit: nat): nat
  {
    if length == 0 || length > limit then 0 else Pow2(limit - length)
  }

  lemma {:induction false} CostUpdate(weights: seq<nat>, lengths: seq<nat>, s: nat, length: nat)
    requires s < |lengths| == |weights|
    ensures Cost(weights, lengths[s := length]) + weights[s] * lengths[s] == Cost(weights, lengths) +
            weights[s] * length
    decreases s
  {
    if s > 0 {
      CostUpdate(weights[1..], lengths[1..], s - 1, length);
      assert lengths[s := length][1..] == lengths[1..][s - 1 := length];
    } else {
      assert lengths[s := length][1..] == lengths[1..];
    }
  }

  lemma {:induction false} SpaceUpdate(lengths: seq<nat>, limit: nat, s: nat, length: nat)
    requires s < |lengths|
    ensures Space(lengths[s := length], limit) + Share(lengths[s], limit) == Space(lengths, limit) +
            Share(length, limit)
    decreases s
  {
    if s > 0 {
      SpaceUpdate(lengths[1..], limit, s - 1, length);
      assert lengths[s := length][1..] == lengths[1..][s - 1 := length];
    } else {
      assert lengths[s := length][1..] == lengths[1..];
    }
  }

  /** None of the tree's symbols has a length yet. */
  ghost predicate Blank(lengths: seq<nat>, t: Tree)
  {
    forall s :: s in Symbols(t) && s < |lengths| ==> lengths[s] == 0
  }

  lemma BlankSplits(lengths: seq<nat>, t: Tree, depth: nat)
    requires t.Node? && Distinct(t) && Blank(lengths, t)
    ensures Blank(lengths, t.left) && Blank(Assign(lengths, t.left, depth), t.right)
  {
    forall s | s in Symbols(t.right) && s < |lengths|
      ensures Assign(lengths, t.left, depth)[s] == 0
    {
      AssignTouches(lengths, t.left, depth, s);
    }
  }

  /** Giving the leaves their depths costs exactly the weighted path length. */
  lemma {:induction false} AssignCost(weights: seq<nat>, lengths: seq<nat>, t: Tree, depth: nat)
    requires |weights| == |lengths| && Labels(t, weights) && Distinct(t) && Blank(lengths, t)
    ensures Cost(weights, Assign(lengths, t, depth)) == Cost(weights, lengths) + PathCost(t, depth)
    decreases t
  {
    match t {
      case Leaf(w, s) =>
        assert s in Symbols(t);
        CostUpdate(weights, lengths, s, depth);
      case Node(l, r) =>
        BlankSplits(lengths, t, depth + 1);
        AssignCost(weights, lengths, l, depth + 1);
        AssignCost(weights, Assign(lengths, l, depth + 1), r, depth + 1);
    }
  }

  /** A whole subtree fills its root's share of the code space. */
  lemma {:induction false} AssignSpace(lengths: seq<nat>, t: Tree, depth: nat, limit: nat)
    requires 0 < depth && depth + Height(t) <= limit && Distinct(t) && Blank(lengths, t)
    requires SymbolsUnder(t, |lengths|)
    ensures Space(Assign(lengths, t, depth), limit) == Space(lengths, limit) + Pow2(limit - depth)
    decreases t
  {
    match t {
      case Leaf(w, s) =>
        assert s in Symbols(t);
        SpaceUpdate(lengths, limit, s, depth);
      case Node(l, r) =>
        BlankSplits(lengths, t, depth + 1);
        AssignSpace(lengths, l, depth + 1, limit);
        AssignSpace(Assign(lengths, l, depth + 1), r, depth + 1, limit);
    }
  }
}
