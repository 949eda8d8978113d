/** The abstract side of the binary-tree match finder: treaps of input positions, ordered by
    the 128 bytes that start at each position and heap-ordered by the position itself, the
    functional split that re-roots them, and the matches one root-to-leaf walk reports. */
module SearchTree {
  import opened Arithmetic
  import opened Bytes
  import opened Outcomes

  const MAX_TREE_COMP_LENGTH := 128

  datatype Tree = Leaf | Node(left: Tree, pos: nat, right: Tree)

  datatype TreeMatch = TreeMatch(distance: nat, length: nat, lengthCode: nat)

  /** Lexicographic order on the `width` bytes at two positions. */
  predicate Below(input: seq<Byte>, p: nat, q: nat, width: nat)
    requires p + width <= |input| && q + width <= |input|
    decreases width
  {
    width > 0 &&
    (input[p] < input[q] || (input[p] == input[q] && Below(input, p + 1, q + 1, width - 1)))
  }

  lemma {:induction false} BelowAtDifference(input: seq<Byte>, p: nat, q: nat, width: nat)
    requires p + width <= |input| && q + width <= |input|
    ensures Below(input, p, q, width) <==>
            var n := Lcp(input, p, q, width); n < width && input[p + n] < input[q + n]
    decreases width
  {
    if width > 0 && input[p] == input[q] {
      BelowAtDifference(input, p + 1, q + 1, width - 1);
    }
  }

  lemma {:induction false} LcpSymmetric(input: seq<Byte>, p: nat, q: nat, width: nat)
    requires p + width <= |input| && q + width <= |input|
    ensures Lcp(input, p, q, width) == Lcp(input, q, p, width)
    decreases width
  {
    if width > 0 && input[p] == input[q] {
      LcpSymmetric(input, p + 1, q + 1, width - 1);
    }
  }

  /** The first difference decides the order. */
  lemma Compared(input: seq<Byte>, p: nat, q: nat, width: nat)
    requires p + width <= |input| && q + width <= |input|
    ensures var n := Lcp(input, p, q, width);
            n < width ==> if input[q + n] > input[p + n] then Below(input, p, q, width) else Below(input, q, p, width)
  {
    BelowAtDifference(input, p, q, width);
    BelowAtDifference(input, q, p, width);
    LcpSymmetric(input, p, q, width);
    LcpAgrees(input, p, q, width);
  }

  lemma {:induction false} BelowTransitive(input: seq<Byte>, p: nat, q: nat, r: nat, width: nat)
    requires p + width <= |input| && q + width <= |input| && r + width <= |input|
    requires Below(input, p, q, width) && Below(input, q, r, width)
    ensures Below(input, p, r, width)
    decreases width
  {
    if input[p] == input[q] == input[r] {
      BelowTransitive(input, p + 1, q + 1, r + 1, width - 1);
    }
  }

  lemma {:induction false} BelowAsymmetric(input: seq<Byte>, p: nat, q: nat, width: nat)
    requires p + width <= |input| && q + width <= |input|
    requires Below(input, p, q, width)
    ensures !Below(input, q, p, width)
    decreases width
  {
    if input[p] == input[q] {
      BelowAsymmetric(input, p + 1, q + 1, width - 1);
    }
  }

  /** Equal prefixes are interchangeable in comparisons. */
  lemma {:induction false} BelowEqual(input: seq<Byte>, p: nat, q: nat, r: nat, width: nat)
    requires p + width <= |input| && q + width <= |input| && r + width <= |input|
    requires Lcp(input, q, r, width) == width
    ensures Below(input, p, q, width) == Below(input, p, r, width)
    ensures Below(input, q, p, width) == Below(input, r, p, width)
    decreases width
  {
    if width > 0 {
      BelowEqual(input, p + 1, q + 1, r + 1, width - 1);
    }
  }

  /** What lies between two sequences that agree with the key on `m` bytes agrees as well. */
  lemma {:induction false} Sandwich(input: seq<Byte>, lower: nat, x: nat, upper: nat, key: nat, m: nat, width: nat)
    requires m <= width
    requires lower + width <= |input| && x + width <= |input| && upper + width <= |input| && key + m <= |input|
    requires Below(input, lower, x, width) && Below(input, x, upper, width)
    requires Lcp(input, lower, key, m) == m && Lcp(input, upper, key, m) == m
    ensures Lcp(input, x, key, m) == m
    decreases m
  {
    if m > 0 {
      assert input[lower] == input[key] == input[upper];
      Sandwich(input, lower + 1, x + 1, upper + 1, key + 1, m - 1, width - 1);
    }
  }

  /** Beyond a sequence that lies between it and the key, nothing agrees with the key longer. */
  lemma {:induction false} FartherAgreesLess(input: seq<Byte>, x: nat, near: nat, key: nat, narrow: nat, width: nat)
    requires narrow <= width
    requires x + width <= |input| && near + width <= |input| && key + narrow <= |input|
    requires (Below(input, x, near, width) && Below(input, near, key, narrow))
          || (Below(input, near, x, width) && Below(input, key, near, narrow))
    ensures Lcp(input, x, key, narrow) <= Lcp(input, near, key, narrow)
    decreases narrow
  {
    if narrow > 0 && input[x] == input[key] {
      assert input[near] == input[key];
      FartherAgreesLess(input, x + 1, near + 1, key + 1, narrow - 1, width - 1);
    }
  }

  lemma {:induction false} LcpNarrow(input: seq<Byte>, p: nat, q: nat, narrow: nat, wide: nat)
    requires narrow <= wide && p + wide <= |input| && q + wide <= |input|
    ensures var n := Lcp(input, p, q, wide);
            Lcp(input, p, q, narrow) == if n < narrow then n else narrow
    decreases narrow
  {
    if narrow > 0 && input[p] == input[q] {
      LcpNarrow(input, p + 1, q + 1, narrow - 1, wide - 1);
    }
  }

  predicate Less(input: seq<Byte>, p: nat, q: nat)
    requires p + MAX_TREE_COMP_LENGTH <= |input| && q + MAX_TREE_COMP_LENGTH <= |input|
  {
    Below(input, p, q, MAX_TREE_COMP_LENGTH)
  }

  predicate Fits(input: seq<Byte>, p: nat)
  {
    p + MAX_TREE_COMP_LENGTH <= |input|
  }

  predicate Between(input: seq<Byte>, low: Option<nat>, p: nat, high: Option<nat>)
  {
    && Fits(input, p)
    && (low.Some? ==> Fits(input, low.value) && Less(input, low.value, p))
    && (high.Some? ==> Fits(input, high.value) && Less(input, p, high.value))
  }

  /** A search tree on 128-byte sequences, all of it strictly between the two bounds. */
  predicate Ordered(input: seq<Byte>, t: Tree, low: Option<nat>, high: Option<nat>)
  {
    match t
    case Leaf => true
    case Node(l, p, r) =>
        Between(input, low, p, high) && Ordered(input, l, low, Some(p)) && Ordered(input, r, Some(p), high)
  }

  /** A max-heap on positions, all of them under the bound. */
  predicate Heap(t: Tree, bound: nat)
  {
    match t
    case Leaf => true
    case Node(l, p, r) => p < bound && Heap(l, p) && Heap(r, p)
  }

  function Positions(t: Tree): (ps: set<nat>)
  {
    match t
    case Leaf => {}
    case Node(l, p, r) => Positions(l) + {p} + Positions(r)
  }

  function Height(t: Tree): nat
  {
    match t
    case Leaf => 0
    case Node(l, _, r) => 1 + Max(Height(l), Height(r))
  }

  function Max(a: nat, b: nat): nat
  {
    if a < b then b else a
  }

  lemma {:induction false} BetweenAll(input: seq<Byte>, t: Tree, low: Option<nat>, high: Option<nat>, x: nat)
    requires Ordered(input, t, low, high) && x in Positions(t)
    ensures Between(input, low, x, high)
  {
    if x in Positions(t.left) {
      BetweenAll(input, t.left, low, Some(t.pos), x);
      BetweenShrinks(input, low, x, t.pos, high);
    } else if x in Positions(t.right) {
      BetweenAll(input, t.right, Some(t.pos), high, x);
      BetweenGrows(input, low, t.pos, x, high);
    }
  }

  lemma BetweenShrinks(input: seq<Byte>, low: Option<nat>, x: nat, p: nat, high: Option<nat>)
    requires Between(input, low, x, Some(p)) && Between(input, low, p, high)
    ensures Between(input, low, x, high)
  {
    if high.Some? {
      BelowTransitive(input, x, p, high.value, MAX_TREE_COMP_LENGTH);
    }
  }

  lemma BetweenGrows(input: seq<Byte>, low: Option<nat>, p: nat, x: nat, high: Option<nat>)
    requires Between(input, Some(p), x, high) && Between(input, low, p, high)
    ensures Between(input, low, x, high)
  {
    if low.Some? {
      BelowTransitive(input, low.value, p, x, MAX_TREE_COMP_LENGTH);
    }
  }

  lemma {:induction false} HeapBounds(t: Tree, bound: nat, x: nat)
    requires Heap(t, bound) && x in Positions(t)
    ensures x <= t.pos < bound
  {
    if x in Positions(t.left) {
      HeapBounds(t.left, t.pos, x);
    } else if x in Positions(t.right) {
      HeapBounds(t.right, t.pos, x);
    }
  }

  lemma HeapWeaken(t: Tree, bound: nat, higher: nat)
    requires Heap(t, bound) && bound <= higher
    ensures Heap(t, higher)
  {
  }

  lemma SubtreesDisjoint(input: seq<Byte>, t: Tree, low: Option<nat>, high: Option<nat>)
    requires t.Node? && Ordered(input, t, low, high)
    ensures Positions(t.left) !! Positions(t.right)
  {
    forall x | x in Positions(t.left) && x in Positions(t.right)
      ensures false
    {
      BetweenAll(input, t.left, low, Some(t.pos), x);
      BetweenAll(input, t.right, Some(t.pos), high, x);
      BelowAsymmetric(input, x, t.pos, MAX_TREE_COMP_LENGTH);
    }
  }

  /** Splits `t` around the sequence at `key`: smaller and larger sequences. Nodes older than
      `cut`, and everything below `depth` comparisons, are dropped; an equal node is replaced. */
  function Split(input: seq<Byte>, t: Tree, key: nat, cut: int, depth: nat): (parts: (Tree, Tree))
    requires Heap(t, key) && Fits(input, key)
    decreases t
  {
    if t.Leaf? || depth == 0 || t.pos < cut then
      (Leaf, Leaf)
    else
      var n := Lcp(input, t.pos, key, MAX_TREE_COMP_LENGTH);
      HeapWeaken(t.left, t.pos, key);
      HeapWeaken(t.right, t.pos, key);
      if n == MAX_TREE_COMP_LENGTH then
        (t.left, t.right)
      else if input[key + n] > input[t.pos + n] then
        var (l, r) := Split(input, t.right, key, cut, depth - 1);
        (Node(t.left, t.pos, l), r)
      else
        var (l, r) := Split(input, t.left, key, cut, depth - 1);
        (l, Node(r, t.pos, t.right))
  }

  /** An equal sequence bounds a tree just as well. */
  lemma {:induction false} EqualBound(input: seq<Byte>, t: Tree, low: Option<nat>, high: Option<nat>, p: nat, key: nat)
    requires Fits(input, p) && Fits(input, key) && Lcp(input, p, key, MAX_TREE_COMP_LENGTH) == MAX_TREE_COMP_LENGTH
    ensures Ordered(input, t, low, Some(p)) ==> Ordered(input, t, low, Some(key))
    ensures Ordered(input, t, Some(p), high) ==> Ordered(input, t, Some(key), high)
  {
    if t.Node? && Fits(input, t.pos) {
      BelowEqual(input, t.pos, p, key, MAX_TREE_COMP_LENGTH);
      EqualBound(input, t.left, low, Some(t.pos), p, key);
      EqualBound(input, t.right, low, high, p, key);
      EqualBound(input, t.left, low, high, p, key);
      EqualBound(input, t.right, Some(t.pos), high, p, key);
    }
  }

  lemma GraftLower(input: seq<Byte>, t: Tree, low: Option<nat>, high: Option<nat>, key: nat, part: Tree)
    requires t.Node? && Ordered(input, t, low, high) && Fits(input, key) && Less(input, t.pos, key)
    requires Ordered(input, part, Some(t.pos), Some(key))
    ensures Ordered(input, Node(t.left, t.pos, part), low, Some(key))
  {
  }

  lemma GraftUpper(input: seq<Byte>, t: Tree, low: Option<nat>, high: Option<nat>, key: nat, part: Tree)
    requires t.Node? && Ordered(input, t, low, high) && Fits(input, key) && Less(input, key, t.pos)
    requires Ordered(input, part, Some(key), Some(t.pos))
    ensures Ordered(input, Node(part, t.pos, t.right), Some(key), high)
  {
  }

  /** Re-rooting keeps the search order, whatever the cut and the depth bound drop. */
  lemma {:induction false} SplitKeepsOrder(input: seq<Byte>, t: Tree, low: Option<nat>, high: Option<nat>, key: nat,
                                           cut: int, depth: nat)
    requires Ordered(input, t, low, high) && Heap(t, key) && Fits(input, key)
    ensures Ordered(input, Split(input, t, key, cut, depth).0, low, Some(key))
    ensures Ordered(input, Split(input, t, key, cut, depth).1, Some(key), high)
    decreases t
  {
    hide Lcp, Below, Ordered, Heap, Split;
    if t.Leaf? || depth == 0 || t.pos < cut {
      NothingSplit(input, t, low, high, key, cut, depth);
    } else {
      var n := SplitUnfolds(input, t, key, cut, depth);
      OrderedParts(input, t, low, high);
      Compared(input, t.pos, key, MAX_TREE_COMP_LENGTH);
      if n == MAX_TREE_COMP_LENGTH {
        EqualBound(input, t.left, low, high, t.pos, key);
        EqualBound(input, t.right, low, high, t.pos, key);
      } else if input[key + n] > input[t.pos + n] {
        SplitKeepsOrder(input, t.right, Some(t.pos), high, key, cut, depth - 1);
        GraftLower(input, t, low, high, key, Split(input, t.right, key, cut, depth - 1).0);
      } else {
        SplitKeepsOrder(input, t.left, low, Some(t.pos), key, cut, depth - 1);
        GraftUpper(input, t, low, high, key, Split(input, t.left, key, cut, depth - 1).1);
      }
    }
  }

  lemma NothingSplit(input: seq<Byte>, t: Tree, low: Option<nat>, high: Option<nat>, key: nat, cut: int, depth: nat)
    requires Heap(t, key) && Fits(input, key) && (t.Leaf? || depth == 0 || t.pos < cut)
    ensures Ordered(input, Split(input, t, key, cut, depth).0, low, Some(key))
    ensures Ordered(input, Split(input, t, key, cut, depth).1, Some(key), high)
  {
  }

  /** What is under an ordered tree's root. */
  lemma OrderedParts(input: seq<Byte>, t: Tree, low: Option<nat>, high: Option<nat>)
    requires t.Node? && Ordered(input, t, low, high)
    ensures Fits(input, t.pos) && Ordered(input, t.left, low, Some(t.pos)) && Ordered(input, t.right, Some(t.pos), high)
  {
    hide Below;
  }

  /** One step of re-rooting. */
  lemma SplitUnfolds(input: seq<Byte>, t: Tree, key: nat, cut: int, depth: nat) returns (n: nat)
    requires Heap(t, key) && Fits(input, key) && !(t.Leaf? || depth == 0 || t.pos < cut)
    ensures t.pos < key && Heap(t.left, key) && Heap(t.right, key) && n == Lcp(input, t.pos, key, MAX_TREE_COMP_LENGTH)
    ensures Split(input, t, key, cut, depth) ==
            if n == MAX_TREE_COMP_LENGTH then (t.left, t.right)
            else if input[key + n] > input[t.pos + n] then
              (Node(t.left, t.pos, Split(input, t.right, key, cut, depth - 1).0),
               Split(input, t.right, key, cut, depth - 1).1)
            else
              (Split(input, t.left, key, cut, depth - 1).0,
               Node(Split(input, t.left, key, cut, depth - 1).1, t.pos, t.right))
  {
    n := Lcp(input, t.pos, key, MAX_TREE_COMP_LENGTH);
    HeapWeaken(t.left, t.pos, key);
    HeapWeaken(t.right, t.pos, key);
    hide Lcp;
  }

  lemma {:induction false} SplitKeepsHeap(input: seq<Byte>, t: Tree, bound: nat, key: nat, cut: int, depth: nat)
    requires Heap(t, bound) && bound <= key && Fits(input, key)
    ensures var (l, r) := Split(input, t, key, cut, depth); Heap(l, bound) && Heap(r, bound)
    decreases t
  {
    if !(t.Leaf? || depth == 0 || t.pos < cut) {
      SplitKeepsHeap(input, t.left, t.pos, key, cut, depth - 1);
      SplitKeepsHeap(input, t.right, t.pos, key, cut, depth - 1);
    }
  }

  lemma {:induction false} SplitKeepsWithin(input: seq<Byte>, t: Tree, key: nat, cut: int, depth: nat)
    requires Heap(t, key) && Fits(input, key)
    ensures var (l, r) := Split(input, t, key, cut, depth); Positions(l) + Positions(r) <= Positions(t)
    decreases t
  {
    if !(t.Leaf? || depth == 0 || t.pos < cut) {
      SplitKeepsWithin(input, t.left, key, cut, depth - 1);
      SplitKeepsWithin(input, t.right, key, cut, depth - 1);
    }
  }

  /** The re-rooted tree: the new position over the two parts. */
  function Reroot(input: seq<Byte>, t: Tree, key: nat, cut: int, depth: nat): (u: Tree)
    requires Heap(t, key) && Fits(input, key)
  {
    var (l, r) := Split(input, t, key, cut, depth);
    Node(l, key, r)
  }

  /** Re-rooting yields a search tree and a heap again, over positions it already had and the new one. */
  lemma RerootInvariant(input: seq<Byte>, t: Tree, key: nat, cut: int, depth: nat)
    requires Ordered(input, t, None, None) && Heap(t, key) && Fits(input, key)
    ensures var u := Reroot(input, t, key, cut, depth);
            Ordered(input, u, None, None) && Heap(u, key + 1) && Positions(u) <= Positions(t) + {key}
  {
    SplitKeepsOrder(input, t, None, None, key, cut, depth);
    SplitKeepsHeap(input, t, key, key, cut, depth);
    SplitKeepsWithin(input, t, key, cut, depth);
  }

  /** Nothing is lost but a node with the key's own 128 bytes, unless the walk was cut short. */
  lemma {:induction false} SplitKeepsPositions(input: seq<Byte>, t: Tree, key: nat, cut: int, depth: nat, x: nat)
    requires Heap(t, key) && Fits(input, key) && x in Positions(t)
    requires Height(t) <= depth && NoneBefore(t, cut)
    ensures x < key
    ensures var (l, r) := Split(input, t, key, cut, depth);
            x in Positions(l) || x in Positions(r) || Lcp(input, x, key, MAX_TREE_COMP_LENGTH) == MAX_TREE_COMP_LENGTH
    decreases t
  {
    hide Positions, Height, NoneBefore, Heap, Split, Lcp;
    HeapBounds(t, key, x);
    NoneDropped(t, cut, depth, x);
    var n := SplitUnfolds(input, t, key, cut, depth);
    AtRoot(t.left, t.pos, t.right, x);
    if n == MAX_TREE_COMP_LENGTH {
    } else if input[key + n] > input[t.pos + n] {
      AtRoot(t.left, t.pos, Split(input, t.right, key, cut, depth - 1).0, x);
      if x in Positions(t.right) {
        SplitKeepsPositions(input, t.right, key, cut, depth - 1, x);
      }
    } else {
      AtRoot(Split(input, t.left, key, cut, depth - 1).1, t.pos, t.right, x);
      if x in Positions(t.left) {
        SplitKeepsPositions(input, t.left, key, cut, depth - 1, x);
      }
    }
  }

  lemma AtRoot(l: Tree, p: nat, r: Tree, x: nat)
    ensures x in Positions(Node(l, p, r)) <==> x in Positions(l) || x == p || x in Positions(r)
  {
  }

  /** A tree with nodes that is neither too deep nor too old is split at its root. */
  lemma NoneDropped(t: Tree, cut: int, depth: nat, x: nat)
    requires x in Positions(t) && Height(t) <= depth && NoneBefore(t, cut)
    ensures t.Node? && depth > 0 && cut <= t.pos
    ensures Height(t.left) <= depth - 1 && Height(t.right) <= depth - 1
    ensures NoneBefore(t.left, cut) && NoneBefore(t.right, cut)
  {
  }

  /** No node is older than `cut`. */
  predicate NoneBefore(t: Tree, cut: int)
  {
    match t
    case Leaf => true
    case Node(l, p, r) => cut <= p && NoneBefore(l, cut) && NoneBefore(r, cut)
  }

  function Report(m: TreeMatch, best: nat): seq<TreeMatch>
  {
    if m.length > best then [m] else []
  }

  /** The matches a walk reports when every node on it is compared from its first byte. */
  function Matches(input: seq<Byte>, t: Tree, key: nat, maxLength: nat, cut: int, depth: nat,
                   best: nat): (found: seq<TreeMatch>)
    requires Heap(t, key) && key + maxLength <= |input|
    decreases t
  {
    if t.Leaf? || depth == 0 || t.pos < cut then
      []
    else
      var n := Lcp(input, t.pos, key, maxLength);
      HeapWeaken(t.left, t.pos, key);
      HeapWeaken(t.right, t.pos, key);
      Report(TreeMatch(key - t.pos, n, 0), best) +
      if n >= Min(maxLength, MAX_TREE_COMP_LENGTH) then
        []
      else
        Matches(input, Next(input, t, key, n), key, maxLength, cut, depth - 1, Max(best, n))
  }

  /** The subtree a walk enters after `n` equal bytes at the top. */
  function Next(input: seq<Byte>, t: Tree, key: nat, n: nat): Tree
    requires t.Node? && t.pos < key && key + n < |input|
  {
    if input[key + n] > input[t.pos + n] then t.right else t.left
  }

  /** One step of a walk. */
  lemma MatchesStep(input: seq<Byte>, t: Tree, key: nat, maxLength: nat, cut: int, depth: nat, best: nat,
                    found: seq<TreeMatch>, n: nat)
    requires Heap(t, key) && key + maxLength <= |input| && t.Node? && depth > 0 && cut <= t.pos
    requires n == Lcp(input, t.pos, key, maxLength) && n < Min(maxLength, MAX_TREE_COMP_LENGTH)
    ensures Heap(Next(input, t, key, n), key)
    ensures found + Matches(input, t, key, maxLength, cut, depth, best) ==
            found + Report(TreeMatch(key - t.pos, n, 0), best)
            + Matches(input, Next(input, t, key, n), key, maxLength, cut, depth - 1, Max(best, n))
  {
    assert key + n < |input|;
    hide *;
    MatchesUnfold(input, t, key, maxLength, cut, depth, best, n);
    InFront(found, Report(TreeMatch(key - t.pos, n, 0), best),
            Matches(input, Next(input, t, key, n), key, maxLength, cut, depth - 1, Max(best, n)));
  }

  lemma InFront(a: seq<TreeMatch>, b: seq<TreeMatch>, c: seq<TreeMatch>)
    ensures a + (b + c) == a + b + c
  {
  }

  lemma MatchesUnfold(input: seq<Byte>, t: Tree, key: nat, maxLength: nat, cut: int, depth: nat, best: nat, n: nat)
    requires Heap(t, key) && key + maxLength <= |input| && t.Node? && depth > 0 && cut <= t.pos
    requires n == Lcp(input, t.pos, key, maxLength) && n < Min(maxLength, MAX_TREE_COMP_LENGTH)
    ensures t.pos < key && Heap(Next(input, t, key, n), key)
    ensures Matches(input, t, key, maxLength, cut, depth, best) ==
            Report(TreeMatch(key - t.pos, n, 0), best) +
            Matches(input, Next(input, t, key, n), key, maxLength, cut, depth - 1, Max(best, n))
  {
    HeapWeaken(t.left, t.pos, key);
    HeapWeaken(t.right, t.pos, key);
    hide Lcp, Report;
  }

  /** A true copy: the bytes at the distance agree with the bytes at the key. */
  predicate IsCopy(input: seq<Byte>, key: nat, m: TreeMatch)
  {
    && 0 < m.distance <= key && key + m.length <= |input|
    && input[key - m.distance..key - m.distance + m.length] == input[key..key + m.length]
  }

  /** A true copy inside the limits: at `cut` or later, before `under`, longer than `best`. */
  predicate Acceptable(input: seq<Byte>, key: nat, maxLength: nat, cut: int, under: nat, best: nat, m: TreeMatch)
  {
    && IsCopy(input, key, m) && m.lengthCode == 0
    && best < m.length <= maxLength && cut <= key - m.distance < under
  }

  /** Longer and farther, one match after the other. */
  ghost predicate Climbing(found: seq<TreeMatch>)
  {
    forall i, j :: 0 <= i < j < |found| ==>
      found[i].length < found[j].length && found[i].distance < found[j].distance
  }

  ghost predicate Progressive(input: seq<Byte>, key: nat, maxLength: nat, cut: int, under: nat, best: nat,
                              found: seq<TreeMatch>)
  {
    (forall m :: m in found ==> Acceptable(input, key, maxLength, cut, under, best, m)) && Climbing(found)
  }

  lemma ProgressiveStep(input: seq<Byte>, key: nat, maxLength: nat, cut: int, under: nat, best: nat, pos: nat,
                        tail: seq<TreeMatch>)
    requires pos < key && cut <= pos < under && key + maxLength <= |input|
    requires var n := Lcp(input, pos, key, maxLength);
             Progressive(input, key, maxLength, cut, pos, Max(best, n), tail)
    ensures var n := Lcp(input, pos, key, maxLength);
            Progressive(input, key, maxLength, cut, under, best, Report(TreeMatch(key - pos, n, 0), best) + tail)
  {
    LcpAgrees(input, pos, key, maxLength);
    var n := Lcp(input, pos, key, maxLength);
    forall m | m in tail
      ensures Acceptable(input, key, maxLength, cut, under, best, m)
      ensures m.length > n && m.distance > key - pos
    {
      assert Acceptable(input, key, maxLength, cut, pos, Max(best, n), m);
    }
    if n > best {
      hide IsCopy;
      ClimbingPrepend(TreeMatch(key - pos, n, 0), tail);
    } else {
      assert [] + tail == tail;
    }
  }

  lemma ClimbingPrepend(head: TreeMatch, tail: seq<TreeMatch>)
    requires Climbing(tail) && forall m :: m in tail ==> head.length < m.length && head.distance < m.distance
    ensures Climbing([head] + tail)
  {
  }

  lemma NoneProgressive(input: seq<Byte>, key: nat, maxLength: nat, cut: int, under: nat, best: nat)
    ensures Progressive(input, key, maxLength, cut, under, best, [])
  {
  }

  /** Every reported match is a true copy within the limits, and the walk reports them in
      strictly increasing length and distance. */
  lemma {:induction false} MatchesProgressive(input: seq<Byte>, t: Tree, key: nat, maxLength: nat, cut: int, depth: nat,
                                              best: nat, under: nat)
    requires Heap(t, key) && Heap(t, under) && key + maxLength <= |input|
    ensures Progressive(input, key, maxLength, cut, under, best, Matches(input, t, key, maxLength, cut, depth, best))
    decreases t
  {
    hide Progressive;
    if t.Leaf? || depth == 0 || t.pos < cut {
      NoneProgressive(input, key, maxLength, cut, under, best);
    } else {
      var n := Lcp(input, t.pos, key, maxLength);
      if n < Min(maxLength, MAX_TREE_COMP_LENGTH) {
        var next := Next(input, t, key, n);
        MatchesProgressive(input, next, key, maxLength, cut, depth - 1, Max(best, n), t.pos);
        ProgressiveStep(input, key, maxLength, cut, under, best, t.pos,
                        Matches(input, next, key, maxLength, cut, depth - 1, Max(best, n)));
      } else {
        NoneProgressive(input, key, maxLength, cut, t.pos, Max(best, n));
        ProgressiveStep(input, key, maxLength, cut, under, best, t.pos, []);
      }
    }
  }

  /** A length is covered at a distance when it is no better than the best so far, or some
      reported match is at least as long and at least as near. */
  predicate Covered(found: seq<TreeMatch>, best: nat, distance: nat, length: nat)
  {
    length <= best || exists m :: m in found && m.length >= length && m.distance <= distance
  }

  lemma CoveredByHead(head: TreeMatch, tail: seq<TreeMatch>, best: nat, distance: nat, length: nat)
    requires length <= head.length && head.distance <= distance
    ensures Covered(Report(head, best) + tail, best, distance, length)
  {
    if head.length > best {
      assert head in [head] + tail;
    }
  }

  lemma CoveredByTail(head: TreeMatch, tail: seq<TreeMatch>, best: nat, distance: nat, length: nat)
    requires head.distance <= distance && Covered(tail, Max(best, head.length), distance, length)
    ensures Covered(Report(head, best) + tail, best, distance, length)
  {
    if length <= head.length {
      CoveredByHead(head, tail, best, distance, length);
    } else if length > best {
      var m :| m in tail && m.length >= length && m.distance <= distance;
      assert m in Report(head, best) + tail;
    }
  }

  /** The subtree a walk turns away from holds nothing that agrees with the key longer. */
  lemma TurnedAway(input: seq<Byte>, t: Tree, low: Option<nat>, high: Option<nat>, key: nat, width: nat, x: nat)
    requires t.Node? && Ordered(input, t, low, high) && width <= MAX_TREE_COMP_LENGTH && key + width <= |input|
    requires var n := Lcp(input, t.pos, key, width);
             n < width && x in if input[key + n] > input[t.pos + n] then Positions(t.left) else Positions(t.right)
    ensures Fits(input, x) && Lcp(input, x, key, width) <= Lcp(input, t.pos, key, width)
  {
    Compared(input, t.pos, key, width);
    if x in Positions(t.left) {
      BetweenAll(input, t.left, low, Some(t.pos), x);
    }
    if x in Positions(t.right) {
      BetweenAll(input, t.right, Some(t.pos), high, x);
    }
    FartherAgreesLess(input, x, t.pos, key, width, MAX_TREE_COMP_LENGTH);
  }

  /** The node at the top covers itself and everything the walk will not see. */
  lemma CoveredHere(input: seq<Byte>, t: Tree, low: Option<nat>, high: Option<nat>, key: nat, maxLength: nat,
                    tail: seq<TreeMatch>, best: nat, x: nat)
    requires t.Node? && Ordered(input, t, low, high) && Heap(t, key) && key + maxLength <= |input| && x in Positions(t)
    requires var n := Lcp(input, t.pos, key, maxLength);
             n < Min(maxLength, MAX_TREE_COMP_LENGTH) ==> x !in Positions(Next(input, t, key, n))
    ensures x < key
    ensures Covered(Report(TreeMatch(key - t.pos, Lcp(input, t.pos, key, maxLength), 0), best) + tail, best, key - x,
                    Lcp(input, x, key, Min(maxLength, MAX_TREE_COMP_LENGTH)))
  {
    hide Covered, Report, Lcp, Below;
    var width := Min(maxLength, MAX_TREE_COMP_LENGTH);
    var n := Lcp(input, t.pos, key, maxLength);
    HeapBounds(t, key, x);
    LcpNarrow(input, t.pos, key, width, maxLength);
    if n < width && x != t.pos {
      TurnedAway(input, t, low, high, key, width, x);
    }
    CoveredByHead(TreeMatch(key - t.pos, n, 0), tail, best, key - x, Lcp(input, x, key, width));
  }

  /** An unabridged walk misses nothing: for every node of the tree, some match at least as
      long (up to the comparison limit) and at least as near is reported. */
  lemma {:induction false} MatchesCover(input: seq<Byte>, t: Tree, low: Option<nat>, high: Option<nat>, key: nat,
                                        maxLength: nat, cut: int, depth: nat, best: nat, x: nat)
    requires Ordered(input, t, low, high) && Heap(t, key) && key + maxLength <= |input|
    requires Height(t) <= depth && NoneBefore(t, cut) && x in Positions(t)
    ensures x < key
    ensures Covered(Matches(input, t, key, maxLength, cut, depth, best), best, key - x,
                    Lcp(input, x, key, Min(maxLength, MAX_TREE_COMP_LENGTH)))
    decreases t
  {
    hide Covered, Report, Positions, Height, NoneBefore, Lcp;
    var width := Min(maxLength, MAX_TREE_COMP_LENGTH);
    NoneDropped(t, cut, depth, x);
    HeapBounds(t, key, x);
    var n := Lcp(input, t.pos, key, maxLength);
    if n >= width {
      LastOnWalk(input, t, key, maxLength, cut, depth, best);
      CoveredHere(input, t, low, high, key, maxLength, [], best, x);
    } else {
      MatchesUnfold(input, t, key, maxLength, cut, depth, best, n);
      hide Matches, Heap;
      var next := Next(input, t, key, n);
      var tail := Matches(input, next, key, maxLength, cut, depth - 1, Max(best, n));
      if x in Positions(next) {
        OrderedParts(input, t, low, high);
        if input[key + n] > input[t.pos + n] {
          MatchesCover(input, next, Some(t.pos), high, key, maxLength, cut, depth - 1, Max(best, n), x);
        } else {
          MatchesCover(input, next, low, Some(t.pos), key, maxLength, cut, depth - 1, Max(best, n), x);
        }
        CoveredByTail(TreeMatch(key - t.pos, n, 0), tail, best, key - x, Lcp(input, x, key, width));
      } else {
        CoveredHere(input, t, low, high, key, maxLength, tail, best, x);
      }
    }
  }

  /** A node equal to the key as far as is compared ends the walk. */
  lemma LastOnWalk(input: seq<Byte>, t: Tree, key: nat, maxLength: nat, cut: int, depth: nat, best: nat)
    requires Heap(t, key) && key + maxLength <= |input| && t.Node? && depth > 0 && cut <= t.pos
    requires Lcp(input, t.pos, key, maxLength) >= Min(maxLength, MAX_TREE_COMP_LENGTH)
    ensures Matches(input, t, key, maxLength, cut, depth, best) ==
            Report(TreeMatch(key - t.pos, Lcp(input, t.pos, key, maxLength), 0), best) + []
  {
    hide Lcp, Report;
  }
}
