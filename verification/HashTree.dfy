/** The circular array that stores the treaps of `SearchTree`, one per hash bucket, and the
    in-place walk that searches a treap and re-roots it. */
module HashTree {
  import opened Arithmetic
  import opened Bytes
  import opened Outcomes
  import opened SearchTree
  import Dictionary
  import StaticWords = DictionaryMatches

  const BUCKET_COUNT: nat := 0x2_0000
  const MAX_TREE_SEARCH_DEPTH: nat := 64
  const HASH_MULTIPLIER: nat := 0x1e35_a7bd
  const USIZE_MAX: nat := 0xffff_ffff_ffff_ffff

  /** Children of a position live in two adjacent slots of a forest over a window of `w` positions. */
  function LeftIndex(w: nat, p: nat): (i: nat)
    requires w > 0
    ensures i < 2 * w
  {
    2 * (p % w)
  }

  function RightIndex(w: nat, p: nat): (i: nat)
    requires w > 0
    ensures i < 2 * w
  {
    2 * (p % w) + 1
  }

  /** Two positions less than a window apart have different slots. */
  lemma SlotsDiffer(w: nat, p: nat, q: nat)
    requires p < q < p + w
    ensures p % w != q % w
  {
    var r := p % w + (q - p);
    assert q == p / w * w + r;
    if r < w {
      DivUnique(q, w, p / w, r);
    } else {
      assert q == (p / w + 1) * w + (r - w);
      DivUnique(q, w, p / w + 1, r - w);
    }
  }

  /** The treap a link stands for: positions from `lo` up to `bound`, each reached through its slots. */
  ghost function View(forest: seq<nat>, w: nat, link: nat, bound: nat, lo: int): Tree
    requires w > 0 && |forest| == 2 * w
    decreases bound
  {
    if lo <= link < bound then
      Node(View(forest, w, forest[LeftIndex(w, link)], link, lo), link,
           View(forest, w, forest[RightIndex(w, link)], link, lo))
    else
      Leaf
  }

  /** Every link met in the view is older than its parent, or the invalid marker. */
  ghost predicate Linked(forest: seq<nat>, w: nat, link: nat, bound: nat, lo: int, invalid: nat)
    requires w > 0 && |forest| == 2 * w
    decreases bound
  {
    invalid <= link ||
    (link < bound &&
     (lo <= link ==>
        && Linked(forest, w, forest[LeftIndex(w, link)], link, lo, invalid)
        && Linked(forest, w, forest[RightIndex(w, link)], link, lo, invalid)))
  }

  lemma {:induction false} ViewIsHeap(forest: seq<nat>, w: nat, link: nat, bound: nat, lo: int)
    requires w > 0 && |forest| == 2 * w
    ensures Heap(View(forest, w, link, bound, lo), bound)
    decreases bound
  {
    if lo <= link < bound {
      ViewIsHeap(forest, w, forest[LeftIndex(w, link)], link, lo);
      ViewIsHeap(forest, w, forest[RightIndex(w, link)], link, lo);
    }
  }

  lemma {:induction false} ViewFrom(forest: seq<nat>, w: nat, link: nat, bound: nat, lo: int)
    requires w > 0 && |forest| == 2 * w
    ensures NoneBefore(View(forest, w, link, bound, lo), lo)
    decreases bound
  {
    if lo <= link < bound {
      ViewFrom(forest, w, forest[LeftIndex(w, link)], link, lo);
      ViewFrom(forest, w, forest[RightIndex(w, link)], link, lo);
    }
  }

  /** A larger bound changes nothing once the link respects the smaller one. */
  lemma ViewRaised(forest: seq<nat>, w: nat, link: nat, bound: nat, higher: nat, lo: int, invalid: nat)
    requires w > 0 && |forest| == 2 * w && bound <= higher <= invalid
    requires Linked(forest, w, link, bound, lo, invalid)
    ensures Linked(forest, w, link, higher, lo, invalid)
    ensures View(forest, w, link, higher, lo) == View(forest, w, link, bound, lo)
  {
  }

  /** The slots of position `p` hold the same links in both forests. */
  predicate SameSlots(f: seq<nat>, g: seq<nat>, w: nat, p: nat)
    requires w > 0 && |f| == |g| == 2 * w
  {
    f[LeftIndex(w, p)] == g[LeftIndex(w, p)] && f[RightIndex(w, p)] == g[RightIndex(w, p)]
  }

  /** Every node of the tree has the same slots in both forests. */
  ghost predicate SameTreeSlots(f: seq<nat>, g: seq<nat>, w: nat, t: Tree)
    requires w > 0 && |f| == |g| == 2 * w
  {
    match t
    case Leaf => true
    case Node(l, p, r) => SameSlots(f, g, w, p) && SameTreeSlots(f, g, w, l) && SameTreeSlots(f, g, w, r)
  }

  /** A view depends only on the slots of its own nodes. */
  lemma {:induction false} ViewFrame(f: seq<nat>, g: seq<nat>, w: nat, link: nat, bound: nat, lo: int, invalid: nat)
    requires w > 0 && |f| == |g| == 2 * w
    requires SameTreeSlots(f, g, w, View(f, w, link, bound, lo))
    ensures View(g, w, link, bound, lo) == View(f, w, link, bound, lo)
    ensures Linked(f, w, link, bound, lo, invalid) ==> Linked(g, w, link, bound, lo, invalid)
    decreases bound
  {
    if lo <= link < bound {
      ViewFrame(f, g, w, f[LeftIndex(w, link)], link, lo, invalid);
      ViewFrame(f, g, w, f[RightIndex(w, link)], link, lo, invalid);
    }
  }

  /** One of the two child slots of a position. */
  datatype Hole = Hole(owner: nat, right: bool)

  function Index(w: nat, h: Hole): (i: nat)
    requires w > 0
    ensures i < 2 * w
  {
    if h.right then RightIndex(w, h.owner) else LeftIndex(w, h.owner)
  }

  lemma HolesDiffer(w: nat, g: Hole, h: Hole)
    requires g != h && g.owner < h.owner + w && h.owner < g.owner + w
    ensures Index(w, g) != Index(w, h)
  {
    if g.owner < h.owner {
      SlotsDiffer(w, g.owner, h.owner);
    } else if h.owner < g.owner {
      SlotsDiffer(w, h.owner, g.owner);
    }
  }

  /** What stays fixed during one walk: the input, the window, the new position, the oldest
      position the walk may visit, the oldest whose slots are intact, and the invalid marker. */
  datatype Walk = Walk(input: seq<Byte>, w: nat, key: nat, cut: int, lo: int, invalid: nat) {
    predicate Valid() {
      w > 0 && lo <= cut && key < lo + w && key < invalid
    }

    predicate IsForest(f: seq<nat>) {
      |f| == 2 * w
    }

    ghost function Tree(f: seq<nat>, link: nat, bound: nat): Tree
      requires Valid() && IsForest(f)
    {
      View(f, w, link, bound, lo)
    }

    ghost predicate Sound(f: seq<nat>, link: nat, bound: nat)
      requires Valid() && IsForest(f)
    {
      bound <= key && Linked(f, w, link, bound, lo, invalid)
    }

    /** The slot of a node above everything in a view bounded by `bound`. */
    predicate Above(h: Hole, bound: nat)
    {
      bound <= h.owner <= key
    }
  }

  /** The in-place walk, as the forest it leaves behind. */
  ghost function WalkForest(c: Walk, f: seq<nat>, prev: nat, nl: nat, nr: nat, depth: nat): (g: seq<nat>)
    requires c.Valid() && Fits(c.input, c.key) && c.IsForest(f) && nl < 2 * c.w && nr < 2 * c.w
    ensures c.IsForest(g)
    decreases depth
  {
    if depth == 0 || prev >= c.key || prev < c.cut then
      f[nl := c.invalid][nr := c.invalid]
    else
      var n := Lcp(c.input, prev, c.key, MAX_TREE_COMP_LENGTH);
      if n == MAX_TREE_COMP_LENGTH then
        var f1 := f[nl := f[LeftIndex(c.w, prev)]];
        f1[nr := f1[RightIndex(c.w, prev)]]
      else if c.input[c.key + n] > c.input[prev + n] then
        var f1 := f[nl := prev];
        WalkForest(c, f1, f1[RightIndex(c.w, prev)], RightIndex(c.w, prev), nr, depth - 1)
      else
        var f1 := f[nr := prev];
        WalkForest(c, f1, f1[LeftIndex(c.w, prev)], nl, LeftIndex(c.w, prev), depth - 1)
  }

  /** Writing a slot of a node above the view does not touch the view. */
  lemma {:induction false} WriteAbove(c: Walk, f: seq<nat>, h: Hole, value: nat, link: nat, bound: nat)
    requires c.Valid() && c.IsForest(f) && c.Above(h, bound)
    ensures var g := f[Index(c.w, h) := value];
            && c.Tree(g, link, bound) == c.Tree(f, link, bound)
            && (c.Sound(f, link, bound) ==> c.Sound(g, link, bound))
    decreases bound
  {
    if c.lo <= link < bound {
      HolesDiffer(c.w, Hole(link, false), h);
      HolesDiffer(c.w, Hole(link, true), h);
      WriteAbove(c, f, h, value, f[LeftIndex(c.w, link)], link);
      WriteAbove(c, f, h, value, f[RightIndex(c.w, link)], link);
    }
  }

  /** One step down: the child's view in the forest with the parent hooked into its hole. */
  lemma StepDown(c: Walk, f: seq<nat>, prev: nat, bound: nat, h: Hole, right: bool)
    requires c.Valid() && c.IsForest(f) && c.Sound(f, prev, bound) && c.lo <= prev < bound && c.Above(h, bound)
    ensures var t := c.Tree(f, prev, bound);
            var g := f[Index(c.w, h) := prev];
            var link := g[Index(c.w, Hole(prev, right))];
            && link == f[Index(c.w, Hole(prev, right))]
            && c.Sound(g, link, prev) && c.Tree(g, link, prev) == if right then t.right else t.left
  {
    HolesDiffer(c.w, Hole(prev, right), h);
    var link := f[Index(c.w, Hole(prev, right))];
    WriteAbove(c, f, h, prev, link, prev);
  }

  lemma TopOfView(c: Walk, f: seq<nat>, prev: nat, bound: nat)
    requires c.Valid() && c.IsForest(f) && c.Sound(f, prev, bound)
    ensures var t := c.Tree(f, prev, bound);
            && Heap(t, c.key)
            && (t.Node? <==> c.lo <= prev < bound) && (t.Node? ==> t.pos == prev)
            && (prev >= c.key || prev < c.cut ==> t.Leaf? || t.pos < c.cut)
            && (c.cut <= prev < c.key ==> t.Node?)
  {
    ViewIsHeap(f, c.w, prev, bound, c.lo);
    HeapWeaken(c.Tree(f, prev, bound), bound, c.key);
  }

  /** The walk leaves every other slot of the window alone. */
  lemma {:induction false} WalkUntouched(c: Walk, f: seq<nat>, prev: nat, bound: nat, hl: Hole, hr: Hole, depth: nat,
                                         h: Hole)
    requires c.Valid() && Fits(c.input, c.key) && c.IsForest(f) && c.Sound(f, prev, bound)
    requires c.Above(hl, bound) && c.Above(hr, bound)
    requires c.lo <= h.owner <= c.key && h.owner !in Positions(c.Tree(f, prev, bound)) && h != hl && h != hr
    requires c.lo <= bound
    ensures WalkForest(c, f, prev, Index(c.w, hl), Index(c.w, hr), depth)[Index(c.w, h)] == f[Index(c.w, h)]
    decreases depth
  {
    hide Lcp, View, Linked;
    TopOfView(c, f, prev, bound);
    HolesDiffer(c.w, h, hl);
    HolesDiffer(c.w, h, hr);
    if !(depth == 0 || prev >= c.key || prev < c.cut) {
      var n := Lcp(c.input, prev, c.key, MAX_TREE_COMP_LENGTH);
      if n == MAX_TREE_COMP_LENGTH {
      } else if c.input[c.key + n] > c.input[prev + n] {
        StepDown(c, f, prev, bound, hl, true);
        var g := f[Index(c.w, hl) := prev];
        WalkUntouched(c, g, g[RightIndex(c.w, prev)], prev, Hole(prev, true), hr, depth - 1, h);
      } else {
        StepDown(c, f, prev, bound, hr, false);
        var g := f[Index(c.w, hr) := prev];
        WalkUntouched(c, g, g[LeftIndex(c.w, prev)], prev, hl, Hole(prev, false), depth - 1, h);
      }
    }
  }

  /** In particular it leaves alone any tree that shares no position with the one it walks. */
  lemma {:induction false} WalkKeepsTree(c: Walk, f: seq<nat>, prev: nat, bound: nat, hl: Hole, hr: Hole, depth: nat,
                                         u: Tree, under: nat)
    requires c.Valid() && Fits(c.input, c.key) && c.IsForest(f) && c.Sound(f, prev, bound) && c.lo <= bound
    requires c.Above(hl, bound) && c.Above(hr, bound)
    requires Heap(u, under) && NoneBefore(u, c.lo) && under <= hl.owner && under <= hr.owner
    requires Positions(u) !! Positions(c.Tree(f, prev, bound))
    ensures SameTreeSlots(f, WalkForest(c, f, prev, Index(c.w, hl), Index(c.w, hr), depth), c.w, u)
    decreases u
  {
    if u.Node? {
      WalkUntouched(c, f, prev, bound, hl, hr, depth, Hole(u.pos, false));
      WalkUntouched(c, f, prev, bound, hl, hr, depth, Hole(u.pos, true));
      WalkKeepsTree(c, f, prev, bound, hl, hr, depth, u.left, u.pos);
      WalkKeepsTree(c, f, prev, bound, hl, hr, depth, u.right, u.pos);
    }
  }

  /** What a walk must leave in its two holes: the two parts of the split. */
  ghost predicate HolesHold(c: Walk, g: seq<nat>, hl: Hole, hr: Hole, bound: nat, parts: (Tree, Tree))
    requires c.Valid() && c.IsForest(g)
  {
    && c.Sound(g, g[Index(c.w, hl)], bound) && c.Tree(g, g[Index(c.w, hl)], bound) == parts.0
    && c.Sound(g, g[Index(c.w, hr)], bound) && c.Tree(g, g[Index(c.w, hr)], bound) == parts.1
  }

  /** A node whose slots and subtrees are in place again stands for itself with the new child. */
  lemma Rebuilt(c: Walk, g: seq<nat>, p: nat, bound: nat)
    requires c.Valid() && c.IsForest(g) && c.lo <= p < bound <= c.key
    requires c.Sound(g, g[LeftIndex(c.w, p)], p) && c.Sound(g, g[RightIndex(c.w, p)], p)
    ensures c.Sound(g, p, bound)
    ensures c.Tree(g, p, bound) == Node(c.Tree(g, g[LeftIndex(c.w, p)], p), p, c.Tree(g, g[RightIndex(c.w, p)], p))
  {
  }

  /** The subtree the walk turned away from is found unchanged afterwards. */
  lemma OtherSideKept(c: Walk, f: seq<nat>, prev: nat, bound: nat, low: Option<nat>, high: Option<nat>, h: Hole,
                      other: Hole, right: bool, depth: nat)
    requires c.Valid() && Fits(c.input, c.key) && c.IsForest(f) && c.Sound(f, prev, bound) && c.lo <= prev < bound &&
             c.Above(h, bound) && c.Above(other, bound)
    requires h != other && Ordered(c.input, c.Tree(f, prev, bound), low, high)
    ensures var t := c.Tree(f, prev, bound);
            var f1 := f[Index(c.w, h) := prev];
            var hole, away := Hole(prev, right), Hole(prev, !right);
            var link := f1[Index(c.w, hole)];
            var g := if right then WalkForest(c, f1, link, Index(c.w, hole), Index(c.w, other), depth)
                     else WalkForest(c, f1, link, Index(c.w, other), Index(c.w, hole), depth);
            && g[Index(c.w, h)] == prev
            && c.Sound(g, g[Index(c.w, away)], prev)
            && c.Tree(g, g[Index(c.w, away)], prev) == if right then t.left else t.right
  {
    var t := c.Tree(f, prev, bound);
    var f1 := f[Index(c.w, h) := prev];
    var hole, away := Hole(prev, right), Hole(prev, !right);
    var link := f1[Index(c.w, hole)];
    StepDown(c, f, prev, bound, h, right);
    StepDown(c, f, prev, bound, h, !right);
    SubtreesDisjoint(c.input, t, low, high);
    var into, kept := c.Tree(f1, link, prev), c.Tree(f1, f1[Index(c.w, away)], prev);
    ViewIsHeap(f1, c.w, link, prev, c.lo);
    ViewIsHeap(f1, c.w, f1[Index(c.w, away)], prev, c.lo);
    ViewFrom(f1, c.w, f1[Index(c.w, away)], prev, c.lo);
    NotInHeap(into, prev, prev);
    NotInHeap(into, prev, h.owner);
    var hl, hr := if right then hole else other, if right then other else hole;
    WalkUntouched(c, f1, link, prev, hl, hr, depth, h);
    WalkUntouched(c, f1, link, prev, hl, hr, depth, away);
    WalkKeepsTree(c, f1, link, prev, hl, hr, depth, kept, prev);
    var g := WalkForest(c, f1, link, Index(c.w, hl), Index(c.w, hr), depth);
    ViewFrame(f1, g, c.w, f1[Index(c.w, away)], prev, c.lo, c.invalid);
  }

  lemma NotInHeap(t: Tree, bound: nat, x: nat)
    requires Heap(t, bound) && bound <= x
    ensures x !in Positions(t)
  {
    if x in Positions(t) {
      HeapBounds(t, bound, x);
    }
  }

  /** Putting the walked node back over the part its child's walk left in its own slot. */
  lemma HookedIn(c: Walk, g: seq<nat>, p: nat, bound: nat, h: Hole, other: Hole, right: bool, t: Tree,
                 parts: (Tree, Tree))
    requires c.Valid() && c.IsForest(g) && c.lo <= p < bound && c.Above(h, bound) && c.Above(other, bound)
    requires t.Node? && t.pos == p && g[Index(c.w, h)] == p
    requires var away := g[Index(c.w, Hole(p, !right))];
             c.Sound(g, away, p) && c.Tree(g, away, p) == if right then t.left else t.right
    requires if right then HolesHold(c, g, Hole(p, true), other, p, parts)
             else HolesHold(c, g, other, Hole(p, false), p, parts)
    ensures right ==> HolesHold(c, g, h, other, bound, (Node(t.left, p, parts.0), parts.1))
    ensures !right ==> HolesHold(c, g, other, h, bound, (parts.0, Node(parts.1, p, t.right)))
  {
    Rebuilt(c, g, p, bound);
    ViewRaised(g, c.w, g[Index(c.w, other)], p, bound, c.lo, c.invalid);
  }

  /** One turn of the walk: what the rest of the walk leaves, with the other side unchanged. */
  lemma Turn(c: Walk, f: seq<nat>, prev: nat, bound: nat, low: Option<nat>, high: Option<nat>, h: Hole, other: Hole,
             right: bool, depth: nat, parts: (Tree, Tree))
    requires c.Valid() && Fits(c.input, c.key) && c.IsForest(f) && c.Sound(f, prev, bound) && c.lo <= prev < bound &&
             c.Above(h, bound) && c.Above(other, bound)
    requires h != other && Ordered(c.input, c.Tree(f, prev, bound), low, high)
    requires var f1 := f[Index(c.w, h) := prev];
             var hole := Hole(prev, right);
             var link := f1[Index(c.w, hole)];
             if right then HolesHold(c, WalkForest(c, f1, link, Index(c.w, hole), Index(c.w, other), depth), hole,
                                     other, prev, parts)
             else HolesHold(c, WalkForest(c, f1, link, Index(c.w, other), Index(c.w, hole), depth), other, hole, prev,
                            parts)
    ensures var t := c.Tree(f, prev, bound);
            var f1 := f[Index(c.w, h) := prev];
            var hole := Hole(prev, right);
            var link := f1[Index(c.w, hole)];
            t.Node? &&
            if right then HolesHold(c, WalkForest(c, f1, link, Index(c.w, hole), Index(c.w, other), depth), h, other,
                                    bound, (Node(t.left, prev, parts.0), parts.1))
            else HolesHold(c, WalkForest(c, f1, link, Index(c.w, other), Index(c.w, hole), depth), other, h, bound,
                           (parts.0, Node(parts.1, prev, t.right)))
  {
    TopOfView(c, f, prev, bound);
    OtherSideKept(c, f, prev, bound, low, high, h, other, right, depth);
    hide Lcp, View, Linked, HolesHold, Ordered;
    var f1 := f[Index(c.w, h) := prev];
    var hole := Hole(prev, right);
    var link := f1[Index(c.w, hole)];
    var g := if right then WalkForest(c, f1, link, Index(c.w, hole), Index(c.w, other), depth)
             else WalkForest(c, f1, link, Index(c.w, other), Index(c.w, hole), depth);
    HookedIn(c, g, prev, bound, h, other, right, c.Tree(f, prev, bound), parts);
  }

  lemma Emptied(c: Walk, f: seq<nat>, hl: Hole, hr: Hole, bound: nat)
    requires c.Valid() && c.IsForest(f) && bound <= c.key
    ensures HolesHold(c, f[Index(c.w, hl) := c.invalid][Index(c.w, hr) := c.invalid], hl, hr, bound, (Leaf, Leaf))
  {
  }

  /** The in-place walk is the functional split. */
  lemma {:induction false} WalkSplits(c: Walk, f: seq<nat>, prev: nat, bound: nat, low: Option<nat>, high: Option<nat>,
                                      hl: Hole, hr: Hole, depth: nat)
    requires c.Valid() && Fits(c.input, c.key) && c.IsForest(f) && c.Sound(f, prev, bound) && c.lo <= bound
    requires c.Above(hl, bound) && c.Above(hr, bound) && hl != hr
    requires Ordered(c.input, c.Tree(f, prev, bound), low, high)
    ensures Heap(c.Tree(f, prev, bound), c.key)
    ensures HolesHold(c, WalkForest(c, f, prev, Index(c.w, hl), Index(c.w, hr), depth), hl, hr, bound,
                      Split(c.input, c.Tree(f, prev, bound), c.key, c.cut, depth))
    decreases depth, 1
  {
    hide Lcp, View, Linked, HolesHold, Ordered;
    TopOfView(c, f, prev, bound);
    if depth == 0 || prev >= c.key || prev < c.cut {
      Emptied(c, f, hl, hr, bound);
    } else {
      var n := Lcp(c.input, prev, c.key, MAX_TREE_COMP_LENGTH);
      if n == MAX_TREE_COMP_LENGTH {
        WalkReplaces(c, f, prev, bound, hl, hr);
      } else if c.input[c.key + n] > c.input[prev + n] {
        WalkSplitsRight(c, f, prev, bound, low, high, hl, hr, depth);
      } else {
        WalkSplitsLeft(c, f, prev, bound, low, high, hl, hr, depth);
      }
    }
  }

  lemma {:induction false} WalkSplitsRight(c: Walk, f: seq<nat>, prev: nat, bound: nat, low: Option<nat>,
                                           high: Option<nat>, hl: Hole, hr: Hole, depth: nat)
    requires c.Valid() && Fits(c.input, c.key) && c.IsForest(f) && c.Sound(f, prev, bound)
    requires c.Above(hl, bound) && c.Above(hr, bound) && hl != hr
    requires Ordered(c.input, c.Tree(f, prev, bound), low, high)
    requires depth > 0 && c.lo <= prev < bound
    ensures var t := c.Tree(f, prev, bound);
            var f1 := f[Index(c.w, hl) := prev];
            var g := WalkForest(c, f1, f1[RightIndex(c.w, prev)], RightIndex(c.w, prev), Index(c.w, hr), depth - 1);
            && t.Node? && Heap(t.right, c.key)
            && var parts := Split(c.input, t.right, c.key, c.cut, depth - 1);
            HolesHold(c, g, hl, hr, bound, (Node(t.left, prev, parts.0), parts.1))
    decreases depth, 0
  {
    hide Lcp, View, Linked, HolesHold, Split;
    var t := c.Tree(f, prev, bound);
    var hole := Hole(prev, true);
    TopOfView(c, f, prev, bound);
    StepDown(c, f, prev, bound, hl, true);
    var f1 := f[Index(c.w, hl) := prev];
    WalkSplits(c, f1, f1[Index(c.w, hole)], prev, Some(prev), high, hole, hr, depth - 1);
    Turn(c, f, prev, bound, low, high, hl, hr, true, depth - 1, Split(c.input, t.right, c.key, c.cut, depth - 1));
  }

  lemma {:induction false} WalkSplitsLeft(c: Walk, f: seq<nat>, prev: nat, bound: nat, low: Option<nat>,
                                          high: Option<nat>, hl: Hole, hr: Hole, depth: nat)
    requires c.Valid() && Fits(c.input, c.key) && c.IsForest(f) && c.Sound(f, prev, bound)
    requires c.Above(hl, bound) && c.Above(hr, bound) && hl != hr
    requires Ordered(c.input, c.Tree(f, prev, bound), low, high)
    requires depth > 0 && c.lo <= prev < bound
    ensures var t := c.Tree(f, prev, bound);
            var f1 := f[Index(c.w, hr) := prev];
            var g := WalkForest(c, f1, f1[LeftIndex(c.w, prev)], Index(c.w, hl), LeftIndex(c.w, prev), depth - 1);
            && t.Node? && Heap(t.left, c.key)
            && var parts := Split(c.input, t.left, c.key, c.cut, depth - 1);
            HolesHold(c, g, hl, hr, bound, (parts.0, Node(parts.1, prev, t.right)))
    decreases depth, 0
  {
    hide Lcp, View, Linked, HolesHold, Split;
    var t := c.Tree(f, prev, bound);
    var hole := Hole(prev, false);
    TopOfView(c, f, prev, bound);
    StepDown(c, f, prev, bound, hr, false);
    var f1 := f[Index(c.w, hr) := prev];
    WalkSplits(c, f1, f1[Index(c.w, hole)], prev, low, Some(prev), hl, hole, depth - 1);
    Turn(c, f, prev, bound, low, high, hr, hl, false, depth - 1, Split(c.input, t.left, c.key, c.cut, depth - 1));
  }

  /** An equal sequence is replaced: its children move into the holes. */
  lemma WalkReplaces(c: Walk, f: seq<nat>, prev: nat, bound: nat, hl: Hole, hr: Hole)
    requires c.Valid() && c.IsForest(f) && c.Sound(f, prev, bound) && c.lo <= prev < bound
    requires c.Above(hl, bound) && c.Above(hr, bound) && hl != hr
    ensures var t := c.Tree(f, prev, bound);
            var f1 := f[Index(c.w, hl) := f[LeftIndex(c.w, prev)]];
            HolesHold(c, f1[Index(c.w, hr) := f1[RightIndex(c.w, prev)]], hl, hr, bound, (t.left, t.right))
  {
    HolesDiffer(c.w, hl, hr);
    HolesDiffer(c.w, hl, Hole(prev, true));
    var l, r := f[LeftIndex(c.w, prev)], f[RightIndex(c.w, prev)];
    var f1 := f[Index(c.w, hl) := l];
    WriteAbove(c, f, hl, l, l, prev);
    WriteAbove(c, f, hl, l, r, prev);
    WriteAbove(c, f1, hr, r, l, prev);
    WriteAbove(c, f1, hr, r, r, prev);
    var g := f1[Index(c.w, hr) := r];
    ViewRaised(g, c.w, l, prev, bound, c.lo, c.invalid);
    ViewRaised(g, c.w, r, prev, bound, c.lo, c.invalid);
  }

  /** The nodes at `lo` or later, with everything under an older node dropped. */
  function Prune(t: Tree, lo: int): Tree
  {
    match t
    case Leaf => Leaf
    case Node(l, p, r) => if p < lo then Leaf else Node(Prune(l, lo), p, Prune(r, lo))
  }

  lemma {:induction false} PruneOrdered(input: seq<Byte>, t: Tree, low: Option<nat>, high: Option<nat>, lo: int)
    requires Ordered(input, t, low, high)
    ensures Ordered(input, Prune(t, lo), low, high)
  {
    if t.Node? {
      PruneOrdered(input, t.left, low, Some(t.pos), lo);
      PruneOrdered(input, t.right, Some(t.pos), high, lo);
    }
  }

  /** Sliding the window forward prunes the view. */
  lemma {:induction false} ViewPruned(f: seq<nat>, w: nat, link: nat, bound: nat, lo: int, later: int, invalid: nat)
    requires w > 0 && |f| == 2 * w && lo <= later && bound <= invalid
    requires Linked(f, w, link, bound, lo, invalid)
    ensures View(f, w, link, bound, later) == Prune(View(f, w, link, bound, lo), later)
    ensures Linked(f, w, link, bound, later, invalid)
    decreases bound
  {
    if lo <= link < bound {
      ViewPruned(f, w, f[LeftIndex(w, link)], link, lo, later, invalid);
      ViewPruned(f, w, f[RightIndex(w, link)], link, lo, later, invalid);
    }
  }

  /** The four bytes at a position, hashed to a bucket. */
  function Hash4(input: seq<Byte>, p: nat): (key: nat)
    requires p + 4 <= |input|
    ensures key < BUCKET_COUNT
  {
    var value := LoadLe(input[p..p + 4]);
    value * HASH_MULTIPLIER % 0x1_0000_0000 / 0x8000
  }

  /** Every node of the tree hashes to the bucket. */
  predicate AllHash(input: seq<Byte>, t: Tree, bucket: nat)
  {
    match t
    case Leaf => true
    case Node(l, p, r) =>
        p + 4 <= |input| && Hash4(input, p) == bucket && AllHash(input, l, bucket) && AllHash(input, r, bucket)
  }

  lemma {:induction false} AllHashMember(input: seq<Byte>, t: Tree, bucket: nat, x: nat)
    requires AllHash(input, t, bucket) && x in Positions(t)
    ensures x + 4 <= |input| && Hash4(input, x) == bucket
  {
    if x in Positions(t.left) {
      AllHashMember(input, t.left, bucket, x);
    } else if x in Positions(t.right) {
      AllHashMember(input, t.right, bucket, x);
    }
  }

  lemma {:induction false} AllHashPruned(input: seq<Byte>, t: Tree, bucket: nat, lo: int)
    requires AllHash(input, t, bucket)
    ensures AllHash(input, Prune(t, lo), bucket)
  {
    if t.Node? {
      AllHashPruned(input, t.left, bucket, lo);
      AllHashPruned(input, t.right, bucket, lo);
    }
  }

  lemma {:induction false} AllHashSplit(input: seq<Byte>, t: Tree, bucket: nat, key: nat, cut: int, depth: nat)
    requires AllHash(input, t, bucket) && Heap(t, key) && Fits(input, key)
    ensures var (l, r) := Split(input, t, key, cut, depth); AllHash(input, l, bucket) && AllHash(input, r, bucket)
    decreases t
  {
    hide Lcp, Hash4;
    if !(t.Leaf? || depth == 0 || t.pos < cut) {
      HeapWeaken(t.left, t.pos, key);
      HeapWeaken(t.right, t.pos, key);
      AllHashSplit(input, t.left, bucket, key, cut, depth - 1);
      AllHashSplit(input, t.right, bucket, key, cut, depth - 1);
    }
  }

  lemma BucketsDisjoint(input: seq<Byte>, t: Tree, bucket: nat, u: Tree, other: nat)
    requires AllHash(input, t, bucket) && AllHash(input, u, other) && bucket != other
    ensures Positions(t) !! Positions(u)
  {
    forall x | x in Positions(t) && x in Positions(u)
      ensures false
    {
      AllHashMember(input, t, bucket, x);
      AllHashMember(input, u, other, x);
    }
  }

  /** One bucket at rest: its links respect the heap order and its treap the search order. */
  ghost predicate BucketOk(input: seq<Byte>, f: seq<nat>, w: nat, link: nat, next: nat, invalid: nat, bucket: nat)
    requires w > 0 && |f| == 2 * w
  {
    && Linked(f, w, link, next, next - w, invalid)
    && Ordered(input, View(f, w, link, next, next - w), None, None)
    && AllHash(input, View(f, w, link, next, next - w), bucket)
  }

  /** The walk made at `position`: everything within the window may be visited. */
  function WalkAt(input: seq<Byte>, w: nat, position: nat, maxBackward: nat, invalid: nat): (c: Walk)
  {
    Walk(input, w, position, position - maxBackward, position + 1 - w, invalid)
  }

  /** A bucket seen from the next walk: the same treap without the nodes that left the window. */
  lemma BucketAtWalk(c: Walk, f: seq<nat>, link: nat, next: nat, bucket: nat)
    requires c.Valid() && c.IsForest(f) && c.lo == c.key + 1 - c.w && next <= c.key
    requires BucketOk(c.input, f, c.w, link, next, c.invalid, bucket)
    ensures c.Sound(f, link, c.key)
    ensures c.Tree(f, link, c.key) == Prune(View(f, c.w, link, next, next - c.w), c.lo)
    ensures Ordered(c.input, c.Tree(f, link, c.key), None, None) && AllHash(c.input, c.Tree(f, link, c.key), bucket)
    ensures Heap(c.Tree(f, link, c.key), c.key)
  {
    ViewPruned(f, c.w, link, next, next - c.w, c.lo, c.invalid);
    PruneOrdered(c.input, View(f, c.w, link, next, next - c.w), None, None, c.lo);
    AllHashPruned(c.input, View(f, c.w, link, next, next - c.w), bucket, c.lo);
    ViewRaised(f, c.w, link, next, c.key, c.lo, c.invalid);
    ViewIsHeap(f, c.w, link, c.key, c.lo);
  }

  /** After the re-rooting walk the bucket holds the re-rooted treap. */
  lemma OwnBucketStored(c: Walk, f: seq<nat>, link: nat, depth: nat, bucket: nat)
    requires c.Valid() && Fits(c.input, c.key) && c.IsForest(f) && c.lo == c.key + 1 - c.w && c.lo <= c.key
    requires c.Sound(f, link, c.key) && Hash4(c.input, c.key) == bucket
    requires Ordered(c.input, c.Tree(f, link, c.key), None, None) && AllHash(c.input, c.Tree(f, link, c.key), bucket)
    ensures Heap(c.Tree(f, link, c.key), c.key)
    ensures var g := WalkForest(c, f, link, LeftIndex(c.w, c.key), RightIndex(c.w, c.key), depth);
            && View(g, c.w, c.key, c.key + 1, c.lo) == Reroot(c.input, c.Tree(f, link, c.key), c.key, c.cut, depth)
            && BucketOk(c.input, g, c.w, c.key, c.key + 1, c.invalid, bucket)
  {
    var t := c.Tree(f, link, c.key);
    var hl, hr := Hole(c.key, false), Hole(c.key, true);
    WalkSplits(c, f, link, c.key, None, None, hl, hr, depth);
    RerootInvariant(c.input, t, c.key, c.cut, depth);
    AllHashSplit(c.input, t, bucket, c.key, c.cut, depth);
    RootedAt(c, WalkForest(c, f, link, Index(c.w, hl), Index(c.w, hr), depth), Split(c.input, t, c.key, c.cut, depth));
    hide Split, WalkForest, View, Linked, Hash4;
  }

  lemma RootedAt(c: Walk, g: seq<nat>, parts: (Tree, Tree))
    requires c.Valid() && c.IsForest(g) && c.lo <= c.key
    requires HolesHold(c, g, Hole(c.key, false), Hole(c.key, true), c.key, parts)
    ensures View(g, c.w, c.key, c.key + 1, c.lo) == Node(parts.0, c.key, parts.1)
    ensures Linked(g, c.w, c.key, c.key + 1, c.lo, c.invalid)
  {
  }

  /** Every other bucket keeps its treap. */
  lemma OtherBucketStored(c: Walk, f: seq<nat>, link: nat, depth: nat, bucket: nat, otherLink: nat, other: nat)
    requires c.Valid() && Fits(c.input, c.key) && c.IsForest(f) && c.lo == c.key + 1 - c.w && c.lo <= c.key
    requires c.Sound(f, link, c.key) && AllHash(c.input, c.Tree(f, link, c.key), bucket) && bucket != other
    requires c.Sound(f, otherLink, c.key) && AllHash(c.input, c.Tree(f, otherLink, c.key), other)
    requires Ordered(c.input, c.Tree(f, otherLink, c.key), None, None)
    ensures var g := WalkForest(c, f, link, LeftIndex(c.w, c.key), RightIndex(c.w, c.key), depth);
            && View(g, c.w, otherLink, c.key + 1, c.lo) == c.Tree(f, otherLink, c.key)
            && BucketOk(c.input, g, c.w, otherLink, c.key + 1, c.invalid, other)
  {
    var u := c.Tree(f, otherLink, c.key);
    var hl, hr := Hole(c.key, false), Hole(c.key, true);
    BucketsDisjoint(c.input, c.Tree(f, link, c.key), bucket, u, other);
    ViewIsHeap(f, c.w, otherLink, c.key, c.lo);
    ViewFrom(f, c.w, otherLink, c.key, c.lo);
    WalkKeepsTree(c, f, link, c.key, hl, hr, depth, u, c.key);
    var g := WalkForest(c, f, link, Index(c.w, hl), Index(c.w, hr), depth);
    ViewFrame(f, g, c.w, otherLink, c.key, c.lo, c.invalid);
    ViewRaised(g, c.w, otherLink, c.key, c.key + 1, c.lo, c.invalid);
  }

  /** A bound agrees with the new position on `n` bytes; no bound agrees on none. */
  predicate SideAgrees(input: seq<Byte>, key: nat, side: Option<nat>, n: nat)
  {
    n <= MAX_TREE_COMP_LENGTH && key + n <= |input| &&
    match side
    case None => n == 0
    case Some(p) => p + n <= |input| && Lcp(input, p, key, n) == n
  }

  /** The walk's state: the treap still to be searched lies between the last node left behind
      on either side, and the two holes belong to positions newer than all of it. */
  ghost predicate Walking(c: Walk, f: seq<nat>, prev: nat, bound: nat, low: Option<nat>, high: Option<nat>,
                          hl: Hole, hr: Hole, bestLeft: nat, bestRight: nat)
    requires c.Valid() && c.IsForest(f)
  {
    && c.Sound(f, prev, bound) && c.lo <= bound
    && c.Above(hl, bound) && c.Above(hr, bound) && hl != hr
    && Ordered(c.input, c.Tree(f, prev, bound), low, high)
    && SideAgrees(c.input, c.key, low, bestLeft) && SideAgrees(c.input, c.key, high, bestRight)
  }

  /** The bytes the walk does not compare do agree: they agree with both bounds. */
  lemma SkippedBytesAgree(c: Walk, f: seq<nat>, prev: nat, bound: nat, low: Option<nat>, high: Option<nat>,
                          hl: Hole, hr: Hole, bestLeft: nat, bestRight: nat)
    requires c.Valid() && c.IsForest(f) && Walking(c, f, prev, bound, low, high, hl, hr, bestLeft, bestRight)
    requires c.cut <= prev < c.key
    ensures var m := Min(bestLeft, bestRight);
            prev + m <= |c.input| && c.key + m <= |c.input| && c.input[prev..prev + m] == c.input[c.key..c.key + m]
  {
    TopOfView(c, f, prev, bound);
    var m := Min(bestLeft, bestRight);
    if m > 0 {
      LcpNarrow(c.input, low.value, c.key, m, bestLeft);
      LcpNarrow(c.input, high.value, c.key, m, bestRight);
      Sandwich(c.input, low.value, prev, high.value, c.key, m, MAX_TREE_COMP_LENGTH);
      LcpAgrees(c.input, prev, c.key, m);
    }
  }

  lemma LcpSelf(input: seq<Byte>, p: nat, q: nat, limit: nat)
    requires p + limit <= |input| && q + limit <= |input|
    ensures var n := Lcp(input, p, q, limit); Lcp(input, p, q, n) == n
  {
    LcpNarrow(input, p, q, Lcp(input, p, q, limit), limit);
  }

  /** The child's view, whether or not the parent was hooked in. */
  lemma StepEither(c: Walk, f: seq<nat>, g: seq<nat>, prev: nat, bound: nat, h: Hole, right: bool)
    requires c.Valid() && c.IsForest(f) && c.Sound(f, prev, bound) && c.cut <= prev < c.key && c.Above(h, bound)
    requires g == f || g == f[Index(c.w, h) := prev]
    ensures var t := c.Tree(f, prev, bound);
            var link := g[Index(c.w, Hole(prev, right))];
            && t.Node? && c.Sound(g, link, prev) && c.Tree(g, link, prev) == if right then t.right else t.left
  {
    TopOfView(c, f, prev, bound);
    StepDown(c, f, prev, bound, h, right);
  }

  /** Turning right at a smaller node; `g` is the forest with or without the node hooked in. */
  lemma WalkingRight(c: Walk, f: seq<nat>, g: seq<nat>, prev: nat, bound: nat, low: Option<nat>, high: Option<nat>,
                     hl: Hole, hr: Hole, bestLeft: nat, bestRight: nat, n: nat)
    requires c.Valid() && c.IsForest(f) && Walking(c, f, prev, bound, low, high, hl, hr, bestLeft, bestRight)
    requires c.cut <= prev < c.key && n <= MAX_TREE_COMP_LENGTH && c.key + n <= |c.input| &&
             Lcp(c.input, prev, c.key, n) == n
    requires g == f || g == f[Index(c.w, hl) := prev]
    ensures Walking(c, g, g[RightIndex(c.w, prev)], prev, Some(prev), high, Hole(prev, true), hr, n, bestRight)
    ensures c.Tree(f, prev, bound).Node? && c.Tree(g, g[RightIndex(c.w, prev)], prev) == c.Tree(f, prev, bound).right
  {
    TopOfView(c, f, prev, bound);
    StepEither(c, f, g, prev, bound, hl, true);
  }

  lemma WalkingLeft(c: Walk, f: seq<nat>, g: seq<nat>, prev: nat, bound: nat, low: Option<nat>, high: Option<nat>,
                    hl: Hole, hr: Hole, bestLeft: nat, bestRight: nat, n: nat)
    requires c.Valid() && c.IsForest(f) && Walking(c, f, prev, bound, low, high, hl, hr, bestLeft, bestRight)
    requires c.cut <= prev < c.key && n <= MAX_TREE_COMP_LENGTH && c.key + n <= |c.input| &&
             Lcp(c.input, prev, c.key, n) == n
    requires g == f || g == f[Index(c.w, hr) := prev]
    ensures Walking(c, g, g[LeftIndex(c.w, prev)], prev, low, Some(prev), hl, Hole(prev, false), bestLeft, n)
    ensures c.Tree(f, prev, bound).Node? && c.Tree(g, g[LeftIndex(c.w, prev)], prev) == c.Tree(f, prev, bound).left
  {
    TopOfView(c, f, prev, bound);
    StepEither(c, f, g, prev, bound, hr, false);
  }

  /** Re-rooting happens only when a whole comparison window is readable. */
  predicate Reroots(maxLength: nat)
  {
    maxLength >= MAX_TREE_COMP_LENGTH
  }

  /** The forest the rest of the walk will leave. */
  ghost predicate PromisesForest(c: Walk, f: seq<nat>, prev: nat, nodeLeft: nat, nodeRight: nat, depth: nat,
                                 maxLength: nat, final: seq<nat>)
    requires c.Valid() && c.IsForest(f)
  {
    && c.key + maxLength <= |c.input| && nodeLeft < 2 * c.w && nodeRight < 2 * c.w
    && if Reroots(maxLength) then WalkForest(c, f, prev, nodeLeft, nodeRight, depth) == final else f == final
  }

  /** The matches the rest of the walk will report. */
  ghost predicate PromisesMatches(c: Walk, f: seq<nat>, prev: nat, bound: nat, depth: nat, best: nat, maxLength: nat,
                                  found: seq<TreeMatch>, total: seq<TreeMatch>)
    requires c.Valid() && c.IsForest(f)
  {
    && c.key + maxLength <= |c.input| && Heap(c.Tree(f, prev, bound), c.key)
    && found + Matches(c.input, c.Tree(f, prev, bound), c.key, maxLength, c.cut, depth, best) == total
  }

  lemma ForestRight(c: Walk, f: seq<nat>, prev: nat, nodeLeft: nat, nodeRight: nat, depth: nat, maxLength: nat,
                    final: seq<nat>)
    requires c.Valid() && c.IsForest(f) && c.cut <= prev < c.key && depth > 0
    requires PromisesForest(c, f, prev, nodeLeft, nodeRight, depth, maxLength, final)
    requires var n := Lcp(c.input, prev, c.key, maxLength);
             n < Min(maxLength, MAX_TREE_COMP_LENGTH) && c.input[c.key + n] > c.input[prev + n]
    ensures var g := if Reroots(maxLength) then f[nodeLeft := prev] else f;
            PromisesForest(c, g, g[RightIndex(c.w, prev)], RightIndex(c.w, prev), nodeRight, depth - 1, maxLength,
                           final)
  {
    if Reroots(maxLength) {
      LcpNarrow(c.input, prev, c.key, MAX_TREE_COMP_LENGTH, maxLength);
    }
    hide Lcp;
  }

  lemma ForestLeft(c: Walk, f: seq<nat>, prev: nat, nodeLeft: nat, nodeRight: nat, depth: nat, maxLength: nat,
                   final: seq<nat>)
    requires c.Valid() && c.IsForest(f) && c.cut <= prev < c.key && depth > 0
    requires PromisesForest(c, f, prev, nodeLeft, nodeRight, depth, maxLength, final)
    requires var n := Lcp(c.input, prev, c.key, maxLength);
             n < Min(maxLength, MAX_TREE_COMP_LENGTH) && c.input[c.key + n] <= c.input[prev + n]
    ensures var g := if Reroots(maxLength) then f[nodeRight := prev] else f;
            PromisesForest(c, g, g[LeftIndex(c.w, prev)], nodeLeft, LeftIndex(c.w, prev), depth - 1, maxLength, final)
  {
    if Reroots(maxLength) {
      LcpNarrow(c.input, prev, c.key, MAX_TREE_COMP_LENGTH, maxLength);
    }
    hide Lcp;
  }

  /** One step of the walk, in whichever direction, reports what the functional walk reports. */
  lemma MatchesTurn(c: Walk, f: seq<nat>, g: seq<nat>, prev: nat, bound: nat, h: Hole, right: bool, depth: nat,
                    best: nat, maxLength: nat, found: seq<TreeMatch>, total: seq<TreeMatch>)
    requires c.Valid() && c.IsForest(f) && c.cut <= prev < c.key && depth > 0 && c.Above(h, bound) &&
             c.Sound(f, prev, bound)
    requires PromisesMatches(c, f, prev, bound, depth, best, maxLength, found, total)
    requires var n := Lcp(c.input, prev, c.key, maxLength);
             n < Min(maxLength, MAX_TREE_COMP_LENGTH) && right == (c.input[c.key + n] > c.input[prev + n])
    requires g == f || g == f[Index(c.w, h) := prev]
    ensures var n := Lcp(c.input, prev, c.key, maxLength);
            PromisesMatches(c, g, g[Index(c.w, Hole(prev, right))], prev, depth - 1, Max(best, n), maxLength,
                            found + Report(TreeMatch(c.key - prev, n, 0), best), total)
  {
    hide Lcp, View, Linked, Ordered, Matches, Report, Heap;
    var n := Lcp(c.input, prev, c.key, maxLength);
    TopOfView(c, f, prev, bound);
    StepEither(c, f, g, prev, bound, h, right);
    MatchesStep(c.input, c.Tree(f, prev, bound), c.key, maxLength, c.cut, depth, best, found, n);
  }

  /** A walk that ends on an equal sequence. */
  lemma EqualEnds(c: Walk, f: seq<nat>, prev: nat, bound: nat, nodeLeft: nat, nodeRight: nat, depth: nat,
                  best: nat, maxLength: nat, found: seq<TreeMatch>, final: seq<nat>, total: seq<TreeMatch>)
    requires c.Valid() && c.IsForest(f) && c.cut <= prev < c.key && depth > 0 && c.Sound(f, prev, bound)
    requires PromisesForest(c, f, prev, nodeLeft, nodeRight, depth, maxLength, final)
    requires PromisesMatches(c, f, prev, bound, depth, best, maxLength, found, total)
    requires Lcp(c.input, prev, c.key, maxLength) >= Min(maxLength, MAX_TREE_COMP_LENGTH)
    ensures total == found + Report(TreeMatch(c.key - prev, Lcp(c.input, prev, c.key, maxLength), 0), best)
    ensures final == if Reroots(maxLength) then
                       var f1 := f[nodeLeft := f[LeftIndex(c.w, prev)]];
                       f1[nodeRight := f1[RightIndex(c.w, prev)]]
                     else f
  {
    TopOfView(c, f, prev, bound);
    if Reroots(maxLength) {
      LcpNarrow(c.input, prev, c.key, MAX_TREE_COMP_LENGTH, maxLength);
    }
    hide Lcp, View, Linked, Ordered;
    var head := Report(TreeMatch(c.key - prev, Lcp(c.input, prev, c.key, maxLength), 0), best);
    assert head + [] == head;
  }

  /** A walk that ends outside the window, past the depth bound, or on the invalid marker. */
  lemma WindowEnds(c: Walk, f: seq<nat>, prev: nat, bound: nat, nodeLeft: nat, nodeRight: nat, depth: nat,
                   best: nat, maxLength: nat, found: seq<TreeMatch>, final: seq<nat>, total: seq<TreeMatch>)
    requires c.Valid() && c.IsForest(f) && (depth == 0 || prev >= c.key || prev < c.cut) && c.Sound(f, prev, bound)
    requires PromisesForest(c, f, prev, nodeLeft, nodeRight, depth, maxLength, final)
    requires PromisesMatches(c, f, prev, bound, depth, best, maxLength, found, total)
    ensures total == found
    ensures final == if Reroots(maxLength) then f[nodeLeft := c.invalid][nodeRight := c.invalid] else f
  {
    TopOfView(c, f, prev, bound);
  }

  lemma Reported(m: TreeMatch, best: nat, found: seq<TreeMatch>)
    ensures found + Report(m, best) == if m.length > best then found + [m] else found
    ensures Max(best, m.length) == if m.length > best then m.length else best
  {
  }

  /** Everything the loop keeps, in one place. */
  ghost predicate LoopState(c: Walk, f: seq<nat>, prev: nat, bound: nat, low: Option<nat>, high: Option<nat>, hl: Hole,
                            hr: Hole,
                            bestLeft: nat, bestRight: nat, depth: nat, best: nat, maxLength: nat, found: seq<TreeMatch>,
                            final: seq<nat>, total: seq<TreeMatch>)
    requires c.Valid()
  {
    && c.IsForest(f) && Walking(c, f, prev, bound, low, high, hl, hr, bestLeft, bestRight)
    && bestLeft <= maxLength && bestRight <= maxLength && c.key + maxLength <= |c.input|
    && PromisesForest(c, f, prev, Index(c.w, hl), Index(c.w, hr), depth, maxLength, final)
    && PromisesMatches(c, f, prev, bound, depth, best, maxLength, found, total)
  }

  lemma LoopStarts(c: Walk, f: seq<nat>, link: nat, maxLength: nat, best: nat, found: seq<TreeMatch>)
    requires c.Valid() && c.IsForest(f) && c.key + maxLength <= |c.input|
    requires Walking(c, f, link, c.key, None, None, Hole(c.key, false), Hole(c.key, true), 0, 0)
    ensures Heap(c.Tree(f, link, c.key), c.key)
    ensures LoopState(c, f, link, c.key, None, None, Hole(c.key, false), Hole(c.key, true), 0, 0, MAX_TREE_SEARCH_DEPTH,
                      best, maxLength, found,
                      if Reroots(maxLength) then WalkForest(c, f, link, LeftIndex(c.w, c.key), RightIndex(c.w, c.key),
                                                            MAX_TREE_SEARCH_DEPTH) else f,
                      found + Matches(c.input, c.Tree(f, link, c.key), c.key, maxLength, c.cut, MAX_TREE_SEARCH_DEPTH,
                                      best))
  {
    hide WalkForest, Matches, View, Linked;
    TopOfView(c, f, link, c.key);
  }

  lemma LoopSkips(c: Walk, f: seq<nat>, prev: nat, bound: nat, low: Option<nat>, high: Option<nat>, hl: Hole, hr: Hole,
                  bestLeft: nat, bestRight: nat, depth: nat, best: nat, maxLength: nat, found: seq<TreeMatch>,
                  final: seq<nat>, total: seq<TreeMatch>)
    requires c.Valid() && LoopState(c, f, prev, bound, low, high, hl, hr, bestLeft, bestRight, depth, best, maxLength,
                                    found, final, total)
    requires c.cut <= prev < c.key
    ensures c.key + maxLength <= |c.input|
    ensures var m := Min(bestLeft, bestRight);
            m <= maxLength && Lcp(c.input, prev, c.key, maxLength) == m +
              Lcp(c.input, prev + m, c.key + m, maxLength - m)
  {
    hide Walking, Lcp, Matches, WalkForest;
    SkippedBytesAgree(c, f, prev, bound, low, high, hl, hr, bestLeft, bestRight);
    LcpSkip(c.input, prev, c.key, maxLength, Min(bestLeft, bestRight));
  }

  lemma LoopRight(c: Walk, f: seq<nat>, prev: nat, bound: nat, low: Option<nat>, high: Option<nat>, hl: Hole, hr: Hole,
                  bestLeft: nat, bestRight: nat, depth: nat, best: nat, maxLength: nat, found: seq<TreeMatch>,
                  final: seq<nat>, total: seq<TreeMatch>, n: nat)
    requires c.Valid() && LoopState(c, f, prev, bound, low, high, hl, hr, bestLeft, bestRight, depth, best, maxLength,
                                    found, final, total)
    requires c.cut <= prev < c.key && depth > 0 && n == Lcp(c.input, prev, c.key, maxLength)
    requires n < Min(maxLength, MAX_TREE_COMP_LENGTH) && c.input[c.key + n] > c.input[prev + n]
    ensures var g := if Reroots(maxLength) then f[Index(c.w, hl) := prev] else f;
            LoopState(c, g, g[RightIndex(c.w, prev)], prev, Some(prev), high, Hole(prev, true), hr, n, bestRight,
                      depth - 1,
                      Max(best, n), maxLength, found + Report(TreeMatch(c.key - prev, n, 0), best), final, total)
  {
    hide Lcp, Matches, WalkForest, PromisesForest, PromisesMatches, Report, View, Linked, Ordered, SideAgrees, Heap;
    LcpSelf(c.input, prev, c.key, maxLength);
    var g := if Reroots(maxLength) then f[Index(c.w, hl) := prev] else f;
    WalkingRight(c, f, g, prev, bound, low, high, hl, hr, bestLeft, bestRight, n);
    ForestRight(c, f, prev, Index(c.w, hl), Index(c.w, hr), depth, maxLength, final);
    MatchesTurn(c, f, g, prev, bound, hl, true, depth, best, maxLength, found, total);
  }

  lemma LoopLeft(c: Walk, f: seq<nat>, prev: nat, bound: nat, low: Option<nat>, high: Option<nat>, hl: Hole, hr: Hole,
                 bestLeft: nat, bestRight: nat, depth: nat, best: nat, maxLength: nat, found: seq<TreeMatch>,
                 final: seq<nat>, total: seq<TreeMatch>, n: nat)
    requires c.Valid() && LoopState(c, f, prev, bound, low, high, hl, hr, bestLeft, bestRight, depth, best, maxLength,
                                    found, final, total)
    requires c.cut <= prev < c.key && depth > 0 && n == Lcp(c.input, prev, c.key, maxLength)
    requires n < Min(maxLength, MAX_TREE_COMP_LENGTH) && c.input[c.key + n] <= c.input[prev + n]
    ensures var g := if Reroots(maxLength) then f[Index(c.w, hr) := prev] else f;
            LoopState(c, g, g[LeftIndex(c.w, prev)], prev, low, Some(prev), hl, Hole(prev, false), bestLeft, n,
                      depth - 1,
                      Max(best, n), maxLength, found + Report(TreeMatch(c.key - prev, n, 0), best), final, total)
  {
    hide Lcp, Matches, WalkForest, PromisesForest, PromisesMatches, Report, View, Linked, Ordered, SideAgrees, Heap;
    LcpSelf(c.input, prev, c.key, maxLength);
    var g := if Reroots(maxLength) then f[Index(c.w, hr) := prev] else f;
    WalkingLeft(c, f, g, prev, bound, low, high, hl, hr, bestLeft, bestRight, n);
    ForestLeft(c, f, prev, Index(c.w, hl), Index(c.w, hr), depth, maxLength, final);
    MatchesTurn(c, f, g, prev, bound, hr, false, depth, best, maxLength, found, total);
  }

  lemma LoopEqual(c: Walk, f: seq<nat>, prev: nat, bound: nat, low: Option<nat>, high: Option<nat>, hl: Hole, hr: Hole,
                  bestLeft: nat, bestRight: nat, depth: nat, best: nat, maxLength: nat, found: seq<TreeMatch>,
                  final: seq<nat>, total: seq<TreeMatch>, n: nat)
    requires c.Valid() && LoopState(c, f, prev, bound, low, high, hl, hr, bestLeft, bestRight, depth, best, maxLength,
                                    found, final, total)
    requires c.cut <= prev < c.key && depth > 0 && n == Lcp(c.input, prev, c.key, maxLength)
    requires n >= Min(maxLength, MAX_TREE_COMP_LENGTH)
    ensures total == found + Report(TreeMatch(c.key - prev, n, 0), best)
    ensures final == if Reroots(maxLength) then
                       var f1 := f[Index(c.w, hl) := f[LeftIndex(c.w, prev)]];
                       f1[Index(c.w, hr) := f1[RightIndex(c.w, prev)]]
                     else f
  {
    EqualEnds(c, f, prev, bound, Index(c.w, hl), Index(c.w, hr), depth, best, maxLength, found, final, total);
  }

  lemma LoopEnds(c: Walk, f: seq<nat>, prev: nat, bound: nat, low: Option<nat>, high: Option<nat>, hl: Hole, hr: Hole,
                 bestLeft: nat, bestRight: nat, depth: nat, best: nat, maxLength: nat, found: seq<TreeMatch>,
                 final: seq<nat>, total: seq<TreeMatch>)
    requires c.Valid() && LoopState(c, f, prev, bound, low, high, hl, hr, bestLeft, bestRight, depth, best, maxLength,
                                    found, final, total)
    requires depth == 0 || prev >= c.key || prev < c.cut
    ensures total == found
    ensures final == if Reroots(maxLength) then f[Index(c.w, hl) := c.invalid][Index(c.w, hr) := c.invalid] else f
  {
    WindowEnds(c, f, prev, bound, Index(c.w, hl), Index(c.w, hr), depth, best, maxLength, found, final, total);
  }

  /** All buckets at rest. */
  ghost predicate BucketsOk(input: seq<Byte>, f: seq<nat>, w: nat, links: seq<nat>, next: nat, invalid: nat)
    requires w > 0 && |f| == 2 * w && |links| == BUCKET_COUNT
  {
    forall b :: 0 <= b < BUCKET_COUNT ==> BucketOk(input, f, w, links[b], next, invalid, b)
  }

  /** Every bucket but one holds what it held, without the nodes that left the window. */
  ghost predicate OthersSlide(f: seq<nat>, g: seq<nat>, w: nat, links: seq<nat>, next: nat, later: nat, key: nat)
    requires w > 0 && |f| == |g| == 2 * w && |links| == BUCKET_COUNT
  {
    forall b :: 0 <= b < BUCKET_COUNT && b != key ==>
      View(g, w, links[b], later, later - w) == Prune(View(f, w, links[b], next, next - w), later - w)
  }

  /** The hasher's fields as values: forest, bucket roots, and the first position not yet stored. */
  datatype Snapshot = Snapshot(forest: seq<nat>, links: seq<nat>, next: nat) {
    predicate Shaped(w: nat)
      requires w > 0
    {
      |forest| == 2 * w && |links| == BUCKET_COUNT
    }

    ghost predicate Ok(input: seq<Byte>, w: nat, invalid: nat)
      requires w > 0
    {
      Shaped(w) && BucketsOk(input, forest, w, links, next, invalid)
    }

    /** The treap of a bucket: its stored positions from `lo` on. */
    ghost function Treap(w: nat, bucket: nat, lo: int): Tree
      requires w > 0 && Shaped(w) && bucket < BUCKET_COUNT
    {
      Prune(View(forest, w, links[bucket], next, next - w), lo)
    }
  }

  /** What storing `c.key` does: its bucket is re-rooted at it, every other bucket only loses
      what left the window. A search without a whole comparison window changes nothing. */
  ghost predicate Stored(c: Walk, before: Snapshot, after: Snapshot, depth: nat)
    requires c.Valid() && before.Shaped(c.w) && after.Shaped(c.w) && Fits(c.input, c.key)
  {
    var bucket := Hash4(c.input, c.key);
    var t := before.Treap(c.w, bucket, c.lo);
    && Heap(t, c.key) && after.next == c.key + 1 && after.links == before.links[bucket := c.key]
    && View(after.forest, c.w, c.key, c.key + 1, c.lo) == Reroot(c.input, t, c.key, c.cut, depth)
    && OthersSlide(before.forest, after.forest, c.w, before.links, before.next, after.next, bucket)
  }

  /** What storing a position leaves in all buckets. */
  lemma StoredEverywhere(c: Walk, before: Snapshot, after: Snapshot, depth: nat)
    requires c.Valid() && before.Ok(c.input, c.w, c.invalid) && c.lo == c.key + 1 - c.w && before.next <= c.key &&
             Fits(c.input, c.key)
    requires after.next == c.key + 1 && after.links == before.links[Hash4(c.input, c.key) := c.key]
    requires after.forest == WalkForest(c, before.forest, before.links[Hash4(c.input, c.key)], LeftIndex(c.w, c.key),
                                        RightIndex(c.w, c.key), depth)
    ensures after.Ok(c.input, c.w, c.invalid) && Stored(c, before, after, depth)
  {
    hide Hash4, WalkForest, View, BucketOk, Split, Reroot, Heap, Prune, Ordered, AllHash, Walk.Tree, Walk.Sound,
         LeftIndex, RightIndex;
    var key := Hash4(c.input, c.key);
    var f, g, links, next := before.forest, after.forest, before.links, before.next;
    BucketAtWalk(c, f, links[key], next, key);
    OwnBucketStored(c, f, links[key], depth, key);
    forall b | 0 <= b < BUCKET_COUNT && b != key
      ensures BucketOk(c.input, g, c.w, links[b], c.key + 1, c.invalid, b)
      ensures View(g, c.w, links[b], c.key + 1, c.lo) == Prune(View(f, c.w, links[b], next, next - c.w), c.lo)
    {
      BucketAtWalk(c, f, links[b], next, b);
      OtherBucketStored(c, f, links[key], depth, key, links[b], b);
    }
  }

  /** A walk starts between no bounds, with the new position's own slots as its two holes. */
  lemma WalkStarts(c: Walk, s: Snapshot)
    requires c.Valid() && s.Ok(c.input, c.w, c.invalid) && c.lo == c.key + 1 - c.w && s.next <= c.key &&
             c.key + 4 <= |c.input|
    ensures var key := Hash4(c.input, c.key);
            && Walking(c, s.forest, s.links[key], c.key, None, None, Hole(c.key, false), Hole(c.key, true), 0, 0)
            && c.Tree(s.forest, s.links[key], c.key) == s.Treap(c.w, key, c.lo)
            && Heap(s.Treap(c.w, key, c.lo), c.key)
  {
    var key := Hash4(c.input, c.key);
    hide Hash4;
    BucketAtWalk(c, s.forest, s.links[key], s.next, key);
  }

  /** What one call does, matches and fields together. */
  ghost predicate Outcome(c: Walk, maxLength: nat, bestLength: nat, matches: seq<TreeMatch>, found: seq<TreeMatch>,
                          before: Snapshot, after: Snapshot)
  {
    && c.Valid() && before.Shaped(c.w) && after.Shaped(c.w) && c.key + 4 <= |c.input| && c.key + maxLength <= |c.input|
    && var t := before.Treap(c.w, Hash4(c.input, c.key), c.lo);
    && Heap(t, c.key)
    && found == matches + Matches(c.input, t, c.key, maxLength, c.cut, MAX_TREE_SEARCH_DEPTH, bestLength)
    && if Reroots(maxLength) then Stored(c, before, after, MAX_TREE_SEARCH_DEPTH) else after == before
  }

  /** From the two array-level facts to the outcome. */
  lemma Concluded(c: Walk, maxLength: nat, bestLength: nat, matches: seq<TreeMatch>, found: seq<TreeMatch>,
                  before: Snapshot, after: Snapshot)
    requires c.Valid() && before.Ok(c.input, c.w, c.invalid) && c.lo == c.key + 1 - c.w && before.next <= c.key
    requires c.key + 4 <= |c.input| && c.key + maxLength <= |c.input|
    requires var key := Hash4(c.input, c.key);
             var t := c.Tree(before.forest, before.links[key], c.key);
             && Heap(t, c.key)
             && found == matches + Matches(c.input, t, c.key, maxLength, c.cut, MAX_TREE_SEARCH_DEPTH, bestLength)
             && after == if Reroots(maxLength) then
                           Snapshot(WalkForest(c, before.forest, before.links[key], LeftIndex(c.w, c.key),
                                               RightIndex(c.w, c.key), MAX_TREE_SEARCH_DEPTH),
                                    before.links[key := c.key], c.key + 1)
                         else before
    ensures after.Ok(c.input, c.w, c.invalid) && Outcome(c, maxLength, bestLength, matches, found, before, after)
  {
    hide Hash4, WalkForest, View, BucketOk, BucketsOk, Split, Stored, Walking, Matches;
    WalkStarts(c, before);
    if Reroots(maxLength) {
      StoredEverywhere(c, before, after, MAX_TREE_SEARCH_DEPTH);
    }
  }

  /** The matches of at least a given length. */
  function AtLeast(found: seq<StaticWords.DictionaryMatch>, minLength: nat): (kept: seq<TreeMatch>)
  {
    if found == [] then []
    else
      (if found[0].length >= minLength then [TreeMatch(found[0].distance, found[0].length, found[0].lengthCode)]
       else []) +
      AtLeast(found[1..], minLength)
  }

  /** A dictionary match the decoder turns into the bytes it covers, long enough and not too far. */
  predicate TrueWord(words: Dictionary.Words, input: seq<Byte>, position: nat, minLength: nat, maxLength: nat,
                     maxBackward: nat, maxDistance: nat,
                     m: TreeMatch)
  {
    && minLength <= m.length <= maxLength && maxBackward < m.distance <= maxDistance && position + m.length <= |input|
    && Dictionary.Transform(words, m.distance, m.lengthCode, maxBackward) == Ok(input[position..position + m.length])
  }

  /** Dictionary matches that decode, in increasing length. */
  ghost predicate TrueWords(words: Dictionary.Words, input: seq<Byte>, position: nat, minLength: nat, maxLength: nat,
                            maxBackward: nat, maxDistance: nat,
                            ms: seq<TreeMatch>)
  {
    && (forall i :: 0 <= i < |ms| ==> TrueWord(words, input, position, minLength, maxLength, maxBackward, maxDistance,
                                               ms[i]))
    && (forall i, j :: 0 <= i < j < |ms| ==> ms[i].length < ms[j].length)
  }

  /** What is kept of the dictionary's matches: the long enough ones of a table, unless no match could be longer. */
  ghost predicate Gathered(words: Dictionary.Words, lut: nat -> seq<StaticWords.LutWord>, input: seq<Byte>,
                           position: nat, maxLength: nat, maxBackward: nat, maxDistance: nat, best: nat,
                           table: seq<nat>, ms: seq<TreeMatch>)
    requires position <= |input|
  {
    if best >= maxLength then ms == []
    else
      exists found ::
        && ms == AtLeast(found, Max(best + 1, 4)) && StaticWords.FromTable(found, table, maxBackward, maxDistance)
        && StaticWords.OffersWords(words, lut, input, position, maxLength, maxBackward, maxDistance, found)
  }

  function BestCopy(matches: seq<TreeMatch>, copies: nat): nat
    requires copies <= |matches|
  {
    if copies == 0 then 1 else matches[copies - 1].length
  }

  /** All that is found at a position: copies in increasing length and distance, then what is kept of the dictionary's
      matches, each of which decodes to the bytes it covers. */
  ghost predicate AllMatches(words: Dictionary.Words, lut: nat -> seq<StaticWords.LutWord>, input: seq<Byte>,
                             position: nat, maxLength: nat, maxBackward: nat, maxDistance: nat,
                             matches: seq<TreeMatch>, copies: nat, table: seq<nat>)
  {
    && position <= |input| && copies <= |matches|
    && Progressive(input, position, maxLength, position - maxBackward, position, 1, matches[..copies])
    && Gathered(words, lut, input, position, maxLength, maxBackward, maxDistance, BestCopy(matches, copies), table,
                matches[copies..])
    && TrueWords(words, input, position, Max(BestCopy(matches, copies) + 1, 4), maxLength, maxBackward, maxDistance,
                 matches[copies..])
  }

  lemma NoWords(words: Dictionary.Words, input: seq<Byte>, position: nat, minLength: nat, maxLength: nat,
                maxBackward: nat, maxDistance: nat)
    ensures TrueWords(words, input, position, minLength, maxLength, maxBackward, maxDistance, [])
  {
  }

  /** Dropping the short ones leaves true matches in order. */
  lemma {:induction false} AtLeastAreTrue(words: Dictionary.Words, input: seq<Byte>, position: nat, minLength: nat,
                                          maxLength: nat, maxBackward: nat,
                                          maxDistance: nat, found: seq<StaticWords.DictionaryMatch>, above: nat)
    requires position <= |input|
    requires forall i :: 0 <= i < |found| ==>
               && StaticWords.DecodesTo(words, found[i], maxBackward, input[position..]) && found[i].length <= maxLength
               && maxBackward < found[i].distance <= maxDistance && above <= found[i].length
    requires forall i, j :: 0 <= i < j < |found| ==> found[i].length < found[j].length
    ensures TrueWords(words, input, position, minLength, maxLength, maxBackward, maxDistance, AtLeast(found, minLength))
    ensures forall m :: m in AtLeast(found, minLength) ==> m.length >= above
  {
    hide Dictionary.Transform;
    if found != [] {
      var m := found[0];
      forall i | 0 <= i < |found[1..]|
        ensures m.length + 1 <= found[1..][i].length
      {
        assert found[1..][i] == found[i + 1];
      }
      AtLeastAreTrue(words, input, position, minLength, maxLength, maxBackward, maxDistance, found[1..], m.length + 1);
      assert input[position..][..m.length] == input[position..position + m.length];
    }
  }

  /** The length of the last match added after the first `from`, or the length to beat. */
  function LastLength(found: seq<TreeMatch>, from: nat, best: nat): nat
  {
    if |found| <= from then best else found[|found| - 1].length
  }

  /** Main result for one call: whatever was skipped, dropped or cut short, every match it adds
      is a true copy within the backward limit, and they come in strictly increasing length and
      strictly increasing distance. */
  lemma OutcomeIsSound(c: Walk, maxLength: nat, bestLength: nat, matches: seq<TreeMatch>, found: seq<TreeMatch>,
                       before: Snapshot, after: Snapshot)
    requires Outcome(c, maxLength, bestLength, matches, found, before, after)
    ensures |matches| <= |found| && found[..|matches|] == matches
    ensures Progressive(c.input, c.key, maxLength, c.cut, c.key, bestLength, found[|matches|..])
  {
    hide Hash4, Stored, Matches, Progressive;
    var t := before.Treap(c.w, Hash4(c.input, c.key), c.lo);
    MatchesProgressive(c.input, t, c.key, maxLength, c.cut, MAX_TREE_SEARCH_DEPTH, bestLength, c.key);
    assert found[|matches|..] == Matches(c.input, t, c.key, maxLength, c.cut, MAX_TREE_SEARCH_DEPTH, bestLength);
  }

  /** Nothing is missed: when no node of the bucket is older than the limit and the depth bound
      does not bite, every node is matched by a report at least as long and at least as near. */
  lemma OutcomeIsComplete(c: Walk, maxLength: nat, bestLength: nat, matches: seq<TreeMatch>, found: seq<TreeMatch>,
                          before: Snapshot, after: Snapshot, x: nat)
    requires Outcome(c, maxLength, bestLength, matches, found, before, after)
    requires before.Ok(c.input, c.w, c.invalid) && c.lo == c.key + 1 - c.w && before.next <= c.key
    requires var t := before.Treap(c.w, Hash4(c.input, c.key), c.lo);
             x in Positions(t) && NoneBefore(t, c.cut) && Height(t) <= MAX_TREE_SEARCH_DEPTH
    ensures |matches| <= |found| && x < c.key
    ensures Covered(found[|matches|..], bestLength, c.key - x,
                    Lcp(c.input, x, c.key, Min(maxLength, MAX_TREE_COMP_LENGTH)))
  {
    hide Hash4, Stored, Matches, Walking, Covered, Lcp;
    var key := Hash4(c.input, c.key);
    var t := before.Treap(c.w, key, c.lo);
    BucketAtWalk(c, before.forest, before.links[key], before.next, key);
    MatchesCover(c.input, t, None, None, c.key, maxLength, c.cut, MAX_TREE_SEARCH_DEPTH, bestLength, x);
    assert found[|matches|..] == Matches(c.input, t, c.key, maxLength, c.cut, MAX_TREE_SEARCH_DEPTH, bestLength);
  }

  /** Re-rooting is conservative: the bucket gains the new position and loses only a node with
      the same 128 bytes, under the same two conditions. */
  lemma StoredIsConservative(c: Walk, before: Snapshot, after: Snapshot, x: nat)
    requires c.Valid() && before.Shaped(c.w) && after.Shaped(c.w) && Fits(c.input, c.key) && c.lo == c.key + 1 - c.w
    requires Stored(c, before, after, MAX_TREE_SEARCH_DEPTH)
    ensures var bucket := Hash4(c.input, c.key);
            var t, u := before.Treap(c.w, bucket, c.lo), after.Treap(c.w, bucket, c.lo);
            && Positions(u) <= Positions(t) + {c.key} && c.key in Positions(u)
            && (x in Positions(t) && NoneBefore(t, c.cut) && Height(t) <= MAX_TREE_SEARCH_DEPTH ==>
                  x < c.key && (x in Positions(u) || Lcp(c.input, x, c.key, MAX_TREE_COMP_LENGTH) ==
                                MAX_TREE_COMP_LENGTH))
  {
    hide Hash4, Lcp, Split, View, OthersSlide;
    var bucket := Hash4(c.input, c.key);
    var t := before.Treap(c.w, bucket, c.lo);
    SplitKeepsWithin(c.input, t, c.key, c.cut, MAX_TREE_SEARCH_DEPTH);
    ViewFrom(after.forest, c.w, c.key, c.key + 1, c.lo);
    PruneNothing(View(after.forest, c.w, c.key, c.key + 1, c.lo), c.lo);
    if x in Positions(t) && NoneBefore(t, c.cut) && Height(t) <= MAX_TREE_SEARCH_DEPTH {
      SplitKeepsPositions(c.input, t, c.key, c.cut, MAX_TREE_SEARCH_DEPTH, x);
    }
  }

  lemma {:induction false} PruneNothing(t: Tree, lo: int)
    requires NoneBefore(t, lo)
    ensures Prune(t, lo) == t
  {
    if t.Node? {
      PruneNothing(t.left, lo);
      PruneNothing(t.right, lo);
    }
  }

  /** A match search that has looked at every position from `scan` on. */
  ghost predicate Scanned(input: seq<Byte>, position: nat, maxLength: nat, scan: nat, best: nat)
    requires position + maxLength <= |input|
  {
    forall q :: scan <= q < position ==> Lcp(input, q, position, maxLength) <= best
  }

  lemma ScannedMore(input: seq<Byte>, position: nat, maxLength: nat, scan: nat, best: nat, better: nat)
    requires 0 < scan <= position && position + maxLength <= |input| && best <= better
    requires Scanned(input, position, maxLength, scan, best) && Lcp(input, scan - 1, position, maxLength) <= better
    ensures Scanned(input, position, maxLength, scan - 1, better)
  {
  }

  /** The short matches found so far: sound, sorted, and none farther than `scan`. */
  ghost predicate Short(input: seq<Byte>, position: nat, maxLength: nat, cut: int, scan: nat, best: nat,
                        found: seq<TreeMatch>)
  {
    && Progressive(input, position, maxLength, cut, position, 1, found)
    && (forall m :: m in found ==> m.distance <= position - scan && m.length <= best)
  }

  lemma ShortMore(input: seq<Byte>, position: nat, maxLength: nat, cut: int, scan: nat, best: nat,
                  found: seq<TreeMatch>)
    requires 0 < scan <= position && position + maxLength <= |input| && cut <= scan - 1 && 1 <= best
    requires Short(input, position, maxLength, cut, scan, best, found)
    ensures Short(input, position, maxLength, cut, scan - 1, best, found)
    ensures var n := Lcp(input, scan - 1, position, maxLength);
            n > best ==> Short(input, position, maxLength, cut, scan - 1, n,
                               found + [TreeMatch(position - (scan - 1), n, 0)])
  {
    var n := Lcp(input, scan - 1, position, maxLength);
    LcpAgrees(input, scan - 1, position, maxLength);
    var m := TreeMatch(position - (scan - 1), n, 0);
    if n > best {
      assert Acceptable(input, position, maxLength, cut, position, 1, m);
      hide IsCopy;
      assert Climbing(found + [m]) by {
        assert forall i :: 0 <= i < |found| ==> found[i] in found;
      }
    }
  }

  /** Tree matches longer than everything scanned lie farther than everything scanned. */
  lemma JoinShortAndTree(input: seq<Byte>, position: nat, maxLength: nat, cut: int, scan: nat, best: nat,
                         short: seq<TreeMatch>, tail: seq<TreeMatch>)
    requires position + maxLength <= |input| && scan <= position && 1 <= best
    requires Short(input, position, maxLength, cut, scan, best, short) &&
             Scanned(input, position, maxLength, scan, best)
    requires Progressive(input, position, maxLength, cut, position, best, tail)
    ensures Progressive(input, position, maxLength, cut, position, 1, short + tail)
  {
    forall m | m in tail
      ensures position - scan < m.distance && Acceptable(input, position, maxLength, cut, position, 1, m)
    {
      assert Acceptable(input, position, maxLength, cut, position, best, m);
      var q := position - m.distance;
      LcpSkip(input, q, position, maxLength, m.length);
    }
    hide Acceptable;
    JoinClimbing(short, tail, position - scan, best);
  }

  lemma JoinClimbing(short: seq<TreeMatch>, tail: seq<TreeMatch>, reach: nat, best: nat)
    requires Climbing(short) && Climbing(tail)
    requires forall m :: m in short ==> m.distance <= reach && m.length <= best
    requires forall m :: m in tail ==> reach < m.distance && best < m.length
    ensures Climbing(short + tail)
  {
    forall i, j | 0 <= i < j < |short + tail|
      ensures (short + tail)[i].length < (short + tail)[j].length &&
              (short + tail)[i].distance < (short + tail)[j].distance
    {
      if i < |short| <= j {
        assert short[i] in short && tail[j - |short|] in tail;
      }
    }
  }

  lemma JoinTree(c: Walk, maxLength: nat, scan: nat, best: nat, short: seq<TreeMatch>, found: seq<TreeMatch>,
                 before: Snapshot, after: Snapshot)
    requires c.key + maxLength <= |c.input| && scan <= c.key && 1 <= best
    requires Outcome(c, maxLength, best, short, found, before, after)
    requires Short(c.input, c.key, maxLength, c.cut, scan, best, short) &&
             Scanned(c.input, c.key, maxLength, scan, best)
    ensures Progressive(c.input, c.key, maxLength, c.cut, c.key, 1, found) && |short| <= |found| &&
            found[..|short|] == short
  {
    OutcomeIsSound(c, maxLength, best, short, found, before, after);
    JoinShortAndTree(c.input, c.key, maxLength, c.cut, scan, best, short, found[|short|..]);
    assert found == short + found[|short|..];
    hide Outcome, Progressive;
  }

  lemma ScanStarts(input: seq<Byte>, position: nat, maxLength: nat, cut: int)
    requires position + maxLength <= |input|
    ensures Scanned(input, position, maxLength, position, 1) && Short(input, position, maxLength, cut, position, 1, [])
  {
  }

  lemma ShortIsProgressive(input: seq<Byte>, position: nat, maxLength: nat, cut: int, scan: nat, best: nat,
                           found: seq<TreeMatch>)
    requires Short(input, position, maxLength, cut, scan, best, found)
    ensures Progressive(input, position, maxLength, cut, position, 1, found)
  {
  }

  lemma TwoBytesDiffer(input: seq<Byte>, a: nat, b: nat, limit: nat)
    requires a + 1 < |input| && b + 1 < |input| && a + limit <= |input| && b + limit <= |input|
    requires input[b] != input[a] || input[b + 1] != input[a + 1]
    ensures Lcp(input, a, b, limit) <= 1
  {
  }

  /** The binary-tree hasher. Positions are chunk-relative; `next` is the first position that
      has not been stored or overtaken. */
  class HashTree {
    const windowMask: nat
    const invalidRoot: nat
    const buckets: array<nat>
    const forest: array<nat>
    ghost var next: nat

    /** The window: how many positions the forest has slots for. */
    function W(): (w: nat)
      ensures w > 0
    {
      windowMask + 1
    }

    ghost predicate Shaped()
    {
      && buckets.Length == BUCKET_COUNT && forest.Length == 2 * W() && buckets != forest
      && invalidRoot + windowMask == 0x1_0000_0000
    }

    ghost function Now(): Snapshot
      reads this, buckets, forest
    {
      Snapshot(forest[..], buckets[..], next)
    }

    ghost predicate Valid(input: seq<Byte>)
      reads this, buckets, forest
    {
      Shaped() && |input| <= invalidRoot && next <= invalidRoot && Now().Ok(input, W(), invalidRoot)
    }

    constructor (windowBits: nat, ghost input: seq<Byte>)
      requires 10 <= windowBits <= 24 && |input| <= 0x1_0000_0000 - Pow2(windowBits)
      ensures Valid(input) && windowMask == Pow2(windowBits) - 1 && next == 0
      ensures fresh(buckets) && fresh(forest)
      ensures forall b :: 0 <= b < BUCKET_COUNT ==> Now().Treap(W(), b, 0) == Leaf
    {
      Pow2Monotone(windowBits, 24);
      assert Pow2(24) == 0x100_0000 by {
        Pow2Add(12, 12);
        assert Pow2(6) == 64;
        Pow2Add(6, 6);
      }
      windowMask := Pow2(windowBits) - 1;
      invalidRoot := 0x1_0000_0000 - (Pow2(windowBits) - 1);
      buckets := new nat[BUCKET_COUNT](_ => 0x1_0000_0000 - (Pow2(windowBits) - 1));
      forest := new nat[2 * Pow2(windowBits)](_ => 0);
      next := 0;
    }

    /** The walk that stores `position`. */
    ghost function Visit(input: seq<Byte>, position: nat, maxBackward: nat): (c: Walk)
    {
      WalkAt(input, W(), position, maxBackward, invalidRoot)
    }

    /** The loop of `StoreAndFind`: the forest becomes the one `WalkForest` describes, and the
        matches are those of the functional walk although each comparison skips the bytes both
        bounds agree on. */
    method WalkInPlace(input: seq<Byte>, position: nat, ghost c: Walk, first: nat, maxLength: nat, maxBackward: nat,
                       bestLength: nat, matches: seq<TreeMatch>)
      returns (best: nat, found: seq<TreeMatch>)
      requires Shaped() && c == WalkAt(input, W(), position, maxBackward, invalidRoot)
      requires c.Valid() && c.key + maxLength <= |c.input|
      requires Walking(c, forest[..], first, c.key, None, None, Hole(c.key, false), Hole(c.key, true), 0, 0)
      modifies forest
      ensures Heap(old(c.Tree(forest[..], first, c.key)), c.key)
      ensures found == matches + Matches(c.input, old(c.Tree(forest[..], first, c.key)), c.key, maxLength, c.cut,
                                         MAX_TREE_SEARCH_DEPTH, bestLength)
      ensures |matches| <= |found| && best == LastLength(found, |matches|, bestLength)
      ensures forest[..] == if Reroots(maxLength) then
                              WalkForest(c, old(forest[..]), first, LeftIndex(W(), c.key), RightIndex(W(), c.key),
                                         MAX_TREE_SEARCH_DEPTH)
                            else old(forest[..])
    {
      hide Matches, WalkForest, Walking, LoopState, Report, Ordered, View, Linked, Lcp, Heap, Split;
      var shouldReroot := maxLength >= MAX_TREE_COMP_LENGTH;
      var prev: nat := first;
      var nodeLeft: nat, nodeRight: nat := LeftIndex(W(), position), RightIndex(W(), position);
      var bestLenLeft: nat, bestLenRight: nat := 0, 0;
      best, found := bestLength, matches;

      ghost var bound: nat, low: Option<nat>, high: Option<nat>, hl, hr := position, None, None, Hole(position, false),
          Hole(position, true);
      LoopStarts(c, forest[..], first, maxLength, bestLength, matches);
      ghost var final := if shouldReroot then WalkForest(c, forest[..], prev, nodeLeft, nodeRight,
                                                         MAX_TREE_SEARCH_DEPTH) else forest[..];
      ghost var total := found + Matches(input, c.Tree(forest[..], prev, bound), position, maxLength, c.cut,
                                         MAX_TREE_SEARCH_DEPTH, best);

      var depthRemaining: nat := MAX_TREE_SEARCH_DEPTH;
      while true
        invariant nodeLeft == Index(W(), hl) && nodeRight == Index(W(), hr)
        invariant LoopState(c, forest[..], prev, bound, low, high, hl, hr, bestLenLeft, bestLenRight,
                            depthRemaining, best, maxLength, found, final, total)
        invariant |matches| <= |found| && best == LastLength(found, |matches|, bestLength)
        decreases depthRemaining
      {
        ghost var f := forest[..];
        if prev > position || depthRemaining == 0 || position - prev == 0 || position - prev > maxBackward {
          LoopEnds(c, f, prev, bound, low, high, hl, hr, bestLenLeft, bestLenRight, depthRemaining, best, maxLength,
                   found, final, total);
          if shouldReroot {
            forest[nodeLeft] := invalidRoot;
            forest[nodeRight] := invalidRoot;
          }
          break;
        }
        var current := Min(bestLenLeft, bestLenRight);
        LoopSkips(c, f, prev, bound, low, high, hl, hr, bestLenLeft, bestLenRight, depthRemaining, best, maxLength,
                  found, final, total);
        var maxCompLen := Min(maxLength, MAX_TREE_COMP_LENGTH);
        var n := MatchLength(input, prev + current, position + current, maxLength - current);
        var len: nat := current + n;
        ghost var best0, found0 := best, found;
        if len > best {
          best := len;
          found := found + [TreeMatch(position - prev, len, 0)];
        }
        Reported(TreeMatch(position - prev, len, 0), best0, found0);
        if len >= maxCompLen {
          LoopEqual(c, f, prev, bound, low, high, hl, hr, bestLenLeft, bestLenRight, depthRemaining, best0, maxLength,
                    found0, final, total, len);
          if shouldReroot {
            forest[nodeLeft] := forest[LeftIndex(W(), prev)];
            forest[nodeRight] := forest[RightIndex(W(), prev)];
          }
          break;
        }
        if input[position + len] > input[prev + len] {
          LoopRight(c, f, prev, bound, low, high, hl, hr, bestLenLeft, bestLenRight, depthRemaining, best0, maxLength,
                    found0, final, total, len);
          bestLenLeft := len;
          if shouldReroot {
            forest[nodeLeft] := prev;
          }
          nodeLeft := RightIndex(W(), prev);
          bound, low, hl := prev, Some(prev), Hole(prev, true);
          prev := forest[nodeLeft];
        } else {
          LoopLeft(c, f, prev, bound, low, high, hl, hr, bestLenLeft, bestLenRight, depthRemaining, best0, maxLength,
                   found0, final, total, len);
          bestLenRight := len;
          if shouldReroot {
            forest[nodeRight] := prev;
          }
          nodeRight := LeftIndex(W(), prev);
          bound, high, hr := prev, Some(prev), Hole(prev, false);
          prev := forest[nodeRight];
        }
        depthRemaining := depthRemaining - 1;
      }
    }

    /** Finds the matches the bucket's treap offers while re-rooting it at `position`, which
        must not have been stored before. Near the end of the input, where no whole comparison
        window remains, it only searches. */
    method StoreAndFind(input: seq<Byte>, position: nat, maxLength: nat, maxBackward: nat, bestLength: nat,
                        matches: seq<TreeMatch>)
      returns (best: nat, found: seq<TreeMatch>)
      requires Valid(input) && next <= position && position + 4 <= |input| && position + maxLength <= |input|
      requires maxBackward <= windowMask
      modifies this, buckets, forest
      ensures Valid(input)
      ensures Outcome(Visit(input, position, maxBackward), maxLength, bestLength, matches, found, old(Now()), Now())
      ensures |matches| <= |found| && best == LastLength(found, |matches|, bestLength)
    {
      hide Hash4, LoadLe, Lcp, WalkForest, View, Linked, Ordered, AllHash, BucketOk, BucketsOk, Outcome, Split, Matches,
           Walking, Heap, LeftIndex, RightIndex, Index, Prune;
      var key := Hash4(input, position);
      ghost var c := Visit(input, position, maxBackward);
      ghost var before := Now();
      WalkStarts(c, before);
      var first := buckets[key];
      if maxLength >= MAX_TREE_COMP_LENGTH {
        buckets[key] := position;
      }
      ghost var links := buckets[..];
      best, found := WalkInPlace(input, position, c, first, maxLength, maxBackward, bestLength, matches);
      if maxLength >= MAX_TREE_COMP_LENGTH {
        next := position + 1;
      }
      assert buckets[..] == links;
      Concluded(c, maxLength, bestLength, matches, found, before, Snapshot(forest[..], links, next));
    }

    /** Stores one position; the caller guarantees a whole comparison window. */
    method Store(input: seq<Byte>, position: nat, maxBackward: nat)
      requires Valid(input) && next <= position && Fits(input, position) && maxBackward <= windowMask
      modifies this, buckets, forest
      ensures Valid(input)
      ensures exists found :: Outcome(Visit(input, position, maxBackward), MAX_TREE_COMP_LENGTH, USIZE_MAX, [], found,
                                      old(Now()), Now())
    {
      hide Outcome;
      var _, found := StoreAndFind(input, position, MAX_TREE_COMP_LENGTH, maxBackward, USIZE_MAX, []);
    }

    /** All backward matches at a position: a short scan of the nearest bytes, then the tree,
        then whatever the static dictionary offers above the best length so far. */
    method FindAllMatches(input: seq<Byte>, position: nat, maxLength: nat, maxBackward: nat, shortMaxBackward: nat,
                          words: Dictionary.Words, lut: nat -> seq<StaticWords.LutWord>, maxDistance: nat)
      returns (matches: seq<TreeMatch>, ghost copies: nat, ghost table: seq<nat>)
      requires Valid(input) && next <= position && position + 2 <= |input| && position + maxLength <= |input|
      requires maxBackward <= windowMask && StaticWords.ValidLut(words, lut)
      modifies this, buckets, forest
      ensures Valid(input)
      ensures AllMatches(words, lut, input, position, maxLength, maxBackward, maxDistance, matches, copies, table)
    {
      hide Outcome, Matches, Progressive, Lcp, Scanned, Short, AtLeast, TrueWords, StaticWords.ValidLut,
           StaticWords.DecodesTo, StaticWords.FromTable, StaticWords.OffersWords;
      matches := [];
      var bestLen: nat := 1;
      var stop: nat := if position < shortMaxBackward then 0 else position - shortMaxBackward;
      var scan: nat := position;
      ghost var cut := position - maxBackward;
      ScanStarts(input, position, maxLength, cut);
      while scan > stop && bestLen <= 2
        invariant Valid(input) && next <= position
        invariant stop <= scan <= position && 1 <= bestLen
        invariant Scanned(input, position, maxLength, scan, bestLen)
        invariant Short(input, position, maxLength, cut, scan, bestLen, matches)
        invariant bestLen == LastLength(matches, 0, 1)
      {
        var backward := position - (scan - 1);
        if backward > maxBackward {
          break;
        }
        scan := scan - 1;
        ShortMore(input, position, maxLength, cut, scan + 1, bestLen, matches);
        if input[position] != input[scan] || input[position + 1] != input[scan + 1] {
          TwoBytesDiffer(input, scan, position, maxLength);
          ScannedMore(input, position, maxLength, scan + 1, bestLen, bestLen);
          continue;
        }
        var len := MatchLength(input, scan, position, maxLength);
        ScannedMore(input, position, maxLength, scan + 1, bestLen, Max(bestLen, len));
        if len > bestLen {
          bestLen := len;
          matches := matches + [TreeMatch(backward, len, 0)];
        }
      }
      ShortIsProgressive(input, position, maxLength, cut, scan, bestLen, matches);
      if bestLen < maxLength && position + 4 <= |input| {
        ghost var before, short, best := Now(), matches, bestLen;
        bestLen, matches := StoreAndFind(input, position, maxLength, maxBackward, bestLen, matches);
        JoinTree(Visit(input, position, maxBackward), maxLength, scan, best, short, matches, before, Now());
        if |matches| == |short| {
          assert matches == matches[..|short|];
        }
      }
      copies := |matches|;
      ghost var lz := matches;
      assert lz[..copies] == lz && bestLen == LastLength(lz, 0, 1);
      if bestLen < maxLength {
        var minLength := Max(bestLen + 1, 4);
        var found;
        found, table := StaticWords.FindAll(words, lut, input, position, minLength, maxLength, maxBackward,
                                            maxDistance);
        AtLeastAreTrue(words, input, position, minLength, maxLength, maxBackward, maxDistance, found, 0);
        var kept := AtLeast(found, minLength);
        matches := matches + kept;
        assert matches[..copies] == lz && matches[copies..] == kept;
      } else {
        assert matches[copies..] == [];
        table := [];
        NoWords(words, input, position, Max(bestLen + 1, 4), maxLength, maxBackward, maxDistance);
      }
    }
  }
}
