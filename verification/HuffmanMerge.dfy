/** The two-queue merge on values: sorted leaves in one queue, parents in the order they were
    made in the other. Taking the lighter front always takes the lightest tree. */
module HuffmanMerge {
  import opened HuffmanTree
  import opened HuffmanOptimality

  datatype Queues = Queues(leaves: seq<Tree>, parents: seq<Tree>)

  /** All pending trees. */
  function All(q: Queues): seq<Tree>
  {
    q.leaves + q.parents
  }

  /** The front to take next: a leaf unless the first parent is lighter. */
  predicate TakesLeaf(q: Queues)
  {
    q.leaves != [] && (q.parents == [] || Weight(q.leaves[0]) <= Weight(q.parents[0]))
  }

  function First(q: Queues): Tree
  {
    if TakesLeaf(q) then q.leaves[0] else if q.parents != [] then q.parents[0] else Leaf(0, 0)
  }

  function Rest(q: Queues): Queues
  {
    if TakesLeaf(q) then q.(leaves := q.leaves[1..]) else if q.parents != [] then q.(parents := q.parents[1..]) else q
  }

  /** One merge of two or more pending trees: the two lightest become the last parent. */
  function Step(q: Queues): Queues
  {
    Rest(Rest(q)).(parents := Rest(Rest(q)).parents + [Node(First(q), First(Rest(q)))])
  }

  predicate Ascending(ts: seq<Tree>)
  {
    forall i, j :: 0 <= i < j < |ts| ==> Weight(ts[i]) <= Weight(ts[j])
  }

  /** A pending tree: merged from lighter trees, itself no lighter than anything taken so far. */
  predicate Pending(t: Tree, last: nat, least: nat)
  {
    Merged(t) && LeavesFrom(t, least) && ChildrenUpTo(t, last) && last <= Weight(t)
  }

  predicate Ready(q: Queues, last: nat, least: nat)
  {
    && Ascending(q.leaves) && Ascending(q.parents)
    && (forall t :: t in q.leaves ==> Pending(t, last, least))
    && (forall t :: t in q.parents ==> t.Node? && Pending(t, last, least))
  }

  lemma FirstIsLightest(q: Queues, last: nat, least: nat)
    requires All(q) != [] && Ready(q, last, least)
    ensures forall t :: t in All(q) ==> Weight(First(q)) <= Weight(t)
    ensures Pending(First(q), last, least)
  {
  }

  lemma TakeKeepsReady(q: Queues, last: nat, least: nat)
    requires All(q) != [] && Ready(q, last, least)
    ensures Ready(Rest(q), Weight(First(q)), least)
  {
    hide Merged, LeavesFrom, Weight;
    FirstIsLightest(q, last, least);
    var r := Rest(q);
    assert forall t :: t in r.leaves ==> t in q.leaves;
    assert forall t :: t in r.parents ==> t in q.parents;
    forall t | t in r.leaves || t in r.parents
      ensures Pending(t, Weight(First(q)), least)
    {
      assert t in All(q);
      LastRises(t, last, Weight(First(q)), least);
    }
  }

  lemma LastRises(t: Tree, last: nat, later: nat, least: nat)
    requires Pending(t, last, least) && last <= later <= Weight(t)
    ensures Pending(t, later, least)
  {
  }

  /** A parent made earlier is no lighter than one made from trees taken later. */
  lemma EarlierParentIsLighter(p: Tree, a: Tree, b: Tree, last: nat, least: nat)
    requires p.Node? && Pending(p, last, least) && last <= Weight(a) <= Weight(b)
    ensures Weight(p) <= Weight(Node(a, b))
  {
  }

  predicate NoHeavier(ts: seq<Tree>, n: Tree)
  {
    forall t :: t in ts ==> Weight(t) <= Weight(n)
  }

  lemma ParentsAreLighter(q: Queues, last: nat, least: nat, a: Tree, b: Tree)
    requires Ready(q, last, least) && last <= Weight(a) <= Weight(b)
    ensures NoHeavier(q.parents, Node(a, b))
  {
    forall p | p in q.parents
      ensures Weight(p) <= Weight(Node(a, b))
    {
      EarlierParentIsLighter(p, a, b, last, least);
    }
  }

  lemma PushKeepsReady(q: Queues, n: Tree, later: nat, least: nat)
    requires Ready(q, later, least) && n.Node? && Pending(n, later, least) && NoHeavier(q.parents, n)
    ensures Ready(q.(parents := q.parents + [n]), later, least)
  {
    hide Pending, Weight;
    assert forall i :: 0 <= i < |q.parents| ==> q.parents[i] in q.parents;
    AscendingAppend(q.parents, n);
  }

  lemma RestIsPart(q: Queues, n: Tree)
    requires All(q) != []
    ensures |All(Rest(q))| == |All(q)| - 1 && First(q) in All(q) && forall t :: t in All(Rest(q)) ==> t in All(q)
    ensures NoHeavier(q.parents, n) ==> NoHeavier(Rest(q).parents, n)
  {
    hide Weight;
    assert forall t :: t in Rest(q).leaves ==> t in q.leaves;
    assert forall t :: t in Rest(q).parents ==> t in q.parents;
  }

  /** The new parent goes last: it is no lighter than any other parent. */
  lemma StepKeepsReady(q: Queues, last: nat, least: nat) returns (later: nat)
    requires |All(q)| >= 2 && Ready(q, last, least)
    ensures Ready(Step(q), later, least) && |All(Step(q))| == |All(q)| - 1
  {
    hide Pending, Weight, Ready, NoHeavier, First, Rest;
    var a, r := First(q), Rest(q);
    FirstIsLightest(q, last, least);
    TakeKeepsReady(q, last, least);
    RestIsPart(q, a);
    var b := First(r);
    var n := Node(a, b);
    RestIsPart(q, n);
    RestIsPart(r, n);
    FirstIsLightest(r, Weight(a), least);
    TakeKeepsReady(r, Weight(a), least);
    later := Weight(b);
    MergedNode(a, b, last, least);
    PendingRises(a, last, least);
    ParentsAreLighter(q, last, least, a, b);
    PushKeepsReady(Rest(r), n, later, least);
  }

  lemma PendingRises(t: Tree, last: nat, least: nat)
    requires Pending(t, last, least)
    ensures last <= Weight(t)
  {
  }

  lemma AscendingAppend(ts: seq<Tree>, t: Tree)
    requires Ascending(ts) && forall i :: 0 <= i < |ts| ==> Weight(ts[i]) <= Weight(t)
    ensures Ascending(ts + [t])
  {
  }

  lemma MergedNode(a: Tree, b: Tree, last: nat, least: nat)
    requires Pending(a, last, least) && Pending(b, Weight(a), least)
    ensures Pending(Node(a, b), Weight(b), least)
  {
  }

  /** The leaves of all pending trees. */
  function PoolBag(ts: seq<Tree>): multiset<(nat, nat)>
  {
    if ts == [] then multiset{} else Bag(ts[0]) + PoolBag(ts[1..])
  }

  function PoolMergeCost(ts: seq<Tree>): nat
  {
    if ts == [] then 0 else MergeCost(ts[0]) + PoolMergeCost(ts[1..])
  }

  function PoolWeights(ts: seq<Tree>): multiset<nat>
  {
    if ts == [] then multiset{} else multiset{Weight(ts[0])} + PoolWeights(ts[1..])
  }

  lemma {:induction false} PoolAppend(xs: seq<Tree>, ys: seq<Tree>)
    ensures PoolBag(xs + ys) == PoolBag(xs) + PoolBag(ys)
    ensures PoolMergeCost(xs + ys) == PoolMergeCost(xs) + PoolMergeCost(ys)
    ensures PoolWeights(xs + ys) == PoolWeights(xs) + PoolWeights(ys)
  {
    if xs == [] {
      assert xs + ys == ys;
    } else {
      assert (xs + ys)[1..] == xs[1..] + ys;
      PoolAppend(xs[1..], ys);
    }
  }

  lemma PoolSingle(t: Tree)
    ensures PoolBag([t]) == Bag(t) && PoolMergeCost([t]) == MergeCost(t) && PoolWeights([t]) == multiset{Weight(t)}
  {
    assert PoolBag([]) == multiset{} && PoolWeights([]) == multiset{};
  }

  lemma PoolCons(t: Tree, ts: seq<Tree>)
    ensures PoolBag([t] + ts) == Bag(t) + PoolBag(ts)
    ensures PoolMergeCost([t] + ts) == MergeCost(t) + PoolMergeCost(ts)
    ensures PoolWeights([t] + ts) == multiset{Weight(t)} + PoolWeights(ts)
  {
    assert ([t] + ts)[1..] == ts;
  }

  lemma PoolMiddle(xs: seq<Tree>, t: Tree, ys: seq<Tree>)
    ensures PoolBag(xs + ([t] + ys)) == Bag(t) + PoolBag(xs + ys)
    ensures PoolMergeCost(xs + ([t] + ys)) == MergeCost(t) + PoolMergeCost(xs + ys)
    ensures PoolWeights(xs + ([t] + ys)) == multiset{Weight(t)} + PoolWeights(xs + ys)
  {
    hide PoolBag, PoolMergeCost, PoolWeights, Bag, MergeCost, Weight;
    PoolAppend(xs, [t] + ys);
    PoolAppend(xs, ys);
    PoolCons(t, ys);
    assert PoolBag(xs) + (Bag(t) + PoolBag(ys)) == Bag(t) + (PoolBag(xs) + PoolBag(ys));
    assert PoolWeights(xs) + (multiset{Weight(t)} + PoolWeights(ys)) == multiset{Weight(t)} +
           (PoolWeights(xs) + PoolWeights(ys));
  }

  predicate Gains(less: multiset<nat>, w: nat, more: multiset<nat>)
  {
    more == multiset{w} + less
  }

  /** Taking the front tree splits it off everything the pool adds up. */
  lemma PoolTake(q: Queues)
    requires All(q) != []
    ensures PoolBag(All(q)) == Bag(First(q)) + PoolBag(All(Rest(q)))
    ensures PoolMergeCost(All(q)) == MergeCost(First(q)) + PoolMergeCost(All(Rest(q)))
    ensures Gains(PoolWeights(All(Rest(q))), Weight(First(q)), PoolWeights(All(q)))
  {
    hide PoolBag, PoolMergeCost, PoolWeights, Bag, MergeCost, Weight;
    if TakesLeaf(q) {
      assert All(q) == [] + ([q.leaves[0]] + All(Rest(q)));
      assert [] + All(Rest(q)) == All(Rest(q));
      PoolMiddle([], q.leaves[0], All(Rest(q)));
    } else {
      assert All(q) == q.leaves + ([q.parents[0]] + q.parents[1..]);
      PoolMiddle(q.leaves, q.parents[0], q.parents[1..]);
    }
  }

  lemma {:induction false} PoolWeightsMember(ts: seq<Tree>, w: nat)
    ensures w in PoolWeights(ts) ==> exists t :: t in ts && Weight(t) == w
  {
    if ts != [] {
      PoolWeightsMember(ts[1..], w);
      if w in PoolWeights(ts) && w != Weight(ts[0]) {
        var t :| t in ts[1..] && Weight(t) == w;
        assert t in ts;
      } else {
        assert ts[0] in ts;
      }
    }
  }

  lemma {:induction false} PoolHasWeight(ts: seq<Tree>, t: Tree)
    requires t in ts
    ensures Weight(t) in PoolWeights(ts)
  {
    if t != ts[0] {
      PoolHasWeight(ts[1..], t);
    }
  }

  lemma FirstIsLeast(q: Queues, last: nat, least: nat)
    requires All(q) != [] && Ready(q, last, least)
    ensures IsLeast(PoolWeights(All(q)), Weight(First(q)))
  {
    FirstIsLightest(q, last, least);
    var w := Weight(First(q));
    assert First(q) in All(q);
    PoolHasWeight(All(q), First(q));
    forall v | v in PoolWeights(All(q))
      ensures w <= v
    {
      PoolWeightsMember(All(q), v);
    }
  }

  lemma PushedNode(ts: seq<Tree>, a: Tree, b: Tree)
    ensures PoolBag(ts + [Node(a, b)]) == Bag(a) + Bag(b) + PoolBag(ts)
    ensures PoolMergeCost(ts + [Node(a, b)]) == Weight(a) + Weight(b) + MergeCost(a) + MergeCost(b) + PoolMergeCost(ts)
  {
    hide PoolWeights;
    PoolAppend(ts, [Node(a, b)]);
    PoolSingle(Node(a, b));
  }

  lemma GainsLast(less: multiset<nat>, w: nat, more: multiset<nat>)
    requires more == less + multiset{w}
    ensures Gains(less, w, more)
  {
  }

  lemma PushedWeight(ts: seq<Tree>, a: Tree, b: Tree)
    ensures Gains(PoolWeights(ts), Weight(a) + Weight(b), PoolWeights(ts + [Node(a, b)]))
  {
    hide PoolWeights, PoolBag, PoolMergeCost, Bag, Gains;
    var n := Node(a, b);
    PoolAppend(ts, [n]);
    PoolSingle(n);
    GainsLast(PoolWeights(ts), Weight(n), PoolWeights(ts + [n]));
  }

  lemma StepAll(q: Queues)
    requires |All(q)| >= 2
    ensures |All(Rest(q))| == |All(q)| - 1
    ensures All(Step(q)) == All(Rest(Rest(q))) + [Node(First(q), First(Rest(q)))]
  {
  }

  /** One merge keeps the leaves. */
  lemma StepKeepsLeaves(q: Queues)
    requires |All(q)| >= 2
    ensures PoolBag(All(Step(q))) == PoolBag(All(q))
  {
    StepAll(q);
    hide PoolBag, PoolMergeCost, PoolWeights, First, Rest, Step, Bag, MergeCost, Gains, Weight;
    PoolTake(q);
    PoolTake(Rest(q));
    PushedNode(All(Rest(Rest(q))), First(q), First(Rest(q)));
  }

  lemma StepCosts(q: Queues)
    requires |All(q)| >= 2
    ensures |All(Rest(q))| == |All(q)| - 1
    ensures PoolMergeCost(All(Step(q))) == Weight(First(q)) + Weight(First(Rest(q))) + PoolMergeCost(All(q))
  {
    StepAll(q);
    hide PoolBag, PoolMergeCost, PoolWeights, First, Rest, Step, Bag, MergeCost, Gains, Weight;
    PoolTake(q);
    PoolTake(Rest(q));
    PushedNode(All(Rest(Rest(q))), First(q), First(Rest(q)));
  }

  lemma StepWeights(q: Queues)
    requires |All(q)| >= 2
    ensures |All(Rest(q))| == |All(q)| - 1
    ensures Gains(PoolWeights(All(Rest(q))), Weight(First(q)), PoolWeights(All(q)))
    ensures Gains(PoolWeights(All(Rest(Rest(q)))), Weight(First(Rest(q))), PoolWeights(All(Rest(q))))
    ensures Gains(PoolWeights(All(Rest(Rest(q)))), Weight(First(q)) + Weight(First(Rest(q))), PoolWeights(All(Step(q))))
  {
    hide *;
    StepAll(q);
    PoolTake(q);
    PoolTake(Rest(q));
    PushedWeight(All(Rest(Rest(q))), First(q), First(Rest(q)));
  }

  lemma GreedyStepOf(q: Queues, last: nat, least: nat)
    requires |All(q)| >= 2 && Ready(q, last, least)
    ensures |All(Rest(q))| == |All(q)| - 1
    ensures GreedyCost(PoolWeights(All(q))) == Weight(First(q)) + Weight(First(Rest(q))) +
            GreedyCost(PoolWeights(All(Step(q))))
  {
    hide *;
    StepWeights(q);
    var r := Rest(q);
    var a, b := Weight(First(q)), Weight(First(r));
    FirstIsLeast(q, last, least);
    TakeKeepsReady(q, last, least);
    FirstIsLeast(r, a, least);
    PoolSize(All(q));
    GreedyTwo(PoolWeights(All(q)), PoolWeights(All(r)), PoolWeights(All(Rest(r))), PoolWeights(All(Step(q))), a, b);
  }

  lemma {:induction false} PoolSize(ts: seq<Tree>)
    ensures |PoolWeights(ts)| == |ts|
  {
    if ts != [] {
      PoolSize(ts[1..]);
    }
  }

  /** One merge pays exactly what the greedy merge pays. */
  lemma StepPaysGreedily(q: Queues, last: nat, least: nat)
    requires |All(q)| >= 2 && Ready(q, last, least)
    ensures GreedyCost(PoolWeights(All(Step(q)))) + PoolMergeCost(All(Step(q))) == GreedyCost(PoolWeights(All(q))) +
            PoolMergeCost(All(q))
  {
    hide *;
    StepCosts(q);
    GreedyStepOf(q, last, least);
  }

  lemma GreedyTwo(ws: multiset<nat>, less: multiset<nat>, rest: multiset<nat>, merged: multiset<nat>, a: nat, b: nat)
    requires Gains(less, a, ws) && Gains(rest, b, less) && Gains(rest, a + b, merged) && |ws| >= 2
    requires IsLeast(ws, a) && IsLeast(less, b)
    ensures GreedyCost(ws) == a + b + GreedyCost(merged)
  {
    hide GreedyCost, IsLeast, Merge;
    MergedBag(ws, a, b, rest);
    GreedyStep(ws, a, b);
  }

  lemma MergedBag(ws: multiset<nat>, a: nat, b: nat, rest: multiset<nat>)
    requires ws == multiset{a} + (multiset{b} + rest)
    ensures ws - multiset{a} == multiset{b} + rest && Merge(ws, a, b) == multiset{a + b} + rest
  {
  }
}
