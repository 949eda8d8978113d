/** No prefix code beats the greedy merge: a lower bound on the cost of any code whose lengths
    fit the code space, by exchange of lengths and induction on the number of symbols. */
module HuffmanOptimality {
  import opened Arithmetic

  /** A symbol's weight and the length some code gives it. */
  datatype Item = Item(weight: nat, length: nat)

  function Sum(items: seq<Item>, f: Item -> nat): nat
  {
    if items == [] then 0 else f(items[0]) + Sum(items[1..], f)
  }

  function BitsOf(): Item -> nat
  {
    (x: Item) => x.weight * x.length
  }

  /** Code space taken by a length, in units of a codeword of `limit` bits. */
  function RoomOf(limit: nat): Item -> nat
  {
    (x: Item) => if x.length <= limit then Pow2(limit - x.length) else 0
  }

  function Remove(items: seq<Item>, k: nat): seq<Item>
    requires k < |items|
  {
    items[..k] + items[k + 1..]
  }

  function Weights(items: seq<Item>): (ws: seq<nat>)
    ensures |ws| == |items|
  {
    seq(|items|, i requires 0 <= i < |items| => items[i].weight)
  }

  lemma {:induction false} SumAppend(xs: seq<Item>, ys: seq<Item>, f: Item -> nat)
    ensures Sum(xs + ys, f) == Sum(xs, f) + Sum(ys, f)
  {
    if xs == [] {
      assert xs + ys == ys;
    } else {
      assert (xs + ys)[1..] == xs[1..] + ys;
      SumAppend(xs[1..], ys, f);
    }
  }

  lemma SumRemove(items: seq<Item>, k: nat, f: Item -> nat)
    requires k < |items|
    ensures Sum(items, f) == f(items[k]) + Sum(Remove(items, k), f)
  {
    assert items == items[..k] + ([items[k]] + items[k + 1..]);
    assert items[k..][1..] == items[k + 1..] && [items[k]] + items[k + 1..] == items[k..];
    SumFirst(items[k..], f);
    hide Sum;
    SumAppend(items[..k], items[k..], f);
    SumAppend(items[..k], items[k + 1..], f);
  }

  lemma SumFirst(items: seq<Item>, f: Item -> nat)
    requires items != []
    ensures Sum(items, f) == f(items[0]) + Sum(items[1..], f)
  {
  }

  lemma SumUpdate(items: seq<Item>, k: nat, x: Item, f: Item -> nat)
    requires k < |items|
    ensures Sum(items[k := x], f) + f(items[k]) == Sum(items, f) + f(x)
  {
    SumRemove(items, k, f);
    SumRemove(items[k := x], k, f);
    assert Remove(items[k := x], k) == Remove(items, k);
  }

  lemma WeightsRemove(items: seq<Item>, k: nat)
    requires k < |items|
    ensures multiset(Weights(Remove(items, k))) == multiset(Weights(items)) - multiset{items[k].weight}
  {
    var ws := Weights(items);
    assert Weights(Remove(items, k)) == ws[..k] + ws[k + 1..];
    assert ws == ws[..k] + [ws[k]] + ws[k + 1..];
  }

  /** The least element of a non-empty bag. */
  ghost predicate IsLeast(ws: multiset<nat>, a: nat)
  {
    a in ws && forall b :: b in ws ==> a <= b
  }

  lemma {:induction false} LeastExists(ws: multiset<nat>)
    requires |ws| > 0
    ensures exists a :: IsLeast(ws, a)
    decreases |ws|
  {
    var x :| x in ws;
    var rest := ws - multiset{x};
    if |rest| > 0 {
      LeastExists(rest);
      var y :| IsLeast(rest, y);
      var a := if x <= y then x else y;
      forall b | b in ws
        ensures a <= b
      {
        assert b == x || b in rest;
      }
      assert IsLeast(ws, a);
    } else {
      assert ws == multiset{x};
      assert IsLeast(ws, x);
    }
  }

  ghost function Least(ws: multiset<nat>): (a: nat)
    requires |ws| > 0
    ensures IsLeast(ws, a)
  {
    LeastExists(ws);
    var a :| IsLeast(ws, a);
    a
  }

  /** Replacing two elements by their sum. */
  function Merge(ws: multiset<nat>, a: nat, b: nat): multiset<nat>
  {
    ws - multiset{a} - multiset{b} + multiset{a + b}
  }

  /** What the greedy merge costs: repeatedly replace the two lightest by their sum. */
  ghost function GreedyCost(ws: multiset<nat>): nat
    decreases |ws|
  {
    if |ws| <= 1 then
      0
    else
      var a := Least(ws);
      var b := Least(ws - multiset{a});
      a + b + GreedyCost(Merge(ws, a, b))
  }

  lemma GreedyStep(ws: multiset<nat>, a: nat, b: nat)
    requires |ws| >= 2 && IsLeast(ws, a) && IsLeast(ws - multiset{a}, b)
    ensures GreedyCost(ws) == a + b + GreedyCost(Merge(ws, a, b))
  {
  }

  predicate LengthsUpTo(items: seq<Item>, limit: nat)
  {
    forall i :: 0 <= i < |items| ==> items[i].length <= limit
  }

  /** Lengths that leave the deepest level empty need only half the units. */
  lemma {:induction false} RoomHalves(items: seq<Item>, limit: nat)
    requires limit > 0 && LengthsUpTo(items, limit - 1)
    ensures Sum(items, RoomOf(limit)) == 2 * Sum(items, RoomOf(limit - 1))
  {
    if items != [] {
      assert Pow2(limit - items[0].length) == 2 * Pow2(limit - 1 - items[0].length);
      RoomHalves(items[1..], limit);
    }
  }

  /** Giving the longer of two lengths to the lighter of two symbols. */
  function Swap(items: seq<Item>, p: nat, i: nat): (r: seq<Item>)
    requires p < |items| && i < |items|
    ensures |r| == |items| && Weights(r) == Weights(items)
    ensures forall k :: 0 <= k < |items| && k != p && k != i ==> r[k] == items[k]
    ensures r[p] == Item(items[p].weight, items[i].length) && r[i] == Item(items[i].weight, items[p].length)
  {
    items[p := Item(items[p].weight, items[i].length)][i := Item(items[i].weight, items[p].length)]
  }

  lemma SwapSum(items: seq<Item>, p: nat, i: nat, f: Item -> nat)
    requires p < |items| && i < |items| && p != i
    ensures var r := Swap(items, p, i);
            Sum(r, f) + f(items[p]) + f(items[i]) == Sum(items, f) + f(r[p]) + f(r[i])
  {
    var x, y := Item(items[p].weight, items[i].length), Item(items[i].weight, items[p].length);
    SumUpdate(items, p, x, f);
    SumUpdate(items[p := x], i, y, f);
  }

  lemma SwapImproves(items: seq<Item>, p: nat, i: nat)
    requires p < |items| && i < |items|
    requires items[p].weight <= items[i].weight && items[p].length <= items[i].length
    ensures Sum(Swap(items, p, i), BitsOf()) <= Sum(items, BitsOf())
  {
    if p != i {
      SwapSum(items, p, i, BitsOf());
      Rearrangement(items[p].weight, items[i].weight, items[p].length, items[i].length);
    } else {
      assert Swap(items, p, i) == items;
    }
  }

  lemma SwapKeepsRoom(items: seq<Item>, p: nat, i: nat, limit: nat)
    requires p < |items| && i < |items|
    ensures Sum(Swap(items, p, i), RoomOf(limit)) == Sum(items, RoomOf(limit))
    ensures LengthsUpTo(items, limit) ==> LengthsUpTo(Swap(items, p, i), limit)
  {
    if p != i {
      SwapSum(items, p, i, RoomOf(limit));
    } else {
      assert Swap(items, p, i) == items;
    }
  }

  lemma Rearrangement(a: nat, b: nat, k: nat, l: nat)
    requires a <= b && k <= l
    ensures a * l + b * k <= a * k + b * l
  {
    MulMonotone(l - k, a, b);
    assert (l - k) * a == a * l - a * k && (l - k) * b == b * l - b * k;
  }

  /** Two symbols on the deepest level become one on the level above. */
  function Join(items: seq<Item>, p: nat, q: nat): seq<Item>
    requires p < q < |items| && items[p].length == items[q].length > 0
  {
    Remove(Remove(items, q), p) + [Item(items[p].weight + items[q].weight, items[p].length - 1)]
  }

  lemma JoinShorter(items: seq<Item>, p: nat, q: nat)
    requires p < q < |items| && items[p].length == items[q].length > 0
    ensures |Join(items, p, q)| == |items| - 1
  {
  }

  lemma JoinSaves(items: seq<Item>, p: nat, q: nat)
    requires p < q < |items| && items[p].length == items[q].length > 0
    ensures Sum(items, BitsOf()) == items[p].weight + items[q].weight + Sum(Join(items, p, q), BitsOf())
  {
    JoinSum(items, p, q, BitsOf());
    Shorten(items[p].weight, items[q].weight, items[p].length);
  }

  lemma Shorten(a: nat, b: nat, l: nat)
    requires l > 0
    ensures a * l + b * l == a + b + (a + b) * (l - 1)
  {
  }

  lemma JoinKeepsRoom(items: seq<Item>, p: nat, q: nat, limit: nat)
    requires p < q < |items| && items[p].length == items[q].length == limit > 0 && LengthsUpTo(items, limit)
    ensures LengthsUpTo(Join(items, p, q), limit)
    ensures Sum(items, RoomOf(limit)) == Sum(Join(items, p, q), RoomOf(limit))
  {
    JoinSum(items, p, q, RoomOf(limit));
    assert Pow2(0) == 1 && Pow2(1) == 2;
  }

  lemma WeightsAppend(items: seq<Item>, x: Item)
    ensures multiset(Weights(items + [x])) == multiset(Weights(items)) + multiset{x.weight}
  {
    assert Weights(items + [x]) == Weights(items) + [x.weight];
  }

  /** Removing the later one leaves the earlier one in its place. */
  lemma RemovedItems(items: seq<Item>, q: nat, p: nat)
    requires p < q < |items|
    ensures p < |Remove(items, q)| && Remove(items, q)[p] == items[p]
  {
  }

  /** The weights as a bag, with one taken out or put in. */
  ghost function ItemBag(items: seq<Item>): multiset<nat>
  {
    multiset(Weights(items))
  }

  ghost function Out(ws: multiset<nat>, a: nat): multiset<nat>
  {
    ws - multiset{a}
  }

  ghost function In(ws: multiset<nat>, a: nat): multiset<nat>
  {
    ws + multiset{a}
  }

  lemma BagRemove(items: seq<Item>, k: nat)
    requires k < |items|
    ensures ItemBag(Remove(items, k)) == Out(ItemBag(items), items[k].weight)
  {
    WeightsRemove(items, k);
  }

  lemma BagAppend(items: seq<Item>, x: Item)
    ensures ItemBag(items + [x]) == In(ItemBag(items), x.weight)
  {
    WeightsAppend(items, x);
  }

  lemma JoinMergesWeights(items: seq<Item>, p: nat, q: nat)
    requires p < q < |items| && items[p].length == items[q].length > 0
    ensures multiset(Weights(Join(items, p, q))) == Merge(multiset(Weights(items)), items[p].weight, items[q].weight)
  {
    hide Weights, Remove, Merge, Out, In;
    RemovedItems(items, q, p);
    BagRemove(items, q);
    BagRemove(Remove(items, q), p);
    BagAppend(Remove(Remove(items, q), p), Item(items[p].weight + items[q].weight, items[p].length - 1));
    MergedBags(ItemBag(items), items[p].weight, items[q].weight);
  }

  lemma MergedBags(ws: multiset<nat>, a: nat, b: nat)
    ensures Merge(ws, a, b) == In(Out(Out(ws, b), a), a + b)
  {
  }

  lemma JoinSum(items: seq<Item>, p: nat, q: nat, f: Item -> nat)
    requires p < q < |items| && items[p].length == items[q].length > 0
    ensures Sum(items, f) + f(Item(items[p].weight + items[q].weight, items[p].length - 1)) ==
            Sum(Join(items, p, q), f) + f(items[p]) + f(items[q])
  {
    SumRemove(items, q, f);
    SumRemove(Remove(items, q), p, f);
    SumAppend(Remove(Remove(items, q), p), [Item(items[p].weight + items[q].weight, items[p].length - 1)], f);
  }

  /** Two symbols share the deepest level, the two lightest among them: joining them is a
      smaller code for the merged bag. */
  lemma {:induction false} BoundByJoin(items: seq<Item>, p: nat, q: nat, limit: nat)
    requires |items| >= 2 && limit > 0 && LengthsUpTo(items, limit) && Sum(items, RoomOf(limit)) <= Pow2(limit)
    requires p < |items| && q < |items| && p != q && items[p].length == items[q].length == limit
    requires IsLeast(multiset(Weights(items)), items[p].weight)
    requires IsLeast(multiset(Weights(items)) - multiset{items[p].weight}, items[q].weight)
    ensures Sum(items, BitsOf()) >= GreedyCost(multiset(Weights(items)))
    decreases |items|, limit, 0
  {
    hide *;
    JoinShorter(items, if p < q then p else q, if p < q then q else p);
    var lo, hi := if p < q then p else q, if p < q then q else p;
    var ws := multiset(Weights(items));
    var a: nat, b: nat := items[p].weight, items[q].weight;
    JoinSaves(items, lo, hi);
    JoinKeepsRoom(items, lo, hi, limit);
    JoinMergesWeights(items, lo, hi);
    MergeCommutes(ws, a, b);
    GreedyStep(ws, a, b);
    LowerBound(Join(items, lo, hi), limit);
  }

  lemma MergeCommutes(ws: multiset<nat>, a: nat, b: nat)
    ensures Merge(ws, a, b) == Merge(ws, b, a)
  {
    assert ws - multiset{a} - multiset{b} == ws - multiset{b} - multiset{a};
  }

  lemma LightestIndex(items: seq<Item>) returns (p: nat)
    requires items != []
    ensures p < |items| && IsLeast(multiset(Weights(items)), items[p].weight)
  {
    var ws := Weights(items);
    assert ws[0] in multiset(ws);
    LeastExists(multiset(ws));
    var a: nat :| IsLeast(multiset(ws), a);
    assert a in ws;
    p :| 0 <= p < |ws| && ws[p] == a;
  }

  lemma SecondLightestIndex(items: seq<Item>, p: nat) returns (q: nat)
    requires |items| >= 2 && p < |items|
    ensures q < |items| && q != p && IsLeast(multiset(Weights(items)) - multiset{items[p].weight}, items[q].weight)
  {
    WeightsRemove(items, p);
    var k := LightestIndex(Remove(items, p));
    q := if k < p then k else k + 1;
  }

  /** Two symbols reach the deepest level: let the two lightest trade places with them. */
  lemma {:induction false} BoundByExchange(items: seq<Item>, i: nat, j: nat, limit: nat)
    requires limit > 0 && LengthsUpTo(items, limit) && Sum(items, RoomOf(limit)) <= Pow2(limit)
    requires i < |items| && j < |items| && i != j && items[i].length == items[j].length == limit
    ensures Sum(items, BitsOf()) >= GreedyCost(multiset(Weights(items)))
    decreases |items|, limit, 1
  {
    hide Sum, BitsOf, RoomOf, Weights, IsLeast;
    var p := LightestIndex(items);
    LeastWeight(items, p, i);
    var once := Swap(items, p, i);
    SwapImproves(items, p, i);
    SwapKeepsRoom(items, p, i, limit);
    var other := if p == j then i else j;
    var q := SecondLightestIndex(once, p);
    SecondWeight(once, p, q, other);
    var twice := Swap(once, q, other);
    SwapImproves(once, q, other);
    SwapKeepsRoom(once, q, other, limit);
    BoundByJoin(twice, p, q, limit);
  }

  lemma LeastWeight(items: seq<Item>, p: nat, i: nat)
    requires p < |items| && i < |items| && IsLeast(multiset(Weights(items)), items[p].weight)
    ensures items[p].weight <= items[i].weight
  {
    assert Weights(items)[i] in multiset(Weights(items));
  }

  lemma SecondWeight(items: seq<Item>, p: nat, q: nat, i: nat)
    requires p < |items| && q < |items| && i < |items| && i != p
    requires IsLeast(multiset(Weights(items)) - multiset{items[p].weight}, items[q].weight)
    ensures items[q].weight <= items[i].weight
  {
    WeightsRemove(items, p);
    var rest := Remove(items, p);
    var k := if i < p then i else i - 1;
    assert Weights(rest)[k] == items[i].weight;
    assert Weights(rest)[k] in multiset(Weights(rest));
  }

  /** A symbol alone on the deepest level can move up: the space it leaves there is wasted. */
  lemma {:induction false} BoundByShortening(items: seq<Item>, i: nat, limit: nat)
    requires limit > 0 && LengthsUpTo(items, limit) && Sum(items, RoomOf(limit)) <= Pow2(limit)
    requires i < |items| && items[i].length == limit && forall j :: 0 <= j < |items| && j != i ==>
             items[j].length != limit
    ensures Sum(items, BitsOf()) >= GreedyCost(multiset(Weights(items)))
    decreases |items|, limit, 1
  {
    hide Sum, BitsOf, RoomOf, Weights;
    ShortenedRoom(items, i, limit);
    ShortenedBits(items, i, limit);
    LowerBound(items[i := Item(items[i].weight, limit - 1)], limit - 1);
  }

  lemma ShortenedRoom(items: seq<Item>, i: nat, limit: nat)
    requires limit > 0 && LengthsUpTo(items, limit) && Sum(items, RoomOf(limit)) <= Pow2(limit)
    requires i < |items| && items[i].length == limit && forall j :: 0 <= j < |items| && j != i ==>
             items[j].length != limit
    ensures Sum(items[i := Item(items[i].weight, limit - 1)], RoomOf(limit - 1)) <= Pow2(limit - 1)
  {
    var shorter := items[i := Item(items[i].weight, limit - 1)];
    SumRemove(items, i, RoomOf(limit));
    RoomHalves(Remove(items, i), limit);
    SumRemove(shorter, i, RoomOf(limit - 1));
    assert Remove(shorter, i) == Remove(items, i);
    assert Pow2(limit) == 2 * Pow2(limit - 1) && Pow2(0) == 1;
  }

  lemma ShortenedBits(items: seq<Item>, i: nat, limit: nat)
    requires limit > 0 && i < |items| && items[i].length == limit
    ensures var shorter := items[i := Item(items[i].weight, limit - 1)];
            Sum(shorter, BitsOf()) <= Sum(items, BitsOf()) && Weights(shorter) == Weights(items)
  {
    var x := Item(items[i].weight, limit - 1);
    SumUpdate(items, i, x, BitsOf());
    MulMonotone(x.weight, limit - 1, limit);
  }

  lemma {:induction false} RoomAtZero(items: seq<Item>)
    requires LengthsUpTo(items, 0)
    ensures Sum(items, RoomOf(0)) == |items|
  {
    if items != [] {
      RoomAtZero(items[1..]);
    }
  }

  /** Any lengths that fit the code space cost at least the greedy merge. */
  lemma {:induction false} LowerBound(items: seq<Item>, limit: nat)
    requires LengthsUpTo(items, limit) && Sum(items, RoomOf(limit)) <= Pow2(limit)
    ensures Sum(items, BitsOf()) >= GreedyCost(multiset(Weights(items)))
    decreases |items|, limit, 2
  {
    hide Sum, BitsOf, RoomOf, Weights;
    if |items| <= 1 {
    } else if limit == 0 {
      RoomAtZero(items);
      assert false;
    } else if LengthsUpTo(items, limit - 1) {
      RoomHalves(items, limit);
      LowerBound(items, limit - 1);
    } else {
      var i :| 0 <= i < |items| && items[i].length == limit;
      if j :| 0 <= j < |items| && j != i && items[j].length == limit {
        BoundByExchange(items, i, j, limit);
      } else {
        BoundByShortening(items, i, limit);
      }
    }
  }
}
