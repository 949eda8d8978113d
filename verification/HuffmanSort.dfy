/** The node order of the Huffman builder and its in-place shell sort. */
module HuffmanSort {

  const LEAF_SENTINEL: nat := 0xffff

  datatype HuffmanNode = HuffmanNode(totalCount: nat, left: nat, rightOrSymbol: nat) {
    predicate IsLeaf() {
      left == LEAF_SENTINEL
    }
  }

  /** Lighter first; among equals the larger symbol first. */
  predicate Before(x: HuffmanNode, y: HuffmanNode)
  {
    x.totalCount < y.totalCount || (x.totalCount == y.totalCount && x.rightOrSymbol > y.rightOrSymbol)
  }

  ghost predicate Sorted(s: seq<HuffmanNode>)
  {
    forall i, j :: 0 <= i < j < |s| ==> !Before(s[j], s[i])
  }

  /** The first `n` nodes are in order around the hole at `slot`, and `value` belongs before all behind it. */
  ghost predicate SortedAround(s: seq<HuffmanNode>, n: nat, slot: nat, value: HuffmanNode)
    requires slot < n <= |s|
  {
    && (forall i, j :: 0 <= i < j < n && i != slot && j != slot ==> !Before(s[j], s[i]))
    && (forall j :: slot < j < n ==> Before(value, s[j]))
  }

  lemma StartAround(s: seq<HuffmanNode>, n: nat)
    requires n < |s| && Sorted(s[..n])
    ensures SortedAround(s, n + 1, n, s[n])
  {
    forall i, j | 0 <= i < j < n
      ensures !Before(s[j], s[i])
    {
      assert s[..n][i] == s[i] && s[..n][j] == s[j];
    }
  }

  lemma ShiftAround(s: seq<HuffmanNode>, n: nat, slot: nat, value: HuffmanNode)
    requires 0 < slot < n <= |s| && SortedAround(s, n, slot, value) && Before(value, s[slot - 1])
    ensures SortedAround(s[slot := s[slot - 1]], n, slot - 1, value)
  {
  }

  lemma PlaceAround(s: seq<HuffmanNode>, n: nat, slot: nat, value: HuffmanNode)
    requires slot < n <= |s| && SortedAround(s, n, slot, value) && (slot > 0 ==> !Before(value, s[slot - 1]))
    ensures Sorted(s[slot := value][..n])
  {
    var t := s[slot := value][..n];
    forall i, j | 0 <= i < j < |t|
      ensures !Before(t[j], t[i])
    {
      if j == slot && i < slot - 1 {
        assert !Before(s[slot - 1], s[i]);
      }
    }
  }

  /** Moving the hole keeps the bag of nodes once the value is put back. */
  lemma ShiftKeepsBag(s: seq<HuffmanNode>, slot: nat, from: nat, value: HuffmanNode)
    requires slot < |s| && from < |s| && slot != from
    ensures multiset(s[slot := s[from]][from := value]) == multiset(s[slot := value])
  {
    var t := s[slot := value];
    assert s[slot := s[from]][from := value] == t[slot := t[from]][from := t[slot]];
  }

  /** One pass of insertions at distance `gap`; at distance one it sorts. */
  method InsertionPass(nodes: array<HuffmanNode>, gap: nat)
    requires gap > 0
    modifies nodes
    ensures multiset(nodes[..]) == old(multiset(nodes[..]))
    ensures gap == 1 ==> Sorted(nodes[..])
  {
    ghost var bag := multiset(nodes[..]);
    var index := gap;
    if nodes.Length == 0 {
      return;
    }
    assert gap == 1 ==> Sorted(nodes[..1]);
    while index < nodes.Length
      invariant gap <= index
      invariant multiset(nodes[..]) == bag
      invariant gap == 1 ==> index <= nodes.Length && Sorted(nodes[..index])
    {
      Insert(nodes, gap, index);
      index := index + 1;
    }
    assert nodes[..nodes.Length] == nodes[..];
  }

  /** Mid-insertion: the bag is intact once `value` fills the hole, and steps of one keep the order. */
  ghost predicate Inserting(s: seq<HuffmanNode>, bag: multiset<HuffmanNode>, gap: nat, n: nat, slot: nat,
                            value: HuffmanNode)
  {
    slot < n <= |s| && multiset(s[slot := value]) == bag && (gap == 1 ==> SortedAround(s, n, slot, value))
  }

  lemma StartInsert(s: seq<HuffmanNode>, gap: nat, index: nat)
    requires index < |s| && (gap == 1 ==> Sorted(s[..index]))
    ensures Inserting(s, multiset(s), gap, index + 1, index, s[index])
  {
    assert s[index := s[index]] == s;
    if gap == 1 {
      StartAround(s, index);
    }
  }

  lemma StepInsert(s: seq<HuffmanNode>, bag: multiset<HuffmanNode>, gap: nat, n: nat, slot: nat, value: HuffmanNode)
    requires 0 < gap <= slot && Inserting(s, bag, gap, n, slot, value) && Before(value, s[slot - gap])
    ensures Inserting(s[slot := s[slot - gap]], bag, gap, n, slot - gap, value)
  {
    hide SortedAround, Before;
    ShiftKeepsBag(s, slot, slot - gap, value);
    if gap == 1 {
      ShiftAround(s, n, slot, value);
    }
  }

  lemma EndInsert(s: seq<HuffmanNode>, bag: multiset<HuffmanNode>, gap: nat, n: nat, slot: nat, value: HuffmanNode)
    requires Inserting(s, bag, gap, n, slot, value) && (gap <= slot ==> !Before(value, s[slot - gap]))
    ensures multiset(s[slot := value]) == bag && (gap == 1 ==> Sorted(s[slot := value][..n]))
  {
    hide SortedAround, Before, Sorted;
    if gap == 1 {
      PlaceAround(s, n, slot, value);
    }
  }

  /** Moves the node at `index` down in steps of `gap` to its place. */
  method Insert(nodes: array<HuffmanNode>, gap: nat, index: nat)
    requires 0 < gap <= index < nodes.Length
    requires gap == 1 ==> Sorted(nodes[..index])
    modifies nodes
    ensures multiset(nodes[..]) == old(multiset(nodes[..]))
    ensures gap == 1 ==> Sorted(nodes[..index + 1])
  {
    hide Sorted, Before, Inserting;
    ghost var s := nodes[..];
    var value := nodes[index];
    var slot: nat := index;
    assert s[..index] == nodes[..index];
    StartInsert(s, gap, index);
    ghost var bag := multiset(s);
    while slot >= gap && Before(value, nodes[slot - gap])
      invariant slot <= index && nodes[..] == s
      invariant Inserting(s, bag, gap, index + 1, slot, value)
    {
      StepInsert(s, bag, gap, index + 1, slot, value);
      s := s[slot := s[slot - gap]];
      nodes[slot] := nodes[slot - gap];
      slot := slot - gap;
    }
    EndInsert(s, bag, gap, index + 1, slot, value);
    s := s[slot := value];
    nodes[slot] := value;
    assert nodes[..] == s;
    assert nodes[..index + 1] == s[..index + 1];
  }

  const HUFFMAN_SHELL_GAPS: seq<nat> := [132, 57, 23, 10, 4, 1]

  /** Insertion sort for short inputs; otherwise shell passes over the gaps, shorter ones first
      skipping the two widest. The last gap is one, whatever the start. */
  method SortHuffmanNodes(nodes: array<HuffmanNode>)
    modifies nodes
    ensures multiset(nodes[..]) == old(multiset(nodes[..])) && Sorted(nodes[..])
  {
    if nodes.Length < 13 {
      InsertionPass(nodes, 1);
      return;
    }
    var firstGap := if nodes.Length < 57 then 2 else 0;
    for k := firstGap to |HUFFMAN_SHELL_GAPS|
      invariant multiset(nodes[..]) == old(multiset(nodes[..]))
      invariant k == |HUFFMAN_SHELL_GAPS| ==> Sorted(nodes[..])
    {
      InsertionPass(nodes, HUFFMAN_SHELL_GAPS[k]);
    }
  }
}
