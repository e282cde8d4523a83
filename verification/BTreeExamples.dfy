/** Concrete trees on which the operations go wrong. */
module BTreeExamples {
  import opened Common
  import opened SortedItems
  import opened BTreeNode
  import opened BTreeInsert
  import opened BTreeRemove
  import opened BTreeMap
  import opened BTreeEdges

  /** Keys base, base + 1, ..., base + n - 1, each stored with itself. */
  function Leaf(base: int, n: nat): Node<int> {
    Node(true, seq(n, i => base + i), seq(n, i => base + i), [])
  }

  function FullChildExample(): Node<int> {
    Node(false, [100], [100], [Leaf(0, 15), Leaf(101, 7)])
  }

  lemma {:induction false} FullChildIsTextbook()
    ensures Textbook(FullChildExample(), 1)
  {
    hide Leaf, Flat, Inv, Kid, Sorted;
    LeafItems(0, 15);
    LeafItems(101, 7);
    TwoKids(Leaf(0, 15), 100, 100, Leaf(101, 7), 0);
    ExampleSorted(Flat(Leaf(0, 15)), Flat(Leaf(101, 7)));
  }

  /** A node with one key. */
  lemma {:induction false} TwoKids<V>(l: Node<V>, k: int, v: V, r: Node<V>, h: nat)
    requires Kid(l, h, 7) && Kid(r, h, 7)
    ensures var n := Node(false, [k], [v], [l, r]);
      Inv(n, h + 1, 7) && Inner(n) && Flat(n) == Flat(l) + [(k, v)] + Flat(r)
  {
    hide Flat, Inv;
    var n := Node(false, [k], [v], [l, r]);
    assert Inv(n, h + 1, 7) by { OneKeyInv(l, k, v, r, h); }
    assert n.keys[..0] == [] && n.values[..0] == [] && n.children[..0] == [];
    assert n.keys[1..] == [] && n.values[1..] == [] && n.children[2..] == [];
    Pair(n, 0);
    assert [] + Flat(l) + [(k, v)] + Flat(r) + [] == Flat(l) + [(k, v)] + Flat(r);
  }

  lemma {:induction false} OneKeyInv<V>(l: Node<V>, k: int, v: V, r: Node<V>, h: nat)
    requires Kid(l, h, 7) && Kid(r, h, 7)
    ensures Inv(Node(false, [k], [v], [l, r]), h + 1, 7)
  {
  }

  lemma {:induction false} LeafItems(base: int, n: nat)
    requires 7 <= n <= MAX_KEYS
    ensures Kid(Leaf(base, n), 0, 7) && |Flat(Leaf(base, n))| == n
    ensures forall i :: 0 <= i < n ==> Flat(Leaf(base, n))[i] == (base + i, base + i)
  {
  }

  lemma {:induction false} ExampleSorted(a: seq<Item<int>>, b: seq<Item<int>>)
    requires |a| == 15 && (forall i :: 0 <= i < 15 ==> a[i] == (i, i))
    requires |b| == 7 && (forall i :: 0 <= i < 7 ==> b[i] == (101 + i, 101 + i))
    ensures Sorted(a + [(100, 100)] + b)
  {
  }

  /** Overwriting key 7 of this textbook tree reports it as new, and lookup still finds the old value. */
  lemma {:induction false} OverwriteExample()
    ensures var t := FullChildExample();
      && Textbook(t, 1) && Inv(t, 1, 0) && Get(t, 7) == Some(7)
      && Insert(t, 7, 70, 1, 0).1 == None
      && Get(Insert(t, 7, 70, 1, 0).0, 7) == Some(7)
  {
    hide Flat, Sorted;
    var t := FullChildExample();
    FullChildIsTextbook();
    TextbookIsOrdered(t, 1, 7);
    assert FirstGreater(t.keys, 7) == 0;
    assert Collides(t, 7);
    assert Get(t, 7) == Some(7);
    InsertAtRoot(t, 7, 70, 1, 0);
    SplitsAtSeven();
  }

  lemma {:induction false} SplitsAtSeven()
    requires Inv(FullChildExample(), 1, 0) && Sorted(Flat(FullChildExample()))
    ensures Get(Insert(FullChildExample(), 7, 70, 1, 0).0, 7) == Some(7)
  {
    hide Flat, Sorted, Inv;
    var t := FullChildExample();
    GrowKeeps(t, 7, 1, 0);
    assert Position(t.keys, 7) == None && FirstGreater(t.keys, 7) == 0;
    var s := Prepared(t, 7, 1, 0).0;
    assert s.keys == [7, 100] && s.values == [7, 100];
    PositionUnique([7, 100], 7, 0);
  }

  lemma {:induction false} TakenFromLastLeaf<V>(n: Node<V>, h: nat)
    requires Inv(n, h, 0)
    ensures LastLeafEmpty(n) <==> EdgeSize(n, false) == 0
    ensures RemoveMax(n).Some? ==> EdgeSize(RemoveMax(n).value.0, false) == EdgeSize(n, false) - 1
    decreases h
  {
    if h > 0 {
      KidAt(n, h, 0, |n.children| - 1);
      TakenFromLastLeaf(n.children[|n.children| - 1], h - 1);
    }
  }

  /** Removing the first root key s times empties a leaf, and removing the next one panics. */
  ghost predicate PanicsAfter<V>(n: Node<V>, h: nat, s: nat)
    requires Inv(n, h, 0) && n.keys != []
    decreases s
  {
    match Remove(n, n.keys[0], h)
    case Panic => s == 0
    case Removed(n', _) => s > 0 && Inv(n', h, 0) && n'.keys != [] && PanicsAfter(n', h, s - 1)
  }

  /**
   The panic is within reach of every tree of height 2 or more whose first root
   child has more than 7 keys, textbook trees included.
   */
  lemma {:induction false} RepeatedRemovalPanics<V>(n: Node<V>, h: nat)
    requires Ordered(n, h) && h >= 2 && n.keys != [] && |n.children[0].keys| > MIN_KEYS
    ensures PanicsAfter(n, h, EdgeSize(n.children[0], false))
    decreases EdgeSize(n.children[0], false)
  {
    var c, k := n.children[0], n.keys[0];
    KidAt(n, h, 0, 0);
    PositionUnique(n.keys, k, 0);
    RemoveMaxSpec(c, h - 1);
    TakenFromLastLeaf(c, h - 1);
    RemoveAtRoot(n, k, h);
    hide Flat, Inv, Lookup, RemoveMax, LastLeafEmpty, EdgeSize, Position, Sorted;
    if RemoveMax(c).Some? {
      var n' := Remove(n, k, h).node;
      PredecessorTakesOver(n, 0, h);
      DelIsRemoval(Flat(n), k);
      RepeatedRemovalPanics(n', h);
    }
  }

  // --------------------------------------------------- trees of even keys, all leaves at 7

  /** The even numbers from 2 * base on. */
  ghost function Evens(base: int, n: nat): seq<Item<int>> { seq(n, i => (2 * (base + i), 0)) }

  function EvenLeaf(base: int): Node<int> { Node(true, seq(7, i => 2 * (base + i)), seq(7, i => 0), []) }

  function EvenMid(base: int, m: nat): Node<int> {
    Node(false, seq(m, j => 2 * (base + 8 * j + 7)), seq(m, j => 0), seq(m + 1, j => EvenLeaf(base + 8 * j)))
  }

  /** One key over two nodes of m and 7 keys. */
  function EvenTree(m: nat): Node<int> {
    Node(false, [2 * (8 * m + 7)], [0], [EvenMid(0, m), EvenMid(8 * m + 8, 7)])
  }

  lemma {:induction false} EvensJoin(base: int, a: nat, b: nat)
    ensures Evens(base, a) + [(2 * (base + a), 0)] + Evens(base + a + 1, b) == Evens(base, a + 1 + b)
  {
  }

  lemma {:induction false} EvenLeafFlat(base: int)
    ensures Flat(EvenLeaf(base)) == Evens(base, 7) && Outer(EvenLeaf(base)) && Kid(EvenLeaf(base), 0, 7)
  {
  }

  /** A node of m keys is a node of m - 1 keys, a key and a leaf. */
  lemma {:induction false} EvenMidGrows(base: int, m: nat)
    requires m > 0
    ensures EvenMid(base, m) ==
      Glue(EvenMid(base, m - 1), 2 * (base + 8 * m - 1), 0, Node(false, [], [], [EvenLeaf(base + 8 * m)]))
  {
    hide EvenLeaf;
    var n := EvenMid(base, m);
    var g := Glue(EvenMid(base, m - 1), 2 * (base + 8 * m - 1), 0, Node(false, [], [], [EvenLeaf(base + 8 * m)]));
    assert n.keys == g.keys && n.values == g.values && n.children == g.children;
  }

  lemma {:induction false} EvenMidFlat(base: int, m: nat)
    ensures Inner(EvenMid(base, m)) && Flat(EvenMid(base, m)) == Evens(base, 8 * m + 7)
  {
    hide EvenLeaf, Evens;
    EvenLeafFlat(base + 8 * m);
    var last := Node(false, [], [], [EvenLeaf(base + 8 * m)]);
    OneChildFlat(EvenLeaf(base + 8 * m));
    if m == 0 {
      assert EvenMid(base, 0).children == [EvenLeaf(base)];
      assert EvenMid(base, 0) == last;
    } else {
      EvenMidFlat(base, m - 1);
      EvenMidGrows(base, m);
      hide Flat, EvenMid;
      GlueFlat(EvenMid(base, m - 1), 2 * (base + 8 * m - 1), 0, last);
      EvensJoin(base, 8 * m - 1, 7);
    }
  }

  lemma {:induction false} OneChildFlat<V>(c: Node<V>)
    ensures Flat(Node(false, [], [], [c])) == Flat(c) && Inner(Node(false, [], [], [c]))
  {
    var n := Node(false, [], [], [c]);
    assert n.children[1..] == [];
    assert Flat(c) + [] == Flat(c);
  }

  lemma {:induction false} EvenMidInv(base: int, m: nat)
    requires m <= MAX_KEYS
    ensures Inv(EvenMid(base, m), 1, 7)
  {
    hide EvenLeaf;
    var n := EvenMid(base, m);
    forall j | 0 <= j < |n.children| ensures Kid(n.children[j], 0, 7) { EvenLeafFlat(base + 8 * j); }
  }

  lemma {:induction false} EvenTreeIsTextbook(m: nat)
    requires 7 <= m <= MAX_KEYS
    ensures Textbook(EvenTree(m), 2) && Flat(EvenTree(m)) == Evens(0, 8 * m + 71)
  {
    hide EvenMid, Flat, Inv, Sorted, Evens;
    var l, r := EvenMid(0, m), EvenMid(8 * m + 8, 7);
    EvenMidInv(0, m);
    EvenMidInv(8 * m + 8, 7);
    EvenKeys(0, m);
    EvenKeys(8 * m + 8, 7);
    TwoKids(l, 2 * (8 * m + 7), 0, r, 1);
    EvenMidFlat(0, m);
    EvenMidFlat(8 * m + 8, 7);
    EvensJoin(0, 8 * m + 7, 63);
    EvensSorted(8 * m + 71);
  }

  lemma {:induction false} EvenKeys(base: int, m: nat)
    ensures |EvenMid(base, m).keys| == m
  {
  }

  /** From this textbook tree seven removals of the root's key succeed; the eighth finds an empty leaf and panics. */
  lemma {:induction false} StrandedExample()
    ensures Textbook(EvenTree(8), 2) && Inv(EvenTree(8), 2, 0)
    ensures PanicsAfter(EvenTree(8), 2, 7)
  {
    hide EvenMid, PanicsAfter, Flat, Sorted;
    var t := EvenTree(8);
    EvenTreeIsTextbook(8);
    TextbookIsOrdered(t, 2, 7);
    EvenKeys(0, 8);
    RepeatedRemovalPanics(t, 2);
    EvenEdge(0, 8);
  }

  lemma {:induction false} EvenEdge(base: int, m: nat)
    ensures EdgeSize(EvenMid(base, m), false) == 7
  {
  }

  // ----------------------------------------------------------- removals that find nothing

  /** Removing these keys, all absent, one after the other turns n into n'. */
  ghost predicate Misses<V>(n: Node<V>, h: nat, keys: seq<int>, n': Node<V>)
    decreases keys
  {
    if keys == [] then n == n'
    else
      && Inv(n, h, 0)
      && match Remove(n, keys[0], h) case Removed(m, None) => Misses(m, h, keys[1..], n') case _ => false
  }

  lemma {:induction false} OneMoreMiss<V>(n: Node<V>, h: nat, keys: seq<int>, m: Node<V>, k: int, n': Node<V>)
    requires Misses(n, h, keys, m) && Inv(m, h, 0) && Remove(m, k, h) == Removed(n', None)
    ensures Misses(n, h, keys + [k], n')
    decreases keys
  {
    if keys == [] {
      assert (keys + [k])[1..] == [];
    } else {
      assert (keys + [k])[1..] == keys[1..] + [k];
      OneMoreMiss(Remove(n, keys[0], h).node, h, keys[1..], m, k, n');
    }
  }

  /** The node of 15 keys after its first p pairs of leaves have been merged. */
  function Merged(p: nat): (c: Node<int>)
    requires p <= 8
    ensures !c.isLeaf && |c.keys| == |c.values| == 15 - p && |c.children| == 16 - p
  {
    if p == 0 then EvenMid(0, 15) else MergeChildren(Merged(p - 1), p - 1)
  }

  function Top(c: Node<int>): Node<int> { Node(false, [], [], [c]) }

  /** An absent key in the second leaf of pair p. */
  function OddKey(p: int): int { 32 * p + 17 }

  function OddKeys(n: nat): seq<int> { seq(n, i => OddKey(i)) }

  lemma {:induction false} MergedSuffix(p: nat, j: nat)
    requires p <= 8 && p <= j <= 15 - p
    ensures Merged(p).children[j] == EvenLeaf(8 * (j + p))
    ensures j < 15 - p ==> Merged(p).keys[j] == 2 * (8 * (j + p) + 7)
  {
    hide EvenLeaf, MergeChildren;
    if p > 0 {
      MergedSuffix(p - 1, j + 1);
      ShiftedBy(Merged(p - 1), p - 1, j);
    }
  }

  lemma {:induction false} ShiftedBy(n: Node<int>, i: nat, j: nat)
    requires i < |n.keys| == |n.values| && |n.children| == |n.keys| + 1 && i < j < |n.keys|
    ensures var m := MergeChildren(n, i);
      |m.children| == |n.children| - 1 && m.children[j] == n.children[j + 1]
    ensures j < |n.keys| - 1 ==>
      |MergeChildren(n, i).keys| == |n.keys| - 1 && MergeChildren(n, i).keys[j] == n.keys[j + 1]
  {
  }

  lemma {:induction false} MergedIsOrdered(p: nat)
    requires p <= 8
    ensures Inv(Merged(p), 1, 0) && Flat(Merged(p)) == Evens(0, 127) && Sorted(Flat(Merged(p)))
  {
    hide Flat, EvenMid, MergeChildren, EvenLeaf, Sorted, Evens;
    if p == 0 {
      EvenMidInv(0, 15);
      TextbookIsOrdered(EvenMid(0, 15), 1, 7);
      EvenMidFlat(0, 15);
      EvensSorted(127);
    } else {
      MergedIsOrdered(p - 1);
      MergedSuffix(p - 1, p - 1);
      MergedSuffix(p - 1, p);
      LeafSize(8 * (2 * p - 2));
      LeafSize(8 * (2 * p - 1));
      MergeKeeps(Merged(p - 1), p - 1, 1);
    }
  }

  lemma {:induction false} LeafSize(base: int)
    ensures EvenLeaf(base).isLeaf && |EvenLeaf(base).keys| == 7
    ensures forall i :: 0 <= i < 7 ==> EvenLeaf(base).keys[i] == 2 * (base + i)
  {
  }

  lemma {:induction false} EvensSorted(n: nat)
    ensures Sorted(Evens(0, n))
  {
  }

  lemma {:induction false} EvenOnly(p: nat, j: nat)
    requires p <= 8 && j < |Merged(p).keys|
    ensures Merged(p).keys[j] % 2 == 0
  {
    hide MergeChildren, EvenLeaf;
    if p > 0 {
      var i := if j < p - 1 then j else j + 1;
      EvenOnly(p - 1, i);
      KeyAfterMerge(Merged(p - 1), p - 1, j);
    }
  }

  lemma {:induction false} KeyAfterMerge(n: Node<int>, i: nat, j: nat)
    requires i < |n.keys| == |n.values| && |n.children| == |n.keys| + 1 && j < |n.keys| - 1
    ensures |MergeChildren(n, i).keys| == |n.keys| - 1
    ensures MergeChildren(n, i).keys[j] == n.keys[if j < i then j else j + 1]
  {
  }

  lemma {:induction false} FindsPair(p: nat)
    requires p < 8
    ensures OddKey(p) !in Merged(p).keys && FirstGreater(Merged(p).keys, OddKey(p)) == p + 1
  {
    hide Merged, FirstGreater;
    var c, k := Merged(p), OddKey(p);
    forall j | 0 <= j < |c.keys| ensures c.keys[j] != k { EvenOnly(p, j); }
    MergedIsOrdered(p);
    KindOf(c, 1, 0);
    KeysAscend(c);
    MergedSuffix(p, p);
    if p + 1 < |c.keys| { MergedSuffix(p, p + 1); }
    FirstGreaterUnique(c.keys, k, p + 1);
  }

  /** Looking for a key in the second leaf of pair p merges that pair and finds nothing. */
  lemma {:induction false} MissMerges(p: nat)
    requires p < 8
    ensures Inv(Merged(p), 1, 0) && RemoveFrom(Merged(p), OddKey(p), 1) == Removed(Merged(p + 1), None)
  {
    hide EvenMid, EvenLeaf, FirstGreater, Flat, Sorted, MergeChildren, Stranded;
    var c, k := Merged(p), OddKey(p);
    MergedIsOrdered(p);
    MergedIsOrdered(p + 1);
    FindsPair(p);
    MergedSuffix(p, p);
    MergedSuffix(p, p + 1);
    LeafSize(16 * p);
    LeafSize(16 * p + 8);
    if p + 2 <= 15 - p { MergedSuffix(p, p + 2); LeafSize(16 * p + 16); }
    KindOf(c, 1, 0);
    assert FixChild(c, p + 1, 1) == Some(Merged(p + 1));
    MergeSearch(c, p + 1, p, k, 1);
    PairHasNot(p);
    var m := Merged(p + 1);
    assert m.children[p := m.children[p]] == m.children;
  }

  lemma {:induction false} PairHasNot(p: nat)
    requires p < 8
    ensures var leaf := Merged(p + 1).children[p]; leaf.isLeaf && OddKey(p) !in leaf.keys
  {
    hide EvenLeaf, EvenMid, Merged, MergeChildren;
    MergedStep(p);
    MergedSuffix(p, p);
    MergedSuffix(p, p + 1);
    var l, r, leaf := EvenLeaf(16 * p), EvenLeaf(16 * p + 8), Merged(p + 1).children[p];
    assert leaf == Glue(l, Merged(p).keys[p], Merged(p).values[p], r);
    EvenOnly(p, p);
    LeafSize(16 * p);
    LeafSize(16 * p + 8);
    OddNotInGlue(l.keys, Merged(p).keys[p], r.keys, OddKey(p));
  }

  lemma {:induction false} MergedStep(p: nat)
    requires p < 8
    ensures var c := Merged(p);
      Merged(p + 1).children[p] == Glue(c.children[p], c.keys[p], c.values[p], c.children[p + 1])
  {
    hide EvenMid;
  }

  lemma {:induction false} OddNotInGlue(a: seq<int>, m: int, b: seq<int>, k: int)
    requires k % 2 == 1 && m % 2 == 0
    requires forall i :: 0 <= i < |a| ==> a[i] % 2 == 0
    requires forall i :: 0 <= i < |b| ==> b[i] % 2 == 0
    ensures k !in a + [m] + b
  {
    assert k !in a && k !in b;
  }

  lemma {:induction false} MissAtTop(p: nat)
    requires p < 8
    ensures Inv(Top(Merged(p)), 2, 0) && Remove(Top(Merged(p)), OddKey(p), 2) == Removed(Top(Merged(p + 1)), None)
  {
    hide Merged, RemoveFrom;
    MissMerges(p);
    var t := Top(Merged(p));
    assert Kid(Merged(p), 1, 0);
    TopDescends(t, OddKey(p));
  }

  /** Without keys, and with enough in its child, the root only passes the removal on. */
  lemma {:induction false} TopDescends(t: Node<int>, k: int)
    requires Inv(t, 2, 0) && t.keys == [] && |t.children[0].keys| > MIN_KEYS
    ensures Inv(t.children[0], 1, 0) && RemoveFrom(t, k, 2) == WithChild(t, 0, RemoveFrom(t.children[0], k, 1))
  {
    KidAt(t, 2, 0, 0);
    assert FirstGreater(t.keys, k) == 0;
  }

  /** Removing an absent key from the tree of even keys merges the nodes under the root, which has no key left. */
  lemma {:induction false} FirstMiss()
    ensures Inv(EvenTree(7), 2, 0) && Remove(EvenTree(7), OddKey(0), 2) == Removed(Top(Merged(1)), None)
  {
    hide EvenMid, Flat, Sorted;
    var t, k := EvenTree(7), OddKey(0);
    EvenTreeIsTextbook(7);
    TextbookIsOrdered(t, 2, 7);
    EvenKeys(0, 7);
    EvenKeys(64, 7);
    assert FirstGreater(t.keys, k) == 0;
    assert MergeChildren(t, 0) == Top(Merged(0)) by { GluedMids(); }
    assert FixChild(t, 0, 2) == Some(Top(Merged(0)));
    MissMerges(0);
  }

  lemma {:induction false} GluedMids()
    ensures Glue(EvenMid(0, 7), 126, 0, EvenMid(64, 7)) == EvenMid(0, 15)
  {
    hide EvenLeaf;
    var g, n := Glue(EvenMid(0, 7), 126, 0, EvenMid(64, 7)), EvenMid(0, 15);
    assert g.keys == n.keys && g.values == n.values && g.children == n.children;
  }

  lemma {:induction false} MissesUpTo(p: nat)
    requires 1 <= p <= 8
    ensures Misses(EvenTree(7), 2, OddKeys(p), Top(Merged(p)))
  {
    hide Merged, EvenTree, Remove;
    if p == 1 {
      FirstMiss();
      assert OddKeys(1) == [] + [OddKey(0)];
      OneMoreMiss(EvenTree(7), 2, [], EvenTree(7), OddKey(0), Top(Merged(1)));
    } else {
      MissesUpTo(p - 1);
      MissAtTop(p - 1);
      assert OddKeys(p) == OddKeys(p - 1) + [OddKey(p - 1)];
      OneMoreMiss(EvenTree(7), 2, OddKeys(p - 1), Top(Merged(p - 1)), OddKey(p - 1), Top(Merged(p)));
    }
  }

  lemma {:induction false} AllMerged(p: nat)
    requires p == 8
    ensures Inv(Top(Merged(p)), 2, 0) && Starved(Top(Merged(p)))
  {
    MergedIsOrdered(p);
    hide Merged;
    assert Kid(Merged(p), 1, 0);
  }

  /** Eight removals of absent keys from a textbook tree starve its root, and then every removal panics. */
  lemma {:induction false} StarvedExample()
    ensures Textbook(EvenTree(7), 2)
    ensures exists n ::
      Misses(EvenTree(7), 2, OddKeys(8), n) && Inv(n, 2, 0) && Starved(n) && forall k :: Remove(n, k, 2) == Panic
  {
    hide Misses, EvenTree, Merged, Textbook, Remove, Inv;
    EvenTreeIsTextbook(7);
    var p := 8;
    MissesUpTo(p);
    AllMerged(p);
    forall k ensures Remove(Top(Merged(p)), k, 2) == Panic { StarvedPanics(Top(Merged(p)), k, 2); }
  }
}
