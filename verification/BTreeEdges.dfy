/**
 The leftmost and the rightmost leaf.  Removal lets inner leaves run empty, but
 these two keep at least 7 keys while there is a level above them, so `first`
 and `last` find the least and the greatest item of every tree that the
 operations build.
 */
module BTreeEdges {
  import opened Common
  import opened SortedItems
  import opened BTreeNode
  import opened BTreeInsert
  import opened BTreeRemove
  import opened BTreeMap

  /** The index of the first or the last child. */
  function Edge<V>(n: Node<V>, first: bool): (i: nat)
    requires n.children != []
    ensures i < |n.children|
  {
    if first then 0 else |n.children| - 1
  }

  /** The number of keys in the leftmost or rightmost leaf. */
  function EdgeSize<V>(n: Node<V>, first: bool): nat {
    if n.isLeaf || n.children == [] then |n.keys| else EdgeSize(n.children[Edge(n, first)], first)
  }

  lemma {:induction false} EdgeOf<V>(n: Node<V>, h: nat, first: bool)
    requires Inv(n, h, 0)
    ensures EdgeSize(n, first) == if h == 0 then |n.keys| else EdgeSize(n.children[Edge(n, first)], first)
  {
  }

  lemma {:induction false} GlueEdge<V>(l: Node<V>, k: int, v: V, r: Node<V>, h: nat, first: bool)
    requires Inv(l, h, 0) && Inv(r, h, 0)
    ensures var g := Glue(l, k, v, r);
      if h == 0 then EdgeSize(g, first) == |g.keys| == |l.keys| + 1 + |r.keys|
      else EdgeSize(g, first) == EdgeSize(if first then l else r, first)
  {
    var g := Glue(l, k, v, r);
    if h > 0 {
      assert g.children[Edge(g, first)] == if first then l.children[0] else r.children[|r.children| - 1];
    }
  }

  lemma {:induction false} DropEdge<V>(n: Node<V>, h: nat)
    requires Inv(n, h, 0) && |n.keys| > MIN_KEYS
    ensures Lends(n)
    ensures EdgeSize(DropLast(n), true) == if h == 0 then |n.keys| - 1 else EdgeSize(n, true)
    ensures EdgeSize(DropFirst(n), false) == if h == 0 then |n.keys| - 1 else EdgeSize(n, false)
  {
  }

  /** Enough keys at this edge for a removal to go on below. */
  ghost predicate Wide<V>(n: Node<V>, h: nat, first: bool) {
    EdgeSize(n, first) >= MIN_KEYS && (h == 0 ==> |n.keys| > MIN_KEYS)
  }

  // ------------------------------------------------------------------- repairs

  lemma {:induction false} BorrowLeftEdge<V>(p: Node<V>, i: nat, h: nat, first: bool)
    requires Inv(p, h, 0) && h > 0 && 0 < i < |p.children| && Inner(p)
    requires |p.children[i - 1].keys| > MIN_KEYS && Lends(p.children[i - 1])
    requires EdgeSize(p, first) >= MIN_KEYS
    ensures var f := BorrowFromLeft(p, i);
      f.children != [] && EdgeSize(f, first) >= MIN_KEYS && (i == Edge(f, first) ==> Wide(f.children[i], h - 1, first))
  {
    hide Inv, DropLast, LastChild;
    var l, c, f := p.children[i - 1], p.children[i], BorrowFromLeft(p, i);
    assert Inv(l, h - 1, 0) && Inv(c, h - 1, 0) by { KidAt(p, h, 0, i - 1); KidAt(p, h, 0, i); }
    DropEdge(l, h - 1);
    DropLastGlues(l, h - 1);
    GlueEdge(LastChild(l), p.keys[i - 1], p.values[i - 1], c, h - 1, first);
    if h == 1 { EdgeOf(c, 0, first); }
  }

  lemma {:induction false} BorrowRightEdge<V>(p: Node<V>, i: nat, h: nat, first: bool)
    requires Inv(p, h, 0) && h > 0 && i + 1 < |p.children| && Inner(p)
    requires |p.children[i + 1].keys| > MIN_KEYS && Lends(p.children[i + 1])
    requires EdgeSize(p, first) >= MIN_KEYS
    ensures var f := BorrowFromRight(p, i);
      f.children != [] && EdgeSize(f, first) >= MIN_KEYS && (i == Edge(f, first) ==> Wide(f.children[i], h - 1, first))
  {
    hide Inv, DropFirst, FirstChild;
    var c, r, f := p.children[i], p.children[i + 1], BorrowFromRight(p, i);
    assert Inv(r, h - 1, 0) && Inv(c, h - 1, 0) by { KidAt(p, h, 0, i + 1); KidAt(p, h, 0, i); }
    DropEdge(r, h - 1);
    DropFirstGlues(r, h - 1);
    GlueEdge(c, p.keys[i], p.values[i], FirstChild(r), h - 1, first);
    if h == 1 { EdgeOf(c, 0, first); }
  }

  lemma {:induction false} MergeEdge<V>(p: Node<V>, q: nat, h: nat, first: bool)
    requires Inv(p, h, 0) && h > 0 && q < |p.keys| && Inner(p) && EdgeSize(p, first) >= MIN_KEYS
    ensures var f := MergeChildren(p, q);
      f.children != [] && EdgeSize(f, first) >= MIN_KEYS && (q == Edge(f, first) ==> Wide(f.children[q], h - 1, first))
  {
    hide Inv;
    var l, r, f := p.children[q], p.children[q + 1], MergeChildren(p, q);
    assert Inv(l, h - 1, 0) && Inv(r, h - 1, 0) by { KidAt(p, h, 0, q); KidAt(p, h, 0, q + 1); }
    GlueEdge(l, p.keys[q], p.values[q], r, h - 1, first);
    assert f.children[q] == Glue(l, p.keys[q], p.values[q], r);
    if h == 1 { EdgeOf(l, 0, first); EdgeOf(r, 0, first); }
    if q != Edge(f, first) {
      assert f.children[Edge(f, first)] == p.children[Edge(p, first)];
    }
  }

  /** After a repair the edges are as good as before, and the child on the path is ready if it is an edge. */
  ghost predicate Ready<V>(f: Node<V>, j: nat, h: nat, first: bool) {
    && j < |f.children| && EdgeSize(f, first) >= MIN_KEYS
    && (j == Edge(f, first) ==> h > 0 && Wide(f.children[j], h - 1, first))
  }

  lemma {:induction false} FixEdge<V>(n: Node<V>, i: nat, k: int, h: nat, first: bool)
    requires Inv(n, h, 0) && h > 0 && Inner(n) && Sorted(Flat(n)) && k !in n.keys && i == FirstGreater(n.keys, k)
    requires |n.children[i].keys| <= MIN_KEYS && n.keys != [] && EdgeSize(n, first) >= MIN_KEYS
    ensures var f := FixChild(n, i, h); f.Some? && Ready(f.value, FirstGreater(f.value.keys, k), h, first)
  {
    if i > 0 { KidAt(n, h, 0, i - 1); KindOf(n.children[i - 1], h - 1, 0); }
    if i < |n.children| - 1 { KidAt(n, h, 0, i + 1); KindOf(n.children[i + 1], h - 1, 0); }
    hide Inv, Flat, Stranded, FirstGreater, BorrowFromLeft, BorrowFromRight, MergeChildren, Kid, Sorted, EdgeSize, Wide;
    if i > 0 && |n.children[i - 1].keys| > MIN_KEYS {
      BorrowLeftSearch(n, i, k, h);
      BorrowLeftEdge(n, i, h, first);
    } else if i < |n.children| - 1 && |n.children[i + 1].keys| > MIN_KEYS {
      BorrowRightSearch(n, i, k, h);
      BorrowRightEdge(n, i, h, first);
    } else {
      var q := if i > 0 then i - 1 else i;
      MergeSearch(n, i, q, k, h);
      MergeEdge(n, q, h, first);
    }
  }

  lemma {:induction false} RepairEdge<V>(n: Node<V>, k: int, h: nat, first: bool)
    requires Inv(n, h, 0) && h > 0 && Sorted(Flat(n)) && k !in n.keys && !Starved(n) && EdgeSize(n, first) >= MIN_KEYS
    ensures var f := Repaired(n, k, h); f.Some? && Ready(f.value, FirstGreater(f.value.keys, k), h, first)
  {
    var i := FirstGreater(n.keys, k);
    KindOf(n, h, 0);
    EdgeOf(n, h, first);
    hide Flat, Stranded, FixChild, Kids, Kid;
    if |n.children[i].keys| <= MIN_KEYS {
      FixKeeps(n, i, h);
      FixEdge(n, i, k, h, first);
    }
  }

  // ------------------------------------------------------------------- removal

  /** Taking the greatest item leaves the leftmost leaf alone, unless the node is that leaf. */
  lemma {:induction false} TakeMaxEdge<V>(n: Node<V>, h: nat)
    requires Inv(n, h, 0) && |n.keys| > MIN_KEYS
    ensures RemoveMax(n).Some? ==>
      EdgeSize(RemoveMax(n).value.0, true) == if h == 0 then |n.keys| - 1 else EdgeSize(n, true)
  {
  }

  lemma {:induction false} TakeMinEdge<V>(n: Node<V>, h: nat)
    requires Inv(n, h, 0) && |n.keys| > MIN_KEYS
    ensures RemoveMin(n).Some? ==>
      EdgeSize(RemoveMin(n).value.0, false) == if h == 0 then |n.keys| - 1 else EdgeSize(n, false)
  {
  }

  /** Replacing child i keeps an edge if the new child does. */
  lemma {:induction false} WithChildEdge<V>(n: Node<V>, i: nat, c: Node<V>, first: bool)
    requires !n.isLeaf && i < |n.children| && EdgeSize(n, first) >= MIN_KEYS
    requires i == Edge(n, first) ==> EdgeSize(c, first) >= MIN_KEYS
    ensures EdgeSize(n.(children := n.children[i := c]), first) >= MIN_KEYS
  {
    var m := n.(children := n.children[i := c]);
    assert Edge(m, first) == Edge(n, first);
  }

  lemma {:induction false} SubstituteEdge<V>(n: Node<V>, pos: nat, h: nat, first: bool)
    requires Inv(n, h, 0) && h > 0 && pos < |n.keys| && EdgeSize(n, first) >= MIN_KEYS
    ensures |n.children[pos].keys| > MIN_KEYS ==>
      var r := Substitute(n, pos, pos, RemoveMax(n.children[pos]));
      r.Removed? ==> EdgeSize(r.node, first) >= MIN_KEYS
    ensures |n.children[pos + 1].keys| > MIN_KEYS ==>
      var r := Substitute(n, pos, pos + 1, RemoveMin(n.children[pos + 1]));
      r.Removed? ==> EdgeSize(r.node, first) >= MIN_KEYS
  {
    hide RemoveMax, RemoveMin;
    KidAt(n, h, 0, pos);
    KidAt(n, h, 0, pos + 1);
    if |n.children[pos].keys| > MIN_KEYS { TakeMaxEdge(n.children[pos], h - 1); }
    if |n.children[pos + 1].keys| > MIN_KEYS { TakeMinEdge(n.children[pos + 1], h - 1); }
  }

  lemma {:induction false} RemoveEdge<V>(n: Node<V>, k: int, h: nat, first: bool)
    requires Inv(n, h, 0) && Sorted(Flat(n)) && !Starved(n) && Wide(n, h, first)
    ensures RemoveFrom(n, k, h).Removed? ==> EdgeSize(RemoveFrom(n, k, h).node, first) >= MIN_KEYS
    decreases h
  {
    hide Flat, Sorted, FirstGreater, Repaired, Substitute, RemoveMax, RemoveMin, MergeChildren, Stranded;
    KindOf(n, h, 0);
    if h > 0 {
      match Position(n.keys, k)
      case Some(pos) =>
        if |n.children[pos].keys| > MIN_KEYS || |n.children[pos + 1].keys| > MIN_KEYS {
          SubstituteEdge(n, pos, h, first);
        } else {
          RemoveMergedEdge(n, pos, h, first);
          var m := MergeChildren(n, pos);
          if pos == Edge(m, first) { RemoveEdge(m.children[pos], k, h - 1, first); }
          BelowEdge(m, pos, k, h, first);
        }
      case None =>
        RepairSearch(n, k, h);
        RepairEdge(n, k, h, first);
        var f := Repaired(n, k, h).value;
        var j := FirstGreater(f.keys, k);
        KindOf(f, h, 0);
        ChildReady(f, j, h);
        if j == Edge(f, first) { RemoveEdge(f.children[j], k, h - 1, first); }
        BelowEdge(f, j, k, h, first);
    }
  }

  lemma {:induction false} RemoveMergedEdge<V>(n: Node<V>, pos: nat, h: nat, first: bool)
    requires Inv(n, h, 0) && h > 0 && Sorted(Flat(n)) && pos < |n.keys| && Inner(n) && EdgeSize(n, first) >= MIN_KEYS
    requires |n.children[pos].keys| <= MIN_KEYS && |n.children[pos + 1].keys| <= MIN_KEYS
    ensures var m := MergeChildren(n, pos);
      && Inv(m, h, 0) && Inner(m) && Ready(m, pos, h, first) && Inv(m.children[pos], h - 1, 0)
      && Sorted(Flat(m.children[pos])) && !Starved(m.children[pos])
  {
    hide Flat, Sorted, EdgeSize, Wide;
    MergeKeeps(n, pos, h);
    MergeEdge(n, pos, h, first);
    var m := MergeChildren(n, pos);
    KindOf(m, h, 0);
    ChildReady(m, pos, h);
    assert m.children[pos].keys != [];
  }

  lemma {:induction false} ChildReady<V>(f: Node<V>, j: nat, h: nat)
    requires Inv(f, h, 0) && h > 0 && Inner(f) && Sorted(Flat(f)) && j < |f.children|
    ensures Inv(f.children[j], h - 1, 0) && Sorted(Flat(f.children[j])) && !Starved(f.children[j])
  {
    hide Flat, Sorted;
    KidAt(f, h, 0, j);
    ChildSorted(f, j);
  }

  lemma {:induction false} BelowEdge<V>(f: Node<V>, j: nat, k: int, h: nat, first: bool)
    requires Inv(f, h, 0) && h > 0 && Inner(f) && Ready(f, j, h, first) && Inv(f.children[j], h - 1, 0)
    requires j == Edge(f, first) && RemoveFrom(f.children[j], k, h - 1).Removed? ==>
      EdgeSize(RemoveFrom(f.children[j], k, h - 1).node, first) >= MIN_KEYS
    ensures var r := WithChild(f, j, RemoveFrom(f.children[j], k, h - 1));
      r.Removed? ==> EdgeSize(r.node, first) >= MIN_KEYS
  {
    hide RemoveFrom, EdgeSize, Inv;
    var r := RemoveFrom(f.children[j], k, h - 1);
    if r.Removed? { WithChildEdge(f, j, r.node, first); }
  }

  // ----------------------------------------------------------------- insertion

  lemma {:induction false} SplitEdge<V>(p: Node<V>, i: nat, h: nat, first: bool)
    requires Inv(p, h, 0) && h > 0 && |p.keys| < MAX_KEYS && i < |p.children|
    requires Full(p.children[i]) && Splittable(p.children[i])
    requires i != Edge(p, first) ==> EdgeSize(p, first) >= MIN_KEYS
    requires h > 1 ==> EdgeSize(p, first) >= MIN_KEYS
    ensures EdgeSize(SplitChild(p, i), first) >= MIN_KEYS
  {
    var c, s := p.children[i], SplitChild(p, i);
    KidAt(p, h, 0, i);
    if i == Edge(p, first) {
      assert s.children[Edge(s, first)] == if first then LeftHalf(c) else RightHalf(c);
      if h > 1 {
        assert LeftHalf(c).children[0] == c.children[0];
        assert RightHalf(c).children[|RightHalf(c).children| - 1] == c.children[|c.children| - 1];
      }
    } else {
      assert s.children[Edge(s, first)] == p.children[Edge(p, first)];
    }
  }

  lemma {:induction false} InsertEdge<V>(n: Node<V>, k: int, v: V, h: nat, first: bool)
    requires Inv(n, h, 0) && |n.keys| < MAX_KEYS && EdgeSize(n, first) >= MIN_KEYS
    ensures EdgeSize(InsertNonFull(n, k, v, h, 0).0, first) >= MIN_KEYS
    decreases h
  {
    hide Flat, FirstGreater, SplitChild, LeftHalf, RightHalf;
    if h > 0 && Position(n.keys, k) == None {
      var i := FirstGreater(n.keys, k);
      KindOf(n, h, 0);
      if Full(n.children[i]) {
        SplitInv(n, i, h, 0);
        SplitEdge(n, i, h, first);
      }
      var (s, j) := Prepared(n, k, h, 0);
      KindOf(s, h, 0);
      KidAt(s, h, 0, j);
      if j == Edge(s, first) { InsertEdge(s.children[j], k, v, h - 1, first); }
      WithChildEdge(s, j, InsertNonFull(s.children[j], k, v, h - 1, 0).0, first);
    }
  }

  lemma {:induction false} GrowEdge<V>(root: Node<V>, k: int, h: nat, first: bool)
    requires Inv(root, h, 0) && Sorted(Flat(root)) && (h > 0 ==> EdgeSize(root, first) >= MIN_KEYS)
    ensures Full(root) ==> Splittable(root)
    ensures GrownHeight(root, h) > 0 ==> EdgeSize(GrowRoot(root), first) >= MIN_KEYS
  {
    GrowKeeps(root, k, h, 0);
    hide Flat, Sorted;
    if Full(root) {
      var top := Node(false, [], [], [root]);
      assert Kid(root, h, 0) && Inv(top, h + 1, 0);
      SplitEdge(top, 0, h + 1, first);
    }
  }

  // -------------------------------------------------- every tree that gets built

  /** Ordered, and both edge leaves hold at least 7 keys if there is a level above them. */
  ghost predicate Reach<V>(n: Node<V>, h: nat) {
    Ordered(n, h) && (h > 0 ==> EdgeSize(n, true) >= MIN_KEYS && EdgeSize(n, false) >= MIN_KEYS)
  }

  lemma {:induction false} InsertReach<V>(root: Node<V>, k: int, v: V, h: nat)
    requires Reach(root, h) && !Collides(root, k)
    ensures Reach(Insert(root, k, v, h, 0).0, GrownHeight(root, h))
  {
    var h', g := GrownHeight(root, h), GrowRoot(root);
    GrowKeeps(root, k, h, 0);
    InsertAtRoot(root, k, v, h, 0);
    hide Flat, Sorted, EdgeSize, Collides, InsertNonFull, Inv;
    PutIsUpdate(Flat(root), k, v);
    GrowEdge(root, k, h, true);
    GrowEdge(root, k, h, false);
    if h' > 0 {
      InsertEdge(g, k, v, h', true);
      InsertEdge(g, k, v, h', false);
    }
  }

  /** The height of what a removal left. */
  ghost function LeftHeight<V>(r: Node<V>, h: nat): nat { if h > 0 && !Ordered(r, h) then h - 1 else h }

  lemma {:induction false} RemoveReach<V>(root: Node<V>, k: int, h: nat)
    requires Reach(root, h)
    ensures var r := Remove(root, k, h); r.Removed? ==> Reach(r.node, LeftHeight(r.node, h))
  {
    RemoveIsRemovalIff(root, k, h);
    if Remove(root, k, h).Removed? {
      hide Flat, Sorted, Collides, Stranded;
      if h > 0 {
        RemoveEdge(root, k, h, true);
        RemoveEdge(root, k, h, false);
        hide RemoveFrom;
        match RemoveFrom(root, k, h)
        case Panic =>
        case Removed(n, v) =>
          RemoveSpec(root, k, h);
          if v.Some? && n.keys == [] { OnlyEdge(n, h); }
      }
    }
  }

  lemma {:induction false} OnlyEdge<V>(n: Node<V>, h: nat)
    requires Inv(n, h, 0) && h > 0 && n.keys == []
    ensures |n.children| == 1 && forall first :: EdgeSize(n.children[0], first) == EdgeSize(n, first)
  {
  }

  lemma {:induction false} EdgeNotEmpty<V>(n: Node<V>, h: nat)
    requires Inv(n, h, 0)
    ensures FirstLeafEmpty(n) <==> EdgeSize(n, true) == 0
    ensures LastLeafEmpty(n) <==> EdgeSize(n, false) == 0
    decreases h
  {
    if h > 0 {
      KidAt(n, h, 0, 0);
      EdgeNotEmpty(n.children[0], h - 1);
      KidAt(n, h, 0, |n.children| - 1);
      EdgeNotEmpty(n.children[|n.children| - 1], h - 1);
    }
  }

  /** `first` and `last` are the least and the greatest item. */
  lemma {:induction false} EndsAreFound<V>(root: Node<V>, h: nat)
    requires Reach(root, h)
    ensures var s := Flat(root);
      && FirstInNode(root) == (if s == [] then None else Some(s[0]))
      && LastInNode(root) == (if s == [] then None else Some(s[|s| - 1]))
  {
    hide FirstInNode, LastInNode, Sorted;
    EdgeNotEmpty(root, h);
    FirstOfLeaf(root, h);
    LastOfLeaf(root, h);
  }

  /** What is done to a tree, one call after the other. */
  datatype Op<V> = Put(k: int, v: V) | Take(k: int)

  /** The tree after one call; None after an insertion that collides or a removal that panics. */
  ghost function Next<V>(t: (Node<V>, nat), op: Op<V>): (r: Option<(Node<V>, nat)>)
    requires Reach(t.0, t.1)
    ensures r.Some? ==> Reach(r.value.0, r.value.1)
  {
    match op
    case Put(k, v) =>
      if Collides(t.0, k) then None
      else
        InsertReach(t.0, k, v, t.1);
        Some((Insert(t.0, k, v, t.1, 0).0, GrownHeight(t.0, t.1)))
    case Take(k) =>
      RemoveReach(t.0, k, t.1);
      match Remove(t.0, k, t.1)
      case Panic => None
      case Removed(n, _) => Some((n, LeftHeight(n, t.1)))
  }

  ghost function Built<V>(ops: seq<Op<V>>): (r: Option<(Node<V>, nat)>)
    ensures r.Some? ==> Reach(r.value.0, r.value.1)
  {
    if ops == [] then Some((NewLeaf(), 0))
    else
      match Built(ops[..|ops| - 1])
      case None => None
      case Some(t) => Next(t, ops[|ops| - 1])
  }

  /** The same calls on a finite map. */
  ghost function Mapped<V>(ops: seq<Op<V>>): map<int, V> {
    if ops == [] then map[]
    else
      var m := Mapped(ops[..|ops| - 1]);
      match ops[|ops| - 1]
      case Put(k, v) => m[k := v]
      case Take(k) => m - {k}
  }

  /**
   On every tree built from the empty one, the items are those of the map in
   ascending order, and `first` and `last` are the least and the greatest.
   */
  lemma {:induction false} EveryTree<V>(ops: seq<Op<V>>)
    requires Built(ops).Some?
    ensures var root := Built(ops).value.0; var s := Flat(root);
      && Sorted(s) && Contents(s) == Mapped(ops)
      && FirstInNode(root) == (if s == [] then None else Some(s[0]))
      && LastInNode(root) == (if s == [] then None else Some(s[|s| - 1]))
  {
    var (root, h) := Built(ops).value;
    EndsAreFound(root, h);
    BuiltIsMapped(ops);
  }

  // ------------------------------------------- removals of keys that are there

  /** A leaf, or an internal node with a key: what a root should be. */
  predicate Rooted<V>(n: Node<V>) { n.isLeaf || n.keys != [] }

  /** A removal that found its key promotes an only child, so the root is again as it should be. */
  lemma {:induction false} RemoveRooted<V>(root: Node<V>, k: int, h: nat)
    requires Inv(root, h, 0) && Sorted(Flat(root))
    ensures var r := Remove(root, k, h); r.Removed? && r.value.Some? ==> Rooted(r.node)
  {
    if Starved(root) {
      StarvedPanics(root, k, h);
    } else {
      RemoveSpec(root, k, h);
      hide Flat, Sorted, Stranded, RemoveFrom;
      match RemoveFrom(root, k, h)
      case Panic =>
      case Removed(n, v) =>
        if v.Some? && n.keys == [] && !n.isLeaf { KidAt(n, h, 0, 0); }
    }
  }

  lemma {:induction false} InsertRooted<V>(root: Node<V>, k: int, v: V, h: nat)
    requires Ordered(root, h) && Rooted(root)
    ensures Rooted(Insert(root, k, v, h, 0).0)
  {
    InsertAtRoot(root, k, v, h, 0);
  }

  /** Between two leaves a separator can always be replaced, or the leaves merged. */
  lemma {:induction false} ShallowNeverStranded<V>(n: Node<V>, k: int, h: nat)
    requires Inv(n, h, 0) && h <= 1
    ensures !Stranded(n, k)
  {
    if h == 1 {
      match Position(n.keys, k)
      case Some(pos) =>
        KidAt(n, 1, 0, pos);
        KidAt(n, 1, 0, pos + 1);
      case None =>
        KidAt(n, 1, 0, FirstGreater(n.keys, k));
    }
  }

  /** Every removal was of a key that was there. */
  ghost predicate TakesPresent<V>(ops: seq<Op<V>>) {
    forall i :: 0 <= i < |ops| && ops[i].Take? ==> ops[i].k in Mapped(ops[..i])
  }

  /**
   A tree built by insertions and removals of keys that are there never lacks a
   root key, so a removal panics on it only at a stranded separator, and never
   at height 1 or less.
   */
  lemma {:induction false} NeverStarves<V>(ops: seq<Op<V>>, k: int)
    requires Built(ops).Some? && TakesPresent(ops)
    ensures var (root, h) := Built(ops).value;
      && Rooted(root) && !Starved(root)
      && Ordered(root, h) && (Remove(root, k, h) == Panic <==> Stranded(root, k))
      && (h <= 1 ==> Remove(root, k, h).Removed?)
  {
    hide Flat, Sorted, Collides, Insert, Remove, Stranded, TakesPresent;
    var (root, h) := Built(ops).value;
    BuiltRooted(ops);
    RemoveIsRemovalIff(root, k, h);
    if h <= 1 { ShallowNeverStranded(root, k, h); }
  }

  lemma {:induction false} BuiltRooted<V>(ops: seq<Op<V>>)
    requires Built(ops).Some? && TakesPresent(ops)
    ensures Rooted(Built(ops).value.0)
  {
    hide Flat, Sorted, Collides, Insert, Remove, Rooted, TakesPresent;
    if ops == [] {
      LeafRooted<V>();
    } else {
      var before := ops[..|ops| - 1];
      PresentBefore(ops);
      BuiltRooted(before);
      BuiltIsMapped(before);
      var t := Built(before).value;
      ReachIsOrdered(t.0, t.1);
      match ops[|ops| - 1]
      case Put(k, v) => InsertRooted(t.0, k, v, t.1);
      case Take(k) =>
        RemoveRooted(t.0, k, t.1);
        RemoveIsRemovalIff(t.0, k, t.1);
    }
  }

  lemma {:induction false} LeafRooted<V>()
    ensures Rooted(NewLeaf<V>())
  {
  }

  lemma {:induction false} PresentBefore<V>(ops: seq<Op<V>>)
    requires TakesPresent(ops) && ops != []
    ensures TakesPresent(ops[..|ops| - 1])
    ensures var op := ops[|ops| - 1]; op.Take? ==> op.k in Mapped(ops[..|ops| - 1])
  {
    hide Mapped;
    var before := ops[..|ops| - 1];
    forall i | 0 <= i < |before| ensures before[..i] == ops[..i] {}
  }

  lemma {:induction false} BuiltIsMapped<V>(ops: seq<Op<V>>)
    requires Built(ops).Some?
    ensures Contents(Flat(Built(ops).value.0)) == Mapped(ops)
  {
    hide Reach, Flat, Sorted, Collides, Insert, Remove;
    if ops == [] {
      EmptyTree<V>();
    } else {
      BuiltIsMapped(ops[..|ops| - 1]);
      var t := Built(ops[..|ops| - 1]).value;
      ReachIsOrdered(t.0, t.1);
      match ops[|ops| - 1]
      case Put(k, v) => InsertIsUpdateIff(t.0, k, v, t.1);
      case Take(k) => RemoveIsRemovalIff(t.0, k, t.1);
    }
  }

  lemma {:induction false} EmptyTree<V>()
    ensures Contents(Flat(NewLeaf<V>())) == map[]
  {
    assert Flat(NewLeaf<V>()) == [];
  }

  lemma {:induction false} ReachIsOrdered<V>(n: Node<V>, h: nat)
    requires Reach(n, h)
    ensures Ordered(n, h)
  {
  }
}
