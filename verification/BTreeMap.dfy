/** The B-tree at its root as an ordered map: insertion, removal and lookup, and what they promise about the map. */
module BTreeMap {
  import opened Common
  import opened SortedItems
  import opened BTreeNode
  import opened BTreeInsert
  import opened BTreeRemove

  // ---------------------------------------------------------------- at root

  /** A full root gets a new root above it and is split. */
  function GrowRoot<V>(root: Node<V>): Node<V>
    requires Full(root) ==> Splittable(root)
  {
    if Full(root) then SplitChild(Node(false, [], [], [root]), 0) else root
  }

  ghost function GrownHeight<V>(root: Node<V>, h: nat): nat { if Full(root) then h + 1 else h }

  lemma {:induction false} GrowKeeps<V>(root: Node<V>, k: int, h: nat, lo: nat)
    requires Inv(root, h, lo) && Sorted(Flat(root)) && lo <= MIN_KEYS
    ensures Full(root) ==> Splittable(root)
    ensures var g := GrowRoot(root);
      && Inv(g, GrownHeight(root, h), lo) && |g.keys| < MAX_KEYS && Flat(g) == Flat(root)
      && Collides(g, k) == Collides(root, k) && (Full(root) ==> g.keys != [])
  {
    if Full(root) {
      var top := Node(false, [], [], [root]);
      assert Kid(root, h, lo);
      assert Inv(top, h + 1, lo);
      SplitInv(top, 0, h + 1, lo);
      SplitFlat(top, 0, h + 1, lo);
      assert Flat(top) == Flat(root);
      var g := GrowRoot(root);
      var m := root.keys[MIN_KEYS];
      assert g.keys == [m];
      if k == m {
        assert k in root.keys;
      } else {
        HalfCollides(top, 0, k, h + 1, lo);
        assert FirstGreater(g.keys, k) == if k > m then 1 else 0;
      }
    }
  }

  function Insert<V>(root: Node<V>, k: int, v: V, ghost h: nat, ghost lo: nat): (Node<V>, Option<V>)
    requires Inv(root, h, lo) && Sorted(Flat(root)) && lo <= MIN_KEYS
  {
    GrowKeeps(root, k, h, lo);
    InsertNonFull(GrowRoot(root), k, v, GrownHeight(root, h), lo)
  }

  /** Removal below the root, then promotion of an only child if something was removed. */
  function Remove<V>(root: Node<V>, k: int, ghost h: nat): Removal<V>
    requires Inv(root, h, 0)
  {
    match RemoveFrom(root, k, h)
    case Panic => Panic
    case Removed(n, None) => Removed(n, None)
    case Removed(n, Some(v)) =>
      if n.keys == [] && !n.isLeaf && n.children != [] then Removed(n.children[|n.children| - 1], Some(v))
      else Removed(n, Some(v))
  }

  // --------------------------------------------------------------- theorems

  /** The textbook invariant: equal depth, 7 to 15 keys below the root, an internal root has a key. */
  ghost predicate Textbook<V>(n: Node<V>, h: nat) {
    Inv(n, h, MIN_KEYS) && (h > 0 ==> n.keys != []) && Sorted(Flat(n))
  }

  /** What every removal that does not panic and every insertion that does not collide keeps. */
  ghost predicate Ordered<V>(n: Node<V>, h: nat) {
    Inv(n, h, 0) && Sorted(Flat(n))
  }

  lemma {:induction false} TextbookIsOrdered<V>(n: Node<V>, h: nat, lo: nat)
    requires Inv(n, h, lo)
    ensures Inv(n, h, 0)
    decreases h
  {
    if h > 0 {
      forall i | 0 <= i < |n.children| ensures Kid(n.children[i], h - 1, 0) {
        KidAt(n, h, lo, i);
        TextbookIsOrdered(n.children[i], h - 1, lo);
      }
    }
  }

  lemma {:induction false} InsertAtRoot<V>(root: Node<V>, k: int, v: V, h: nat, lo: nat)
    requires Inv(root, h, lo) && Sorted(Flat(root)) && lo <= MIN_KEYS
    ensures var (root', was) := Insert(root, k, v, h, lo);
      Inv(root', GrownHeight(root, h), lo) && Inserted(root, k, v, root', was)
    ensures h > 0 ==> root.keys != [] ==> Insert(root, k, v, h, lo).0.keys != []
    ensures Full(root) ==> Insert(root, k, v, h, lo).0.keys != []
  {
    hide Flat, Sorted, Inv, Collides, InsertNonFull, Put, Lookup, Duplicated;
    GrowKeeps(root, k, h, lo);
    InsertSpec(GrowRoot(root), k, v, GrownHeight(root, h), lo);
  }

  /**
   Insertion is map update, and reports the value it replaced, exactly when k is
   not the median of a full node below the root.
   */
  lemma {:induction false} InsertIsUpdateIff<V>(root: Node<V>, k: int, v: V, h: nat)
    requires Ordered(root, h)
    ensures var (root', was) := Insert(root, k, v, h, 0); var m := Contents(Flat(root));
      (Sorted(Flat(root')) && Contents(Flat(root')) == m[k := v]
        && was == (if k in m then Some(m[k]) else None))
      <==> !Collides(root, k)
  {
    hide Flat, Lookup, Lower, Upper, Collides, Inv, Insert;
    InsertAtRoot(root, k, v, h, 0);
    var root' := Insert(root, k, v, h, 0).0;
    var s := Flat(root);
    LookupKeys(s);
    if Collides(root, k) {
      var a := Lower(s, k);
      assert Flat(root')[|a|].0 == Flat(root')[|a| + 1].0;
    } else {
      PutIsUpdate(s, k, v);
    }
  }

  /** A key that is not in the tree never collides. */
  lemma {:induction false} AbsentNeverCollides<V>(root: Node<V>, k: int, v: V, h: nat)
    requires Ordered(root, h) && Lookup(Flat(root), k) == None
    ensures !Collides(root, k)
  {
    InsertAtRoot(root, k, v, h, 0);
  }

  /** Inserting an absent key keeps the textbook invariant whole and adds one item. */
  lemma {:induction false} InsertAbsentKeepsTextbook<V>(root: Node<V>, k: int, v: V, h: nat)
    requires Textbook(root, h) && k !in Contents(Flat(root))
    ensures var (root', was) := Insert(root, k, v, h, MIN_KEYS);
      && Textbook(root', GrownHeight(root, h))
      && Contents(Flat(root')) == Contents(Flat(root))[k := v]
      && |Flat(root')| == |Flat(root)| + 1 && was == None
  {
    LookupKeys(Flat(root));
    TextbookIsOrdered(root, h, MIN_KEYS);
    AbsentNeverCollides(root, k, v, h);
    InsertAtRoot(root, k, v, h, MIN_KEYS);
    hide Flat, Lookup, Lower, Upper, Collides, Inv, Insert;
    PutIsUpdate(Flat(root), k, v);
  }

  /** Removal at the root in terms of the item sequence. */
  ghost predicate RemovedAtRoot<V>(root: Node<V>, k: int, h: nat, r: Removal<V>) {
    match r
    case Panic => Starved(root) || Stranded(root, k)
    case Removed(root', was) =>
      && !Starved(root) && !Stranded(root, k)
      && (Inv(root', h, 0) || (h > 0 && Inv(root', h - 1, 0)))
      && Flat(root') == Del(Flat(root), k) && was == Lookup(Flat(root), k)
  }

  lemma {:induction false} RemoveAtRoot<V>(root: Node<V>, k: int, h: nat)
    requires Ordered(root, h)
    ensures RemovedAtRoot(root, k, h, Remove(root, k, h))
  {
    if Starved(root) {
      StarvedPanics(root, k, h);
    } else {
      RemoveSpec(root, k, h);
      hide Flat, Lookup, Del, Inv, Stranded, RemoveFrom, Sorted;
      match RemoveFrom(root, k, h)
      case Panic =>
      case Removed(n, v) =>
        if v.Some? && n.keys == [] && !n.isLeaf { OnlyChild(n, h); }
    }
  }

  /** Removal panics in exactly two situations; otherwise it is map removal and keeps order and depth. */
  lemma {:induction false} RemoveIsRemovalIff<V>(root: Node<V>, k: int, h: nat)
    requires Ordered(root, h)
    ensures Remove(root, k, h) == Panic <==> Starved(root) || Stranded(root, k)
    ensures match Remove(root, k, h)
      case Panic => true
      case Removed(root', was) =>
        var m := Contents(Flat(root));
        && (Ordered(root', h) || (h > 0 && Ordered(root', h - 1)))
        && Contents(Flat(root')) == m - {k}
        && was == (if k in m then Some(m[k]) else None)
        && |Flat(root')| == |Flat(root)| - if was.Some? then 1 else 0
  {
    RemoveAtRoot(root, k, h);
    LookupKeys(Flat(root));
    hide Flat, Lookup, Del, Inv, Stranded, Starved, Sorted, Remove;
    DelIsRemoval(Flat(root), k);
  }

  lemma {:induction false} StarvedPanics<V>(root: Node<V>, k: int, h: nat)
    requires Inv(root, h, 0) && Starved(root)
    ensures Remove(root, k, h) == Panic
  {
  }

  lemma {:induction false} OnlyChild<V>(n: Node<V>, h: nat)
    requires Inv(n, h, 0) && !n.isLeaf && n.keys == []
    ensures |n.children| == 1 && h > 0 && Inv(n.children[0], h - 1, 0) && Flat(n.children[0]) == Flat(n)
  {
    KidAt(n, h, 0, 0);
  }

  lemma {:induction false} FilledLeaves<V>(c: Node<V>, h: nat)
    requires Kid(c, h, MIN_KEYS)
    ensures !LastLeafEmpty(c) && !FirstLeafEmpty(c)
    decreases h
  {
    if h > 0 {
      KidAt(c, h, MIN_KEYS, 0);
      KidAt(c, h, MIN_KEYS, |c.children| - 1);
      FilledLeaves(c.children[0], h - 1);
      FilledLeaves(c.children[|c.children| - 1], h - 1);
    }
  }

  lemma {:induction false} NeverStuck<V>(l: Node<V>, r: Node<V>, h: nat)
    requires Kid(l, h, MIN_KEYS) && Kid(r, h, MIN_KEYS)
    ensures !Stuck(l, r)
    decreases h
  {
    FilledLeaves(l, h);
    FilledLeaves(r, h);
    if h > 0 {
      KidAt(l, h, MIN_KEYS, |l.children| - 1);
      KidAt(r, h, MIN_KEYS, 0);
      NeverStuck(l.children[|l.children| - 1], r.children[0], h - 1);
    }
  }

  /** On a tree that meets the textbook invariant no removal panics. */
  lemma {:induction false} TextbookNeverPanics<V>(n: Node<V>, k: int, h: nat)
    requires Inv(n, h, MIN_KEYS) && (h > 0 ==> n.keys != [])
    ensures !Starved(n) && !Stranded(n, k)
    decreases h
  {
    if h > 0 {
      match Position(n.keys, k)
      case Some(pos) =>
        KidAt(n, h, MIN_KEYS, pos);
        KidAt(n, h, MIN_KEYS, pos + 1);
        NeverStuck(n.children[pos], n.children[pos + 1], h - 1);
      case None =>
        KidAt(n, h, MIN_KEYS, FirstGreater(n.keys, k));
        TextbookNeverPanics(n.children[FirstGreater(n.keys, k)], k, h - 1);
    }
  }

  // ------------------------------------------------------------- lookup

  function Get<V>(n: Node<V>, k: int): Option<V>
  {
    match Position(n.keys, k)
    case Some(pos) => if pos < |n.values| then Some(n.values[pos]) else None
    case None =>
      var i := FirstGreater(n.keys, k);
      if n.isLeaf || i >= |n.children| then None else Get(n.children[i], k)
  }

  /** Lookup agrees with the map. */
  lemma {:induction false} GetSpec<V>(n: Node<V>, k: int, h: nat)
    requires Inv(n, h, 0) && Sorted(Flat(n))
    ensures Get(n, k) == Lookup(Flat(n), k)
    decreases h
  {
    KindOf(n, h, 0);
    match Position(n.keys, k)
    case Some(pos) =>
      if n.isLeaf { OverwriteLeaf(n, pos, n.values[pos]); } else { OverwriteInner(n, pos, n.values[pos]); }
    case None =>
      var i := FirstGreater(n.keys, k);
      if n.isLeaf {
        LeafCut(n, k, i);
        assert Flat(n) == Flat(n)[..i] + Flat(n)[i..];
        Miss(Flat(n)[..i], k, Flat(n)[i..]);
      } else {
        KidAt(n, h, 0, i);
        var a, c := Descend(n, k);
        GetSpec(n.children[i], k, h - 1);
        hide Flat, Lookup, Front, Tail;
        Within(a, Flat(n.children[i]), c, k);
      }
  }

  /** `first_in_node`: the first item of the leftmost leaf. */
  function FirstInNode<V>(n: Node<V>): Option<Item<V>> {
    if n.isLeaf then
      if n.keys == [] || n.values == [] then None else Some((n.keys[0], n.values[0]))
    else if n.children == [] then None
    else FirstInNode(n.children[0])
  }

  lemma {:induction false} FirstOfLeaf<V>(n: Node<V>, h: nat)
    requires Inv(n, h, 0)
    ensures if FirstLeafEmpty(n) then FirstInNode(n) == None
            else Flat(n) != [] && FirstInNode(n) == Some(Flat(n)[0])
    decreases h
  {
    if h > 0 {
      KidAt(n, h, 0, 0);
      FirstOfLeaf(n.children[0], h - 1);
    }
  }

  /** `last_in_node`: the last item of the rightmost leaf. */
  function LastInNode<V>(n: Node<V>): Option<Item<V>> {
    if n.isLeaf then
      if n.keys == [] || n.values == [] then None else Some((n.keys[|n.keys| - 1], n.values[|n.values| - 1]))
    else if n.children == [] then None
    else LastInNode(n.children[|n.children| - 1])
  }

  lemma {:induction false} LastOfLeaf<V>(n: Node<V>, h: nat)
    requires Inv(n, h, 0)
    ensures if LastLeafEmpty(n) then LastInNode(n) == None
            else Flat(n) != [] && LastInNode(n) == Some(Flat(n)[|Flat(n)| - 1])
    decreases h
  {
    if h > 0 {
      var i := |n.children| - 1;
      KidAt(n, h, 0, i);
      LastOfLeaf(n.children[i], h - 1);
      KindOf(n, h, 0);
      hide Flat, Front;
      Focus(n, i);
      assert n.keys[i..] == [] && n.children[i + 1..] == [];
    }
  }
}
