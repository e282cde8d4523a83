/**
 B-tree removal.  A key in an internal node is replaced by its neighbour from a
 leaf, and that leaf is not rebalanced, so removal keeps order, equal depth and
 the occupancy of internal nodes but lets leaves run empty.  `Stranded` is the
 exact case in which a later removal then finds nothing to take and panics.
 */
module BTreeRemove {
  import opened Common
  import opened SortedItems
  import opened BTreeNode
  import opened BTreeInsert

  // --------------------------------------------------- rebalancing one child

  function MergeChildren<V>(p: Node<V>, i: nat): Node<V>
    requires i < |p.keys| == |p.values| && i + 1 < |p.children|
  {
    var g := Glue(p.children[i], p.keys[i], p.values[i], p.children[i + 1]);
    Node(p.isLeaf, p.keys[..i] + p.keys[i + 1..], p.values[..i] + p.values[i + 1..],
         p.children[..i] + [g] + p.children[i + 2..])
  }

  predicate Lends<V>(n: Node<V>) {
    |n.keys| == |n.values| > 0 && (!n.isLeaf ==> |n.children| == |n.keys| + 1)
  }

  /** The node without its last key and, if internal, its last child. */
  function DropLast<V>(l: Node<V>): Node<V>
    requires Lends(l)
  {
    var m := |l.keys| - 1;
    Node(l.isLeaf, l.keys[..m], l.values[..m], if l.isLeaf then l.children else l.children[..m + 1])
  }

  function DropFirst<V>(r: Node<V>): Node<V>
    requires Lends(r)
  {
    Node(r.isLeaf, r.keys[1..], r.values[1..], if r.isLeaf then r.children else r.children[1..])
  }

  /** The last (first) child of a node, on its own: what moves with a borrowed key. */
  function LastChild<V>(l: Node<V>): Node<V>
    requires !l.isLeaf ==> l.children != []
  {
    Node(l.isLeaf, [], [], if l.isLeaf then [] else [l.children[|l.children| - 1]])
  }

  function FirstChild<V>(r: Node<V>): Node<V>
    requires !r.isLeaf ==> r.children != []
  {
    Node(r.isLeaf, [], [], if r.isLeaf then [] else [r.children[0]])
  }

  function BorrowFromLeft<V>(p: Node<V>, i: nat): Node<V>
    requires Inner(p) && 0 < i < |p.children|
    requires Lends(p.children[i - 1])
  {
    var l, c := p.children[i - 1], p.children[i];
    var m := |l.keys| - 1;
    p.(keys := p.keys[i - 1 := l.keys[m]],
       values := p.values[i - 1 := l.values[m]],
       children := p.children[i - 1 := DropLast(l)][i := Glue(LastChild(l), p.keys[i - 1], p.values[i - 1], c)])
  }

  function BorrowFromRight<V>(p: Node<V>, i: nat): Node<V>
    requires Inner(p) && i + 1 < |p.children|
    requires Lends(p.children[i + 1])
  {
    var c, r := p.children[i], p.children[i + 1];
    p.(keys := p.keys[i := r.keys[0]],
       values := p.values[i := r.values[0]],
       children := p.children[i := Glue(c, p.keys[i], p.values[i], FirstChild(r))][i + 1 := DropFirst(r)])
  }

  /** `None` is the panic of `keys.remove(0)` on a node without keys. */
  function FixChild<V>(p: Node<V>, i: nat, ghost h: nat): Option<Node<V>>
    requires Inv(p, h, 0) && h > 0 && i < |p.children|
  {
    KindOf(p, h, 0);
    if i > 0 && |p.children[i - 1].keys| > MIN_KEYS then
      KidAt(p, h, 0, i - 1);
      Some(BorrowFromLeft(p, i))
    else if i < |p.children| - 1 && |p.children[i + 1].keys| > MIN_KEYS then
      KidAt(p, h, 0, i + 1);
      Some(BorrowFromRight(p, i))
    else if i > 0 then Some(MergeChildren(p, i - 1))
    else if p.keys == [] then None
    else Some(MergeChildren(p, i))
  }

  lemma {:induction false} Twins<V>(l: Node<V>, r: Node<V>, h: nat)
    requires Inv(l, h, 0) && Inv(r, h, 0)
    ensures (Inner(l) && Inner(r)) || (Outer(l) && Outer(r))
  {
  }

  lemma {:induction false} DropLastGlues<V>(l: Node<V>, h: nat)
    requires Inv(l, h, 0) && |l.keys| > 0
    ensures Inv(DropLast(l), h, 0) && Inv(LastChild(l), h, 0)
    ensures l == Glue(DropLast(l), l.keys[|l.keys| - 1], l.values[|l.keys| - 1], LastChild(l))
  {
    forall j | 0 <= j < |l.children| ensures Kid(l.children[j], h - 1, 0) { KidAt(l, h, 0, j); }
  }

  lemma {:induction false} DropFirstGlues<V>(r: Node<V>, h: nat)
    requires Inv(r, h, 0) && |r.keys| > 0
    ensures Inv(DropFirst(r), h, 0) && Inv(FirstChild(r), h, 0)
    ensures r == Glue(FirstChild(r), r.keys[0], r.values[0], DropFirst(r))
  {
    forall j | 0 <= j < |r.children| ensures Kid(r.children[j], h - 1, 0) { KidAt(r, h, 0, j); }
  }

  lemma {:induction false} MergeKeeps<V>(p: Node<V>, i: nat, h: nat)
    requires Inv(p, h, 0) && h > 0 && i < |p.keys|
    requires |p.children[i].keys| <= MIN_KEYS && |p.children[i + 1].keys| <= MIN_KEYS
    ensures Inv(MergeChildren(p, i), h, 0) && Flat(MergeChildren(p, i)) == Flat(p)
  {
    var l, r := p.children[i], p.children[i + 1];
    KidAt(p, h, 0, i);
    KidAt(p, h, 0, i + 1);
    KindOf(p, h, 0);
    Twins(l, r, h - 1);
    var g, n := Glue(l, p.keys[i], p.values[i], r), MergeChildren(p, i);
    GlueInv(l, p.keys[i], p.values[i], r, h - 1, 0);
    forall j | 0 <= j < |n.children| ensures Kid(n.children[j], h - 1, 0) {
      if j < i { KidAt(p, h, 0, j); } else if j > i { KidAt(p, h, 0, j + 1); }
    }
    hide Flat, Front, Tail;
    GlueFlat(l, p.keys[i], p.values[i], r);
    Pair(p, i);
    PairMerged(p, i, g);
  }

  lemma {:induction false} BorrowLeftKeeps<V>(p: Node<V>, i: nat, h: nat)
    requires Inv(p, h, 0) && h > 0 && 0 < i < |p.children| && Inner(p)
    requires |p.children[i - 1].keys| > MIN_KEYS && |p.children[i].keys| <= MIN_KEYS
    requires Kid(p.children[i - 1], h - 1, 0) && Lends(p.children[i - 1])
    ensures Inv(BorrowFromLeft(p, i), h, 0) && Flat(BorrowFromLeft(p, i)) == Flat(p)
  {
    var l, c := p.children[i - 1], p.children[i];
    var m := |l.keys| - 1;
    KidAt(p, h, 0, i);
    DropLastGlues(l, h - 1);
    var l', x, c' := DropLast(l), LastChild(l), Glue(LastChild(l), p.keys[i - 1], p.values[i - 1], c);
    GlueInv(x, p.keys[i - 1], p.values[i - 1], c, h - 1, 0);
    KidsReplaced(p, i - 1, l', l.keys[m], l.values[m], c', h);
    Twins(x, c, h - 1);
    Twins(l', x, h - 1);
    hide Flat, Front, Tail, Inv, Kids, Kid;
    GlueFlat(x, p.keys[i - 1], p.values[i - 1], c);
    GlueFlat(l', l.keys[m], l.values[m], x);
    Pair(p, i - 1);
    PairReplaced(p, i - 1, l', l.keys[m], l.values[m], c');
    Rotate(Flat(l'), (l.keys[m], l.values[m]), Flat(x), (p.keys[i - 1], p.values[i - 1]), Flat(c));
  }

  lemma {:induction false} BorrowRightKeeps<V>(p: Node<V>, i: nat, h: nat)
    requires Inv(p, h, 0) && h > 0 && i + 1 < |p.children| && Inner(p)
    requires |p.children[i + 1].keys| > MIN_KEYS && |p.children[i].keys| <= MIN_KEYS
    requires Kid(p.children[i + 1], h - 1, 0) && Lends(p.children[i + 1])
    ensures Inv(BorrowFromRight(p, i), h, 0) && Flat(BorrowFromRight(p, i)) == Flat(p)
  {
    var c, r := p.children[i], p.children[i + 1];
    KidAt(p, h, 0, i);
    DropFirstGlues(r, h - 1);
    var r', x, c' := DropFirst(r), FirstChild(r), Glue(c, p.keys[i], p.values[i], FirstChild(r));
    GlueInv(c, p.keys[i], p.values[i], x, h - 1, 0);
    KidsReplaced(p, i, c', r.keys[0], r.values[0], r', h);
    Twins(c, x, h - 1);
    Twins(x, r', h - 1);
    hide Flat, Front, Tail, Inv, Kids, Kid;
    GlueFlat(c, p.keys[i], p.values[i], x);
    GlueFlat(x, r.keys[0], r.values[0], r');
    Pair(p, i);
    PairReplaced(p, i, c', r.keys[0], r.values[0], r');
    Rotate(Flat(c), (p.keys[i], p.values[i]), Flat(x), (r.keys[0], r.values[0]), Flat(r'));
  }

  lemma {:induction false} Rotate<T>(a: seq<T>, x: T, b: seq<T>, y: T, c: seq<T>)
    ensures (a + [x] + b) + [y] + c == a + [x] + (b + [y] + c)
  {
  }

  lemma {:induction false} KidsReplaced<V>(p: Node<V>, i: nat, l: Node<V>, k: int, v: V, r: Node<V>, h: nat)
    requires Inv(p, h, 0) && h > 0 && i + 1 < |p.children| && Kid(l, h - 1, 0) && Kid(r, h - 1, 0)
    ensures Inv(p.(keys := p.keys[i := k], values := p.values[i := v],
                   children := p.children[i := l][i + 1 := r]), h, 0)
  {
    var cs := p.children[i := l][i + 1 := r];
    forall j | 0 <= j < |cs| ensures Kid(cs[j], h - 1, 0) {
      if j != i && j != i + 1 { KidAt(p, h, 0, j); }
    }
  }

  /** Fixing a child keeps contents and shape, and fails only in a node without keys. */
  lemma {:induction false} FixKeeps<V>(p: Node<V>, i: nat, h: nat)
    requires Inv(p, h, 0) && h > 0 && i < |p.children| && |p.children[i].keys| <= MIN_KEYS
    ensures FixChild(p, i, h) == None <==> p.keys == []
    ensures var f := FixChild(p, i, h); f.Some? ==>
      Inv(f.value, h, 0) && Flat(f.value) == Flat(p) && |f.value.keys| >= |p.keys| - 1
  {
    KindOf(p, h, 0);
    if i > 0 { KidAt(p, h, 0, i - 1); KindOf(p.children[i - 1], h - 1, 0); }
    if i < |p.children| - 1 { KidAt(p, h, 0, i + 1); KindOf(p.children[i + 1], h - 1, 0); }
    hide Inv, Flat;
    if i > 0 && |p.children[i - 1].keys| > MIN_KEYS {
      BorrowLeftKeeps(p, i, h);
    } else if i < |p.children| - 1 && |p.children[i + 1].keys| > MIN_KEYS {
      BorrowRightKeeps(p, i, h);
    } else if i > 0 {
      MergeKeeps(p, i - 1, h);
    } else if p.keys != [] {
      MergeKeeps(p, i, h);
    }
  }

  // ------------------------------------------------- taking the extreme item

  /** `None` is the panic of `keys.pop().unwrap()` on an empty leaf. */
  function RemoveMax<V>(n: Node<V>): Option<(Node<V>, int, V)> {
    if n.isLeaf then
      if n.keys == [] || n.values == [] then None
      else
        var m := |n.keys| - 1;
        var w := |n.values| - 1;
        Some((n.(keys := n.keys[..m], values := n.values[..w]), n.keys[m], n.values[w]))
    else if n.children == [] then None
    else
      var i := |n.children| - 1;
      match RemoveMax(n.children[i])
      case None => None
      case Some((c, k, v)) => Some((n.(children := n.children[i := c]), k, v))
  }

  /** `None` is the panic of `keys.remove(0)` on an empty leaf. */
  function RemoveMin<V>(n: Node<V>): Option<(Node<V>, int, V)> {
    if n.isLeaf then
      if n.keys == [] || n.values == [] then None
      else Some((n.(keys := n.keys[1..], values := n.values[1..]), n.keys[0], n.values[0]))
    else if n.children == [] then None
    else
      match RemoveMin(n.children[0])
      case None => None
      case Some((c, k, v)) => Some((n.(children := n.children[0 := c]), k, v))
  }

  /** The rightmost (leftmost) leaf holds nothing. */
  predicate LastLeafEmpty<V>(n: Node<V>) {
    if n.isLeaf then n.keys == []
    else n.children != [] && LastLeafEmpty(n.children[|n.children| - 1])
  }

  predicate FirstLeafEmpty<V>(n: Node<V>) {
    if n.isLeaf then n.keys == [] else n.children != [] && FirstLeafEmpty(n.children[0])
  }

  ghost predicate Taken<V>(n: Node<V>, n': Node<V>, h: nat) {
    Inv(n', h, 0) && |n'.keys| == (if h == 0 then |n.keys| - 1 else |n.keys|)
  }

  lemma {:induction false} RemoveMaxSpec<V>(n: Node<V>, h: nat)
    requires Inv(n, h, 0)
    ensures RemoveMax(n) == None <==> LastLeafEmpty(n)
    ensures match RemoveMax(n)
      case None => true
      case Some((n', k, v)) => Taken(n, n', h) && Flat(n) == Flat(n') + [(k, v)]
    decreases h
  {
    if h > 0 {
      var i := |n.children| - 1;
      KidAt(n, h, 0, i);
      RemoveMaxSpec(n.children[i], h - 1);
      match RemoveMax(n.children[i])
      case None =>
      case Some((c, k, v)) =>
        KidReplaced(n, h, 0, i, c);
        KindOf(n, h, 0);
        hide Flat, Front;
        Focus(n, i);
        Refocus(n, i, c);
    }
  }

  lemma {:induction false} RemoveMinSpec<V>(n: Node<V>, h: nat)
    requires Inv(n, h, 0)
    ensures RemoveMin(n) == None <==> FirstLeafEmpty(n)
    ensures match RemoveMin(n)
      case None => true
      case Some((n', k, v)) => Taken(n, n', h) && Flat(n) == [(k, v)] + Flat(n')
    decreases h
  {
    if h > 0 {
      KidAt(n, h, 0, 0);
      RemoveMinSpec(n.children[0], h - 1);
      match RemoveMin(n.children[0])
      case None =>
      case Some((c, k, v)) =>
        KidReplaced(n, h, 0, 0, c);
        KindOf(n, h, 0);
        hide Flat, Tail;
        Focus(n, 0);
        Refocus(n, 0, c);
    }
  }

  /** A repair borrows from the left if it can, else from the right, and else merges, with the left if there is one. */
  lemma {:induction false} FixSizes<V>(p: Node<V>, i: nat, h: nat)
    requires Inv(p, h, 0) && h > 0 && i < |p.children|
    ensures var cs, f := p.children, FixChild(p, i, h);
      if i > 0 && |cs[i - 1].keys| > MIN_KEYS then
        && f.Some? && |f.value.children| == |cs| && f.value.children[i + 1..] == cs[i + 1..]
        && |f.value.children[i - 1].keys| == |cs[i - 1].keys| - 1 && |f.value.children[i].keys| == |cs[i].keys| + 1
      else if i + 1 < |cs| && |cs[i + 1].keys| > MIN_KEYS then
        && f.Some? && |f.value.children| == |cs| && f.value.children[..i] == cs[..i]
        && |f.value.children[i + 1].keys| == |cs[i + 1].keys| - 1 && |f.value.children[i].keys| == |cs[i].keys| + 1
      else if |cs| == 1 then f == None
      else
        var j := if i > 0 then i - 1 else 0;
        && f.Some? && |f.value.children| == |cs| - 1 && f.value.children[..j] == cs[..j]
        && |f.value.children[j].keys| == |cs[j].keys| + 1 + |cs[j + 1].keys| && f.value.children[j + 1..] == cs[j + 2..]
  {
    KindOf(p, h, 0);
    if i > 0 { KidAt(p, h, 0, i - 1); }
    KidAt(p, h, 0, i);
    if i + 1 < |p.children| { KidAt(p, h, 0, i + 1); }
  }

  // ------------------------------------------------------------------ remove

  datatype Removal<V> = Panic | Removed(node: Node<V>, value: Option<V>)

  function WithChild<V>(n: Node<V>, i: nat, r: Removal<V>): Removal<V>
    requires i < |n.children|
  {
    match r
    case Panic => Panic
    case Removed(c, v) => Removed(n.(children := n.children[i := c]), v)
  }

  /** The key at `pos` gives way to the item taken from child `i`. */
  function Substitute<V>(n: Node<V>, pos: nat, i: nat, taken: Option<(Node<V>, int, V)>): Removal<V>
    requires pos < |n.keys| == |n.values| && i < |n.children|
  {
    match taken
    case None => Panic
    case Some((c, k, v)) =>
      Removed(n.(keys := n.keys[pos := k], values := n.values[pos := v], children := n.children[i := c]),
              Some(n.values[pos]))
  }

  function RemoveFrom<V>(n: Node<V>, k: int, ghost h: nat): Removal<V>
    requires Inv(n, h, 0)
    decreases h
  {
    match Position(n.keys, k)
    case Some(pos) =>
      if n.isLeaf then
        Removed(n.(keys := n.keys[..pos] + n.keys[pos + 1..], values := n.values[..pos] + n.values[pos + 1..]),
                Some(n.values[pos]))
      else if |n.children[pos].keys| > MIN_KEYS then Substitute(n, pos, pos, RemoveMax(n.children[pos]))
      else if |n.children[pos + 1].keys| > MIN_KEYS then Substitute(n, pos, pos + 1, RemoveMin(n.children[pos + 1]))
      else
        MergeKeeps(n, pos, h);
        var m := MergeChildren(n, pos);
        KidAt(m, h, 0, pos);
        WithChild(m, pos, RemoveFrom(m.children[pos], k, h - 1))
    case None =>
      if n.isLeaf then Removed(n, None)
      else
        match Repaired(n, k, h)
        case None => Panic
        case Some(f) =>
          var j := FirstGreater(f.keys, k);
          KidAt(f, h, 0, j);
          WithChild(f, j, RemoveFrom(f.children[j], k, h - 1))
  }

  /** A key between two children gives way to its predecessor if the left one can spare it, else to its successor. */
  lemma {:induction false} KeyGivesWay<V>(n: Node<V>, k: int, pos: nat, h: nat)
    requires Inv(n, h, 0) && h > 0 && Position(n.keys, k) == Some(pos) && pos < |n.keys|
    ensures pos + 1 < |n.children| && |n.values| == |n.keys|
    ensures var l, r, m := n.children[pos], n.children[pos + 1], RemoveFrom(n, k, h);
      && (m.Removed? && |l.keys| > MIN_KEYS ==>
          && m.value == Some(n.values[pos]) && |m.node.children| == |n.children| && m.node.children[pos + 1] == r
          && |m.node.keys| == |m.node.values| == |n.keys|
          && Flat(l) == Flat(m.node.children[pos]) + [(m.node.keys[pos], m.node.values[pos])])
      && (m.Removed? && |l.keys| <= MIN_KEYS < |r.keys| ==>
          && m.value == Some(n.values[pos]) && |m.node.children| == |n.children| && m.node.children[pos] == l
          && |m.node.keys| == |m.node.values| == |n.keys|
          && Flat(r) == [(m.node.keys[pos], m.node.values[pos])] + Flat(m.node.children[pos + 1]))
  {
    hide Flat;
    KindOf(n, h, 0);
    KidAt(n, h, 0, pos);
    KidAt(n, h, 0, pos + 1);
    RemoveMaxSpec(n.children[pos], h - 1);
    RemoveMinSpec(n.children[pos + 1], h - 1);
  }

  /** The node after the child on the path to k has been given enough keys. */
  function Repaired<V>(n: Node<V>, k: int, ghost h: nat): (r: Option<Node<V>>)
    requires Inv(n, h, 0) && h > 0
    ensures r.Some? ==> Inv(r.value, h, 0)
  {
    var i := FirstGreater(n.keys, k);
    if |n.children[i].keys| <= MIN_KEYS then
      FixKeeps(n, i, h);
      FixChild(n, i, h)
    else Some(n)
  }

  /** Neither neighbour of a separator can give up an item, or the merged pair is in that state below. */
  predicate Stuck<V>(l: Node<V>, r: Node<V>)
    decreases l
  {
    if |l.keys| > MIN_KEYS then LastLeafEmpty(l)
    else if |r.keys| > MIN_KEYS then FirstLeafEmpty(r)
    else if l.isLeaf || l.children == [] || r.children == [] then false
    else Stuck(l.children[|l.children| - 1], r.children[0])
  }

  /** k separates two children of an internal node that are stuck. */
  predicate Stranded<V>(n: Node<V>, k: int) {
    if n.isLeaf || |n.children| != |n.keys| + 1 then false
    else
      match Position(n.keys, k)
      case Some(pos) => Stuck(n.children[pos], n.children[pos + 1])
      case None => Stranded(n.children[FirstGreater(n.keys, k)], k)
  }

  /** The root lost its only key to a merge and its one child has too few keys to go on. */
  predicate Starved<V>(n: Node<V>) {
    !n.isLeaf && n.keys == [] && n.children != [] && |n.children[0].keys| <= MIN_KEYS
  }

  ghost predicate RemovedFrom<V>(n: Node<V>, k: int, h: nat, r: Removal<V>) {
    match r
    case Panic => Stranded(n, k)
    case Removed(n', v) =>
      && !Stranded(n, k)
      && Inv(n', h, 0) && (h > 0 ==> |n'.keys| >= |n.keys| - 1)
      && Flat(n') == Del(Flat(n), k) && v == Lookup(Flat(n), k)
  }

  /** Joining a node to one that lies wholly beyond k does not change what happens at k. */
  lemma {:induction false} StrandedInGlue<V>(l: Node<V>, m: int, v: V, r: Node<V>, k: int)
    requires (Inner(l) && Inner(r)) || (Outer(l) && Outer(r))
    requires Ascending(l.keys + [m] + r.keys)
    ensures k < m ==> Stranded(Glue(l, m, v, r), k) == Stranded(l, k)
    ensures k > m ==> Stranded(Glue(l, m, v, r), k) == Stranded(r, k)
    ensures k == m ==> (Stranded(Glue(l, m, v, r), k) == (!l.isLeaf && Stuck(l.children[|l.keys|], r.children[0])))
  {
    hide Stranded, Stuck, Glue;
    if k < m {
      StrandedLeft(l, m, v, r, k);
    } else if k > m {
      StrandedRight(l, m, v, r, k);
    } else {
      StrandedMiddle(l, m, v, r);
    }
  }

  lemma {:induction false} StrandedLeft<V>(l: Node<V>, m: int, v: V, r: Node<V>, k: int)
    requires (Inner(l) && Inner(r)) || (Outer(l) && Outer(r))
    requires Ascending(l.keys + [m] + r.keys) && k < m
    ensures Stranded(Glue(l, m, v, r), k) == Stranded(l, k)
  {
    hide Stuck, Position, FirstGreater;
    GluedLeft(l.keys, m, r.keys, k);
  }

  lemma {:induction false} StrandedRight<V>(l: Node<V>, m: int, v: V, r: Node<V>, k: int)
    requires (Inner(l) && Inner(r)) || (Outer(l) && Outer(r))
    requires Ascending(l.keys + [m] + r.keys) && k > m
    ensures Stranded(Glue(l, m, v, r), k) == Stranded(r, k)
  {
    hide Stuck, Position, FirstGreater;
    GluedRight(l.keys, m, r.keys, k);
  }

  lemma {:induction false} StrandedMiddle<V>(l: Node<V>, m: int, v: V, r: Node<V>)
    requires (Inner(l) && Inner(r)) || (Outer(l) && Outer(r))
    requires Ascending(l.keys + [m] + r.keys)
    ensures Stranded(Glue(l, m, v, r), m) == (!l.isLeaf && Stuck(l.children[|l.keys|], r.children[0]))
  {
    hide Stuck, Position, FirstGreater;
    var g := Glue(l, m, v, r);
    GluedBounds(l.keys, m, r.keys);
    assert g.keys[..|l.keys|] == l.keys;
    PositionUnique(g.keys, m, |l.keys|);
  }

  lemma {:induction false} LeafRemoval<V>(n: Node<V>, k: int)
    requires Inv(n, 0, 0) && Sorted(Flat(n))
    ensures RemovedFrom(n, k, 0, RemoveFrom(n, k, 0))
  {
    hide Lower, Upper, Lookup, FirstGreater, Sorted;
    var z := Flat(n);
    match Position(n.keys, k)
    case Some(pos) =>
      HitAt(z, pos);
      ZipDrop(n.keys, n.values, pos);
    case None =>
      var i := FirstGreater(n.keys, k);
      LeafCut(n, k, i);
      assert z == z[..i] + z[i..];
      Miss(z[..i], k, z[i..]);
  }

  lemma {:induction false} ZipDrop<V>(ks: seq<int>, vs: seq<V>, i: nat)
    requires |ks| == |vs| && i < |ks|
    ensures Zip(ks[..i] + ks[i + 1..], vs[..i] + vs[i + 1..]) == Zip(ks, vs)[..i] + Zip(ks, vs)[i + 1..]
  {
  }

  lemma {:induction false} HitAt<V>(z: seq<Item<V>>, pos: nat)
    requires Sorted(z) && pos < |z|
    ensures Lower(z, z[pos].0) == z[..pos] && Upper(z, z[pos].0) == z[pos + 1..]
    ensures Lookup(z, z[pos].0) == Some(z[pos].1)
  {
    hide Lower, Upper, Lookup, Sorted;
    var k, v := z[pos].0, z[pos].1;
    assert z == z[..pos] + [(k, v)] + z[pos + 1..];
    Separated(z[..pos], (k, v), z[pos + 1..]);
    Hit(z[..pos], k, v, z[pos + 1..]);
  }

  /** After a repair, a fresh search for k reaches the repaired child, and k is where it was. */
  ghost predicate FoundAgain<V>(f: Node<V>, j: nat, c: Node<V>, k: int, h: nat) {
    && k !in f.keys && j == FirstGreater(f.keys, k) && j < |f.children|
    && Stranded(f.children[j], k) == Stranded(c, k)
    && (h > 1 ==> |f.children[j].keys| > MIN_KEYS)
  }

  lemma {:induction false} SwapSearch(ks: seq<int>, i: nat, q: nat, b: int, k: int)
    requires i == FirstGreater(ks, k) && k !in ks && q < |ks|
    requires (q + 1 == i && b < k) || (q == i && b > k)
    ensures k !in ks[q := b] && FirstGreater(ks[q := b], k) == i
  {
    hide FirstGreater;
    FirstGreaterUnique(ks[q := b], k, i);
  }

  lemma {:induction false} MergedSearch(ks: seq<int>, i: nat, q: nat, k: int)
    requires i == FirstGreater(ks, k) && k !in ks && q < |ks| && (q == i || q + 1 == i) && Ascending(ks)
    ensures var s := ks[..q] + ks[q + 1..]; k !in s && FirstGreater(s, k) == q
    ensures if q == i then k < ks[q] else ks[q] < k
  {
    hide FirstGreater;
    assert ks[q] in ks;
    FirstGreaterUnique(ks[..q] + ks[q + 1..], k, q);
  }

  /** The child that absorbed `other` around m treats k as it did before. */
  lemma {:induction false} AbsorbedKeepsPlace<V>(f: Node<V>, j: nat, l: Node<V>, m: int, v: V, r: Node<V>, k: int,
      h: nat)
    requires Inner(f) && Sorted(Flat(f)) && j < |f.children| && f.children[j] == Glue(l, m, v, r)
    requires Inv(l, h, 0) && Inv(r, h, 0) && k != m
    ensures Stranded(f.children[j], k) == Stranded(if k < m then l else r, k)
  {
    Twins(l, r, h);
    hide Flat, Stranded, Inv;
    ChildSorted(f, j);
    KeysAscend(f.children[j]);
    StrandedInGlue(l, m, v, r, k);
  }

  lemma {:induction false} LentFromLeft<V>(p: Node<V>, q: nat, h: nat)
    requires Inner(p) && q < |p.keys| && Sorted(Flat(p)) && Inv(p.children[q], h, 0) && p.children[q].keys != []
    ensures p.children[q].keys[|p.children[q].keys| - 1] < p.keys[q]
  {
    var l := p.children[q];
    var m := |l.keys| - 1;
    DropLastGlues(l, h);
    Twins(DropLast(l), LastChild(l), h);
    hide Flat, Front, Tail, Inv;
    GlueFlat(DropLast(l), l.keys[m], l.values[m], LastChild(l));
    var a, b := Separates(p, q);
    assert (a + Flat(l))[|a| + |Flat(DropLast(l))|].0 == l.keys[m];
  }

  lemma {:induction false} LentFromRight<V>(p: Node<V>, q: nat, h: nat)
    requires Inner(p) && q < |p.keys| && Sorted(Flat(p)) && Inv(p.children[q + 1], h, 0) && p.children[q + 1].keys != []
    ensures p.children[q + 1].keys[0] > p.keys[q]
  {
    var r := p.children[q + 1];
    DropFirstGlues(r, h);
    Twins(FirstChild(r), DropFirst(r), h);
    hide Flat, Front, Tail, Inv;
    GlueFlat(FirstChild(r), r.keys[0], r.values[0], DropFirst(r));
    var a, b := Separates(p, q);
    assert (Flat(r) + b)[|Flat(FirstChild(r))|].0 == r.keys[0];
  }

  lemma {:induction false} BorrowLeftSearch<V>(p: Node<V>, i: nat, k: int, h: nat)
    requires Inv(p, h, 0) && h > 0 && 0 < i < |p.children| && Inner(p) && Sorted(Flat(p))
    requires i == FirstGreater(p.keys, k) && k !in p.keys
    requires |p.children[i - 1].keys| > MIN_KEYS && |p.children[i].keys| <= MIN_KEYS
    requires Kid(p.children[i - 1], h - 1, 0) && Lends(p.children[i - 1])
    ensures FoundAgain(BorrowFromLeft(p, i), i, p.children[i], k, h)
  {
    hide Flat, Inv, Stranded, FirstGreater, Sorted, DropLast, LastChild;
    var l, c, f := p.children[i - 1], p.children[i], BorrowFromLeft(p, i);
    BorrowLeftKeeps(p, i, h);
    KidAt(p, h, 0, i);
    DropLastGlues(l, h - 1);
    LentFromLeft(p, i - 1, h - 1);
    assert h > 1 ==> |f.children[i].keys| == |LastChild(l).keys| + 1 + |c.keys|;
    assert p.keys[i - 1] < k by { assert p.keys[i - 1] in p.keys; }
    SwapSearch(p.keys, i, i - 1, l.keys[|l.keys| - 1], k);
    AbsorbedKeepsPlace(f, i, LastChild(l), p.keys[i - 1], p.values[i - 1], c, k, h - 1);
  }

  lemma {:induction false} BorrowRightSearch<V>(p: Node<V>, i: nat, k: int, h: nat)
    requires Inv(p, h, 0) && h > 0 && i + 1 < |p.children| && Inner(p) && Sorted(Flat(p))
    requires i == FirstGreater(p.keys, k) && k !in p.keys
    requires |p.children[i + 1].keys| > MIN_KEYS && |p.children[i].keys| <= MIN_KEYS
    requires Kid(p.children[i + 1], h - 1, 0) && Lends(p.children[i + 1])
    ensures FoundAgain(BorrowFromRight(p, i), i, p.children[i], k, h)
  {
    hide Flat, Inv, Stranded, FirstGreater, Sorted, DropFirst, FirstChild;
    var c, r, f := p.children[i], p.children[i + 1], BorrowFromRight(p, i);
    BorrowRightKeeps(p, i, h);
    KidAt(p, h, 0, i);
    DropFirstGlues(r, h - 1);
    LentFromRight(p, i, h - 1);
    SwapSearch(p.keys, i, i, r.keys[0], k);
    AbsorbedKeepsPlace(f, i, c, p.keys[i], p.values[i], FirstChild(r), k, h - 1);
  }

  /** Merging around separator q, next to the child on the path to k. */
  lemma {:induction false} MergeSearch<V>(p: Node<V>, i: nat, q: nat, k: int, h: nat)
    requires Inv(p, h, 0) && h > 0 && i < |p.children| && Inner(p) && Sorted(Flat(p))
    requires i == FirstGreater(p.keys, k) && k !in p.keys && q < |p.keys| && (q == i || q + 1 == i)
    requires |p.children[q].keys| <= MIN_KEYS && |p.children[q + 1].keys| <= MIN_KEYS
    ensures FoundAgain(MergeChildren(p, q), q, p.children[i], k, h)
  {
    var l, r, f := p.children[q], p.children[q + 1], MergeChildren(p, q);
    MergeKeeps(p, q, h);
    KindOf(f, h, 0);
    KidAt(p, h, 0, q);
    KidAt(p, h, 0, q + 1);
    hide Flat, Inv, Stranded, FirstGreater;
    KeysAscend(p);
    MergedSearch(p.keys, i, q, k);
    assert f.children[q] == Glue(l, p.keys[q], p.values[q], r);
    AbsorbedKeepsPlace(f, q, l, p.keys[q], p.values[q], r, k, h - 1);
  }

  lemma {:induction false} FixSearch<V>(n: Node<V>, i: nat, k: int, h: nat)
    requires Inv(n, h, 0) && h > 0 && Sorted(Flat(n)) && k !in n.keys && i == FirstGreater(n.keys, k)
    requires Inner(n) && |n.children[i].keys| <= MIN_KEYS && n.keys != []
    ensures var f := FixChild(n, i, h);
      f.Some? && FoundAgain(f.value, FirstGreater(f.value.keys, k), n.children[i], k, h)
  {
    if i > 0 { KidAt(n, h, 0, i - 1); KindOf(n.children[i - 1], h - 1, 0); }
    if i < |n.children| - 1 { KidAt(n, h, 0, i + 1); KindOf(n.children[i + 1], h - 1, 0); }
    hide Inv, Flat, Stranded, FirstGreater, BorrowFromLeft, BorrowFromRight, MergeChildren, Kid, Sorted;
    if i > 0 && |n.children[i - 1].keys| > MIN_KEYS {
      BorrowLeftSearch(n, i, k, h);
    } else if i < |n.children| - 1 && |n.children[i + 1].keys| > MIN_KEYS {
      BorrowRightSearch(n, i, k, h);
    } else if i > 0 {
      MergeSearch(n, i, i - 1, k, h);
    } else {
      MergeSearch(n, i, i, k, h);
    }
  }

  lemma {:induction false} RepairSearch<V>(n: Node<V>, k: int, h: nat)
    requires Inv(n, h, 0) && h > 0 && Sorted(Flat(n)) && k !in n.keys && !Starved(n)
    ensures match Repaired(n, k, h)
      case None => false
      case Some(f) =>
        && Inv(f, h, 0) && Flat(f) == Flat(n) && |f.keys| >= |n.keys| - 1
        && FoundAgain(f, FirstGreater(f.keys, k), n.children[FirstGreater(n.keys, k)], k, h)
  {
    var i := FirstGreater(n.keys, k);
    KindOf(n, h, 0);
    hide Flat, Stranded, FixChild, Kids;
    if |n.children[i].keys| <= MIN_KEYS {
      FixKeeps(n, i, h);
      FixSearch(n, i, k, h);
    }
  }

  /** Removal below child j, with everything before it under k and everything after it over k. */
  lemma {:induction false} DelBelow<V>(n: Node<V>, j: nat, k: int, c: Node<V>)
    requires Inner(n) && j < |n.children|
    requires AllBelow(Front(n.keys[..j], n.values[..j], n.children[..j]), k)
    requires AllAbove(Tail(n.keys[j..], n.values[j..], n.children[j + 1..]), k)
    requires Flat(c) == Del(Flat(n.children[j]), k)
    ensures Flat(n.(children := n.children[j := c])) == Del(Flat(n), k)
    ensures Lookup(Flat(n), k) == Lookup(Flat(n.children[j]), k)
  {
    hide Flat, Front, Tail, Lower, Upper, Lookup, AllBelow, AllAbove;
    var a := Front(n.keys[..j], n.values[..j], n.children[..j]);
    var b := Tail(n.keys[j..], n.values[j..], n.children[j + 1..]);
    var f := Flat(n.children[j]);
    Focus(n, j);
    Refocus(n, j, c);
    Within(a, f, b, k);
    Sandwich(a, Lower(f, k), [], Upper(f, k), b);
  }

  ghost predicate RemovedBelow<V>(n: Node<V>, j: nat, k: int, h: nat, r: Removal<V>)
    requires j < |n.children|
  {
    match r
    case Panic => Stranded(n.children[j], k)
    case Removed(n', v) =>
      && !Stranded(n.children[j], k) && Inv(n', h, 0) && |n'.keys| == |n.keys|
      && Flat(n') == Del(Flat(n), k) && v == Lookup(Flat(n), k)
  }

  lemma {:induction false} RemovalThrough<V>(n: Node<V>, j: nat, k: int, h: nat, r: Removal<V>)
    requires Inv(n, h, 0) && h > 0 && j < |n.children|
    requires AllBelow(Front(n.keys[..j], n.values[..j], n.children[..j]), k)
    requires AllAbove(Tail(n.keys[j..], n.values[j..], n.children[j + 1..]), k)
    requires RemovedFrom(n.children[j], k, h - 1, r) && (h > 1 ==> |n.children[j].keys| > MIN_KEYS)
    ensures RemovedBelow(n, j, k, h, WithChild(n, j, r))
  {
    match r
    case Panic =>
    case Removed(c, v) =>
      KindOf(n, h, 0);
      KidReplaced(n, h, 0, j, c);
      hide Inv, Flat, Front, Tail, Del, Lookup, AllBelow, AllAbove, Stranded;
      DelBelow(n, j, k, c);
  }

  /** The two subtrees around separator `pos` close the gap it leaves. */
  lemma {:induction false} DelByPair<V>(n: Node<V>, pos: nat, l: Node<V>, k: int, v: V, r: Node<V>)
    requires Inner(n) && Sorted(Flat(n)) && pos < |n.keys|
    requires Flat(l) + [(k, v)] + Flat(r) == Flat(n.children[pos]) + Flat(n.children[pos + 1])
    ensures Flat(n.(keys := n.keys[pos := k], values := n.values[pos := v],
                    children := n.children[pos := l][pos + 1 := r])) == Del(Flat(n), n.keys[pos])
    ensures Lookup(Flat(n), n.keys[pos]) == Some(n.values[pos])
  {
    hide Flat, Front, Tail, Lower, Upper, Lookup, AllBelow, AllAbove, Sorted;
    var x, y := Flat(n.children[pos]), Flat(n.children[pos + 1]);
    var a, b := Separates(n, pos);
    Hit(a + x, n.keys[pos], n.values[pos], y + b);
    PairReplaced(n, pos, l, k, v, r);
    Sandwich(a, x, [], y, b);
  }

  /** k gives way to its predecessor, the last item of the subtree on its left. */
  lemma {:induction false} PredecessorTakesOver<V>(n: Node<V>, pos: nat, h: nat)
    requires Inv(n, h, 0) && h > 0 && Sorted(Flat(n)) && pos < |n.keys|
    ensures match Substitute(n, pos, pos, RemoveMax(n.children[pos]))
      case Panic => LastLeafEmpty(n.children[pos])
      case Removed(n', v) =>
        && !LastLeafEmpty(n.children[pos]) && Inv(n', h, 0) && |n'.keys| == |n.keys|
        && Flat(n') == Del(Flat(n), n.keys[pos]) && v == Lookup(Flat(n), n.keys[pos])
  {
    var l, r := n.children[pos], n.children[pos + 1];
    KindOf(n, h, 0);
    KidAt(n, h, 0, pos);
    KidAt(n, h, 0, pos + 1);
    RemoveMaxSpec(l, h - 1);
    match RemoveMax(l)
    case None =>
    case Some((c, k, v)) =>
      KidsReplaced(n, pos, c, k, v, r, h);
      hide Inv, Flat, Del, Lookup, RemoveMax, LastLeafEmpty;
      assert Flat(c) + [(k, v)] + Flat(r) == Flat(l) + Flat(r);
      DelByPair(n, pos, c, k, v, r);
      assert n.children[pos := c][pos + 1 := r] == n.children[pos := c];
  }

  /** k gives way to its successor, the first item of the subtree on its right. */
  lemma {:induction false} SuccessorTakesOver<V>(n: Node<V>, pos: nat, h: nat)
    requires Inv(n, h, 0) && h > 0 && Sorted(Flat(n)) && pos < |n.keys|
    ensures match Substitute(n, pos, pos + 1, RemoveMin(n.children[pos + 1]))
      case Panic => FirstLeafEmpty(n.children[pos + 1])
      case Removed(n', v) =>
        && !FirstLeafEmpty(n.children[pos + 1]) && Inv(n', h, 0) && |n'.keys| == |n.keys|
        && Flat(n') == Del(Flat(n), n.keys[pos]) && v == Lookup(Flat(n), n.keys[pos])
  {
    var l, r := n.children[pos], n.children[pos + 1];
    KindOf(n, h, 0);
    KidAt(n, h, 0, pos);
    KidAt(n, h, 0, pos + 1);
    RemoveMinSpec(r, h - 1);
    match RemoveMin(r)
    case None =>
    case Some((c, k, v)) =>
      KidsReplaced(n, pos, l, k, v, c, h);
      hide Inv, Flat, Del, Lookup, RemoveMin, FirstLeafEmpty;
      assert Flat(l) + [(k, v)] + Flat(c) == Flat(l) + Flat(r);
      DelByPair(n, pos, l, k, v, c);
      assert n.children[pos := l][pos + 1 := c] == n.children[pos + 1 := c];
  }

  /** The key and both its subtrees sink into one child, and removal goes on there. */
  lemma {:induction false} MergedAround<V>(n: Node<V>, pos: nat, h: nat)
    requires Inv(n, h, 0) && h > 0 && Sorted(Flat(n)) && pos < |n.keys|
    requires |n.children[pos].keys| <= MIN_KEYS && |n.children[pos + 1].keys| <= MIN_KEYS
    ensures var m, k := MergeChildren(n, pos), n.keys[pos];
      && Inv(m, h, 0) && Flat(m) == Flat(n) && |m.keys| == |n.keys| - 1 && pos < |m.children|
      && AllBelow(Front(m.keys[..pos], m.values[..pos], m.children[..pos]), k)
      && AllAbove(Tail(m.keys[pos..], m.values[pos..], m.children[pos + 1..]), k)
      && Stranded(m.children[pos], k) == Stuck(n.children[pos], n.children[pos + 1])
      && Sorted(Flat(m.children[pos])) && (h > 1 ==> |m.children[pos].keys| > MIN_KEYS)
  {
    var l, r, m, k := n.children[pos], n.children[pos + 1], MergeChildren(n, pos), n.keys[pos];
    MergeKeeps(n, pos, h);
    KindOf(n, h, 0);
    KindOf(m, h, 0);
    KidAt(n, h, 0, pos);
    KidAt(n, h, 0, pos + 1);
    Twins(l, r, h - 1);
    hide Flat, Front, Tail, Inv, Stranded;
    assert m.children[pos] == Glue(l, k, n.values[pos], r);
    ChildSorted(m, pos);
    KeysAscend(m.children[pos]);
    StrandedInGlue(l, k, n.values[pos], r, k);
    MergedSides(n, pos);
  }

  lemma {:induction false} MergedSides<V>(n: Node<V>, pos: nat)
    requires Inner(n) && Sorted(Flat(n)) && pos < |n.keys|
    ensures var m, k := MergeChildren(n, pos), n.keys[pos];
      && AllBelow(Front(m.keys[..pos], m.values[..pos], m.children[..pos]), k)
      && AllAbove(Tail(m.keys[pos..], m.values[pos..], m.children[pos + 1..]), k)
  {
    hide Flat, Front, Tail;
    var m, k := MergeChildren(n, pos), n.keys[pos];
    var a, b := Separates(n, pos);
    var x, y := Flat(n.children[pos]), Flat(n.children[pos + 1]);
    assert m.keys[..pos] == n.keys[..pos] && m.values[..pos] == n.values[..pos];
    assert m.children[..pos] == n.children[..pos];
    assert m.keys[pos..] == n.keys[pos + 1..] && m.values[pos..] == n.values[pos + 1..];
    assert m.children[pos + 1..] == n.children[pos + 2..];
    forall j | 0 <= j < |a| ensures a[j].0 < k { assert (a + x)[j] == a[j]; }
    forall j | 0 <= j < |b| ensures b[j].0 > k { assert (y + b)[|y| + j] == b[j]; }
  }

  /** One level of `remove_from_node_static`, given what it does one level down. */
  lemma {:induction false} RemoveHere<V>(n: Node<V>, k: int, pos: nat, h: nat)
    requires Inv(n, h, 0) && h > 0 && Sorted(Flat(n)) && Position(n.keys, k) == Some(pos)
    requires |n.children[pos].keys| > MIN_KEYS || |n.children[pos + 1].keys| > MIN_KEYS
    ensures RemovedFrom(n, k, h, RemoveFrom(n, k, h))
  {
    KindOf(n, h, 0);
    hide Flat, Inv, Sorted, Del, Lookup, RemoveMax, RemoveMin, Position, LastLeafEmpty, FirstLeafEmpty;
    if |n.children[pos].keys| > MIN_KEYS {
      PredecessorTakesOver(n, pos, h);
    } else {
      SuccessorTakesOver(n, pos, h);
    }
  }

  lemma {:induction false} RemoveMerged<V>(n: Node<V>, k: int, pos: nat, h: nat)
    requires Inv(n, h, 0) && h > 0 && Sorted(Flat(n)) && Position(n.keys, k) == Some(pos)
    requires |n.children[pos].keys| <= MIN_KEYS && |n.children[pos + 1].keys| <= MIN_KEYS
    requires var c := MergeChildren(n, pos).children[pos];
      Inv(c, h - 1, 0) && RemovedFrom(c, k, h - 1, RemoveFrom(c, k, h - 1))
    ensures RemovedFrom(n, k, h, RemoveFrom(n, k, h))
  {
    hide Flat, Sorted, Del, Lookup, AllBelow, AllAbove, Front, Tail, Stuck, Position, Inv;
    KindOf(n, h, 0);
    MergedAround(n, pos, h);
    var m := MergeChildren(n, pos);
    RemovalThrough(m, pos, k, h, RemoveFrom(m.children[pos], k, h - 1));
  }

  lemma {:induction false} RemoveRepaired<V>(n: Node<V>, k: int, f: Node<V>, h: nat)
    requires Inv(n, h, 0) && h > 0 && Sorted(Flat(n)) && k !in n.keys && !Starved(n)
    requires Repaired(n, k, h) == Some(f)
    requires var c := f.children[FirstGreater(f.keys, k)];
      Inv(c, h - 1, 0) && RemovedFrom(c, k, h - 1, RemoveFrom(c, k, h - 1))
    ensures RemovedFrom(n, k, h, RemoveFrom(n, k, h))
  {
    hide Flat, Sorted, Del, Lookup, Front, Tail, FirstGreater, Repaired;
    RepairSearch(n, k, h);
    var j := FirstGreater(f.keys, k);
    KidAt(f, h, 0, j);
    KindOf(f, h, 0);
    var a, b := Descend(f, k);
    RemovalThrough(f, j, k, h, RemoveFrom(f.children[j], k, h - 1));
  }

  /** What `remove_from_node_static` does, in every case. */
  lemma {:induction false} RemoveSpec<V>(n: Node<V>, k: int, h: nat)
    requires Inv(n, h, 0) && Sorted(Flat(n)) && !Starved(n)
    ensures RemovedFrom(n, k, h, RemoveFrom(n, k, h))
    decreases h
  {
    hide Flat, RemoveFrom, RemovedFrom, Sorted, Front, Tail, AllBelow, AllAbove;
    if h == 0 {
      LeafRemoval(n, k);
    } else {
      KindOf(n, h, 0);
      match Position(n.keys, k)
      case Some(pos) =>
        if |n.children[pos].keys| > MIN_KEYS || |n.children[pos + 1].keys| > MIN_KEYS {
          RemoveHere(n, k, pos, h);
        } else {
          MergedAround(n, pos, h);
          KidAt(MergeChildren(n, pos), h, 0, pos);
          RemoveSpec(MergeChildren(n, pos).children[pos], k, h - 1);
          RemoveMerged(n, k, pos, h);
        }
      case None =>
        RepairSearch(n, k, h);
        var f := Repaired(n, k, h).value;
        var j := FirstGreater(f.keys, k);
        KidAt(f, h, 0, j);
        KindOf(f, h, 0);
        ChildSorted(f, j);
        RemoveSpec(f.children[j], k, h - 1);
        RemoveRepaired(n, k, f, h);
    }
  }
}
