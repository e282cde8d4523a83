/**
 B-tree insertion.  `insert_non_full_static` looks for the key in a node before
 it splits the child it descends into, and does not look again afterwards, so a
 key that the split lifts out of a full child is inserted a second time.
 `Collides` is that case; everywhere else insertion is map update.
 */
module BTreeInsert {
  import opened Common
  import opened SortedItems
  import opened BTreeNode

  // ------------------------------------------------------------------- split

  predicate Splittable<V>(c: Node<V>) {
    && |c.keys| == |c.values| > MIN_KEYS
    && (!c.isLeaf ==> |c.children| == |c.keys| + 1)
  }

  function LeftHalf<V>(c: Node<V>): Node<V>
    requires Splittable(c)
  {
    Node(c.isLeaf, c.keys[..MIN_KEYS], c.values[..MIN_KEYS],
         if c.isLeaf then c.children else c.children[..MIN_KEYS + 1])
  }

  function RightHalf<V>(c: Node<V>): Node<V>
    requires Splittable(c)
  {
    Node(c.isLeaf, c.keys[MIN_KEYS + 1..], c.values[MIN_KEYS + 1..],
         if c.isLeaf then [] else c.children[MIN_KEYS + 1..])
  }

  function SplitChild<V>(p: Node<V>, i: nat): Node<V>
    requires i < |p.children| && i <= |p.keys| == |p.values| && Splittable(p.children[i])
  {
    var c := p.children[i];
    Node(p.isLeaf,
         p.keys[..i] + [c.keys[MIN_KEYS]] + p.keys[i..],
         p.values[..i] + [c.values[MIN_KEYS]] + p.values[i..],
         p.children[..i] + [LeftHalf(c), RightHalf(c)] + p.children[i + 1..])
  }

  lemma {:induction false} HalvesGlue<V>(c: Node<V>, h: nat, lo: nat)
    requires Inv(c, h, lo) && Full(c) && lo <= MIN_KEYS
    ensures Splittable(c)
    ensures c == Glue(LeftHalf(c), c.keys[MIN_KEYS], c.values[MIN_KEYS], RightHalf(c))
    ensures Kid(LeftHalf(c), h, lo) && Kid(RightHalf(c), h, lo)
    ensures |LeftHalf(c).keys| == |RightHalf(c).keys| == MIN_KEYS
  {
  }

  lemma {:induction false} SplitInv<V>(p: Node<V>, i: nat, h: nat, lo: nat)
    requires Inv(p, h, lo) && h > 0 && |p.keys| < MAX_KEYS && lo <= MIN_KEYS
    requires i < |p.children| && Full(p.children[i])
    ensures Splittable(p.children[i])
    ensures Inv(SplitChild(p, i), h, lo)
    ensures |SplitChild(p, i).children[i].keys| == |SplitChild(p, i).children[i + 1].keys| == MIN_KEYS
  {
    KidAt(p, h, lo, i);
    HalvesGlue(p.children[i], h - 1, lo);
    var s := SplitChild(p, i);
    forall j | 0 <= j < |s.children| ensures Kid(s.children[j], h - 1, lo) {
      if j < i { KidAt(p, h, lo, j); } else if j > i + 1 { KidAt(p, h, lo, j - 1); }
    }
  }

  lemma {:induction false} SplitFlat<V>(p: Node<V>, i: nat, h: nat, lo: nat)
    requires Inv(p, h, lo) && h > 0 && |p.keys| < MAX_KEYS && lo <= MIN_KEYS
    requires i < |p.children| && Full(p.children[i]) && Splittable(p.children[i])
    ensures Flat(SplitChild(p, i)) == Flat(p)
  {
    hide Flat, Front, Tail;
    var c, s := p.children[i], SplitChild(p, i);
    var l, m, r := LeftHalf(c), (c.keys[MIN_KEYS], c.values[MIN_KEYS]), RightHalf(c);
    KidAt(p, h, lo, i);
    HalvesGlue(c, h - 1, lo);
    KindOf(l, h - 1, lo);
    KindOf(r, h - 1, lo);
    GlueFlat(l, m.0, m.1, r);
    Focus(p, i);
    Pair(s, i);
    assert s.keys[..i] == p.keys[..i] && s.values[..i] == p.values[..i] && s.children[..i] == p.children[..i];
    assert s.keys[i + 1..] == p.keys[i..] && s.values[i + 1..] == p.values[i..];
    assert s.children[i + 2..] == p.children[i + 1..];
    assert s.keys[i] == m.0 && s.values[i] == m.1 && s.children[i] == l && s.children[i + 1] == r;
  }

  lemma {:induction false} Refocus<V>(n: Node<V>, i: nat, c: Node<V>)
    requires Inner(n) && i < |n.children|
    ensures Flat(n.(children := n.children[i := c]))
         == Front(n.keys[..i], n.values[..i], n.children[..i]) + Flat(c)
          + Tail(n.keys[i..], n.values[i..], n.children[i + 1..])
  {
    var n' := n.(children := n.children[i := c]);
    Focus(n', i);
    assert n'.children[..i] == n.children[..i] && n'.children[i + 1..] == n.children[i + 1..];
  }

  // ------------------------------------------------------------------ insert

  /** The child descended into, after splitting it if it is full. */
  function Prepared<V>(n: Node<V>, k: int, ghost h: nat, ghost lo: nat): (r: (Node<V>, nat))
    requires Inv(n, h, lo) && h > 0 && |n.keys| < MAX_KEYS && lo <= MIN_KEYS
    ensures Inv(r.0, h, lo) && r.1 < |r.0.children| && |r.0.children[r.1].keys| < MAX_KEYS
    ensures |n.keys| <= |r.0.keys|
    ensures Flat(r.0) == Flat(n)
  {
    var i := FirstGreater(n.keys, k);
    if Full(n.children[i]) then
      SplitInv(n, i, h, lo);
      SplitFlat(n, i, h, lo);
      var s := SplitChild(n, i);
      (s, if k > s.keys[i] then i + 1 else i)
    else
      (n, i)
  }

  function InsertNonFull<V>(n: Node<V>, k: int, v: V, ghost h: nat, ghost lo: nat): (Node<V>, Option<V>)
    requires Inv(n, h, lo) && |n.keys| < MAX_KEYS && lo <= MIN_KEYS
    decreases h
  {
    match Position(n.keys, k)
    case Some(pos) => (n.(values := n.values[pos := v]), Some(n.values[pos]))
    case None =>
      if n.isLeaf then
        var i := FirstGreater(n.keys, k);
        (n.(keys := n.keys[..i] + [k] + n.keys[i..], values := n.values[..i] + [v] + n.values[i..]), None)
      else
        var (s, i) := Prepared(n, k, h, lo);
        KidAt(s, h, lo, i);
        var (c, was) := InsertNonFull(s.children[i], k, v, h - 1, lo);
        (s.(children := s.children[i := c]), was)
  }

  /** k is the median of a full node strictly below n: the case insertion gets wrong. */
  predicate Collides<V>(n: Node<V>, k: int) {
    if n.isLeaf || k in n.keys || |n.children| != |n.keys| + 1 then false
    else
      var c := n.children[FirstGreater(n.keys, k)];
      (Full(c) && c.keys[MIN_KEYS] == k) || Collides(c, k)
  }

  ghost predicate Ascending(ks: seq<int>) {
    forall i, j :: 0 <= i < j < |ks| ==> ks[i] < ks[j]
  }

  lemma {:induction false} GluedBounds(a: seq<int>, m: int, b: seq<int>)
    requires Ascending(a + [m] + b)
    ensures forall i :: 0 <= i < |a| ==> a[i] < m
    ensures forall i :: 0 <= i < |b| ==> b[i] > m
  {
    var g := a + [m] + b;
    forall i | 0 <= i < |a| ensures a[i] < m { assert g[i] < g[|a|]; }
    forall i | 0 <= i < |b| ensures b[i] > m { assert g[|a|] < g[|a| + 1 + i]; }
  }

  /** Where a key falls among the keys of two nodes joined around m. */
  lemma {:induction false} GluedLeft(a: seq<int>, m: int, b: seq<int>, k: int)
    requires Ascending(a + [m] + b) && k < m
    ensures FirstGreater(a + [m] + b, k) == FirstGreater(a, k)
    ensures Position(a + [m] + b, k) == Position(a, k)
  {
    hide FirstGreater, Position, Ascending;
    GluedBounds(a, m, b);
    var g := a + [m] + b;
    FirstGreaterUnique(g, k, FirstGreater(a, k));
    if k in a {
      var p := Position(a, k).value;
      assert g[..p] == a[..p];
      PositionUnique(g, k, p);
    }
  }

  lemma {:induction false} GluedRight(a: seq<int>, m: int, b: seq<int>, k: int)
    requires Ascending(a + [m] + b) && k > m
    ensures FirstGreater(a + [m] + b, k) == |a| + 1 + FirstGreater(b, k)
    ensures Position(b, k) == None ==> Position(a + [m] + b, k) == None
    ensures Position(b, k).Some? ==> Position(a + [m] + b, k) == Some(|a| + 1 + Position(b, k).value)
  {
    hide FirstGreater, Position, Ascending;
    GluedBounds(a, m, b);
    var g := a + [m] + b;
    var i := |a| + 1 + FirstGreater(b, k);
    forall j | 0 <= j < i ensures g[j] <= k {
      if j > |a| { assert g[j] == b[j - |a| - 1]; }
    }
    FirstGreaterUnique(g, k, i);
    if k in b {
      var p := Position(b, k).value;
      assert g[..|a| + 1 + p] == a + [m] + b[..p];
      PositionUnique(g, k, |a| + 1 + p);
    }
  }

  lemma {:induction false} CollidesInHalf<V>(l: Node<V>, m: int, v: V, r: Node<V>, k: int)
    requires (Inner(l) && Inner(r)) || (Outer(l) && Outer(r))
    requires Ascending(l.keys + [m] + r.keys) && k != m
    ensures Collides(Glue(l, m, v, r), k) == Collides(if k < m then l else r, k)
  {
    if k < m { GluedLeft(l.keys, m, r.keys, k); } else { GluedRight(l.keys, m, r.keys, k); }
  }

  /** Key, value and old value of an insertion that duplicates k. */
  ghost predicate Duplicated<V>(s: seq<Item<V>>, s': seq<Item<V>>, k: int, v: V) {
    && Lookup(s, k).Some?
    && s' == Lower(s, k) + [(k, v), (k, Lookup(s, k).value)] + Upper(s, k)
  }

  ghost predicate Inserted<V>(n: Node<V>, k: int, v: V, n': Node<V>, was: Option<V>) {
    if Collides(n, k) then Duplicated(Flat(n), Flat(n'), k, v) && was == None
    else Flat(n') == Put(Flat(n), k, v) && was == Lookup(Flat(n), k)
  }

  lemma {:induction false} InsertHit<V>(n: Node<V>, k: int, v: V, h: nat, lo: nat)
    requires Inv(n, h, lo) && |n.keys| < MAX_KEYS && lo <= MIN_KEYS && Sorted(Flat(n)) && k in n.keys
    ensures var (n', was) := InsertNonFull(n, k, v, h, lo);
      Inv(n', h, lo) && |n'.keys| == |n.keys| && Inserted(n, k, v, n', was)
  {
    KindOf(n, h, lo);
    var pos := Position(n.keys, k).value;
    if n.isLeaf { OverwriteLeaf(n, pos, v); } else { OverwriteInner(n, pos, v); }
  }

  lemma {:induction false} OverwriteLeaf<V>(n: Node<V>, i: nat, v: V)
    requires Outer(n) && i < |n.keys| && Sorted(Flat(n))
    ensures Flat(n.(values := n.values[i := v])) == Put(Flat(n), n.keys[i], v)
    ensures Lookup(Flat(n), n.keys[i]) == Some(n.values[i])
  {
    hide Lower, Upper, Lookup;
    var z := Flat(n);
    assert z == z[..i] + [(n.keys[i], n.values[i])] + z[i + 1..];
    Separated(z[..i], z[i], z[i + 1..]);
    Hit(z[..i], n.keys[i], n.values[i], z[i + 1..]);
    assert Flat(n.(values := n.values[i := v])) == z[..i] + [(n.keys[i], v)] + z[i + 1..];
  }

  lemma {:induction false} OverwriteInner<V>(n: Node<V>, i: nat, v: V)
    requires Inner(n) && i < |n.keys| && Sorted(Flat(n))
    ensures Flat(n.(values := n.values[i := v])) == Put(Flat(n), n.keys[i], v)
    ensures Lookup(Flat(n), n.keys[i]) == Some(n.values[i])
  {
    hide Lower, Upper, Lookup, Flat, Tail, Front, AllBelow, AllAbove, Sorted;
    var n' := n.(values := n.values[i := v]);
    var l, r := Flat(n.children[i]), Flat(n.children[i + 1]);
    var a, c := Separates(n, i);
    Hit(a + l, n.keys[i], n.values[i], r + c);
    Pair(n', i);
    assert n'.values[..i] == n.values[..i] && n'.values[i + 1..] == n.values[i + 1..];
    Sandwich(a, l, [(n.keys[i], v)], r, c);
  }

  lemma {:induction false} InsertLeaf<V>(n: Node<V>, k: int, v: V, i: nat)
    requires Outer(n) && Sorted(Flat(n)) && k !in n.keys && i == FirstGreater(n.keys, k)
    ensures var n' := n.(keys := n.keys[..i] + [k] + n.keys[i..], values := n.values[..i] + [v] + n.values[i..]);
      Flat(n') == Put(Flat(n), k, v) && Lookup(Flat(n), k) == None
  {
    var z := Flat(n);
    LeafCut(n, k, i);
    hide Lower, Upper, Lookup, FirstGreater, Sorted, AllBelow, AllAbove;
    ZipInsert(n.keys, n.values, i, k, v);
    assert z == z[..i] + z[i..];
    Miss(z[..i], k, z[i..]);
  }

  lemma {:induction false} LeafCut<V>(n: Node<V>, k: int, i: nat)
    requires Outer(n) && Sorted(Flat(n)) && k !in n.keys && i == FirstGreater(n.keys, k)
    ensures AllBelow(Flat(n)[..i], k) && AllAbove(Flat(n)[i..], k)
  {
    hide FirstGreater;
    KeysAscend(n);
    forall j | 0 <= j < |n.keys| ensures if j < i then n.keys[j] < k else n.keys[j] > k {
      assert n.keys[j] in n.keys;
    }
  }

  lemma {:induction false} ZipInsert<V>(ks: seq<int>, vs: seq<V>, i: nat, k: int, v: V)
    requires |ks| == |vs| && i <= |ks|
    ensures Zip(ks[..i] + [k] + ks[i..], vs[..i] + [v] + vs[i..]) == Zip(ks, vs)[..i] + [(k, v)] + Zip(ks, vs)[i..]
  {
  }

  /** Descending with the key strictly between the separators. */
  lemma {:induction false} InsertThrough<V>(s: Node<V>, k: int, v: V, c: Node<V>, was: Option<V>)
    requires Inner(s) && Sorted(Flat(s)) && k !in s.keys
    requires Inserted(s.children[FirstGreater(s.keys, k)], k, v, c, was)
    ensures var i := FirstGreater(s.keys, k);
      var s' := s.(children := s.children[i := c]);
      if Collides(s.children[i], k) then Duplicated(Flat(s), Flat(s'), k, v) && was == None
      else Flat(s') == Put(Flat(s), k, v) && was == Lookup(Flat(s), k)
  {
    var i := FirstGreater(s.keys, k);
    var a, b := Descend(s, k);
    var f := Flat(s.children[i]);
    hide Lower, Upper, Lookup, Front, Tail, Flat, Collides, FirstGreater, AllBelow, AllAbove, Sorted;
    Within(a, f, b, k);
    Refocus(s, i, c);
    if Collides(s.children[i], k) {
      Sandwich(a, Lower(f, k), [(k, v), (k, Lookup(f, k).value)], Upper(f, k), b);
    } else {
      Sandwich(a, Lower(f, k), [(k, v)], Upper(f, k), b);
    }
  }

  /** The collision: k has just been lifted to separator i and the descent goes left of it. */
  lemma {:induction false} InsertCollides<V>(s: Node<V>, i: nat, k: int, v: V, c: Node<V>, was: Option<V>)
    requires Inner(s) && Sorted(Flat(s)) && i < |s.keys| && s.keys[i] == k
    requires Inserted(s.children[i], k, v, c, was)
    ensures Duplicated(Flat(s), Flat(s.(children := s.children[i := c])), k, v) && was == None
  {
    var a, b := Separates(s, i);
    var l, r := Flat(s.children[i]), Flat(s.children[i + 1]);
    SuffixBelow(a, l, k);
    LookupMissing(l, k);
    FilterBelow(l, k);
    hide Lower, Upper, Lookup, Front, Flat, Collides, FirstGreater, AllBelow, AllAbove, Sorted;
    Hit(a + l, k, s.values[i], r + b);
    Refocus(s, i, c);
    assert s.keys[i..][1..] == s.keys[i + 1..] && s.values[i..][1..] == s.values[i + 1..];
    assert s.children[i + 1..][1..] == s.children[i + 2..];
    TwoInARow(a, l, (k, v), (k, s.values[i]), r, b);
  }

  lemma {:induction false} SuffixBelow<V>(a: seq<Item<V>>, l: seq<Item<V>>, k: int)
    requires AllBelow(a + l, k)
    ensures AllBelow(l, k)
  {
    forall j | 0 <= j < |l| ensures l[j].0 < k { assert (a + l)[|a| + j] == l[j]; }
  }

  lemma {:induction false} TwoInARow<T>(a: seq<T>, l: seq<T>, x: T, m: T, r: seq<T>, b: seq<T>)
    ensures a + (l + [x]) + ([m] + r + b) == (a + l) + [x, m] + (r + b)
    ensures l + [x] + [] == l + [x]
  {
  }

  /** What `insert_non_full_static` does to the tree, in every case. */
  lemma {:induction false} InsertSpec<V>(n: Node<V>, k: int, v: V, h: nat, lo: nat)
    requires Inv(n, h, lo) && |n.keys| < MAX_KEYS && lo <= MIN_KEYS && Sorted(Flat(n))
    ensures var (n', was) := InsertNonFull(n, k, v, h, lo);
      Inv(n', h, lo) && |n'.keys| >= |n.keys| && Inserted(n, k, v, n', was)
    decreases h
  {
    if k in n.keys {
      InsertHit(n, k, v, h, lo);
    } else if n.isLeaf {
      InsertLeaf(n, k, v, FirstGreater(n.keys, k));
    } else {
      hide Flat, Put, Lookup, Duplicated;
      var i := FirstGreater(n.keys, k);
      var c := n.children[i];
      var (s, j) := Prepared(n, k, h, lo);
      KidAt(s, h, lo, j);
      var (c', was) := InsertNonFull(s.children[j], k, v, h - 1, lo);
      InsertChild(s, j, k, v, h, lo);
      if Full(c) {
        KidAt(n, h, lo, i);
        HalvesGlue(c, h - 1, lo);
        Halving(n, k, h, lo);
        if s.keys[i] == k {
          InsertCollides(s, i, k, v, c', was);
        } else {
          InsertThrough(s, k, v, c', was);
        }
      } else {
        InsertThrough(n, k, v, c', was);
      }
    }
  }

  /** The recursive call, with the invariant of the child carried back to the parent. */
  lemma {:induction false} InsertChild<V>(s: Node<V>, j: nat, k: int, v: V, h: nat, lo: nat)
    requires Inv(s, h, lo) && h > 0 && lo <= MIN_KEYS && Sorted(Flat(s)) && j < |s.children|
    requires Kid(s.children[j], h - 1, lo) && |s.children[j].keys| < MAX_KEYS
    ensures var (c, was) := InsertNonFull(s.children[j], k, v, h - 1, lo);
      && Inserted(s.children[j], k, v, c, was)
      && Inv(s.(children := s.children[j := c]), h, lo)
    decreases h, 0
  {
    ChildSorted(s, j);
    InsertSpec(s.children[j], k, v, h - 1, lo);
    var c := InsertNonFull(s.children[j], k, v, h - 1, lo).0;
    KidReplaced(s, h, lo, j, c);
  }

  /** After a split the key is the separator, or the descent is the one a fresh search would make. */
  lemma {:induction false} Halving<V>(n: Node<V>, k: int, h: nat, lo: nat)
    requires Inv(n, h, lo) && h > 0 && |n.keys| < MAX_KEYS && lo <= MIN_KEYS && Sorted(Flat(n)) && k !in n.keys
    requires Full(n.children[FirstGreater(n.keys, k)])
    ensures var i := FirstGreater(n.keys, k); var c := n.children[i];
      var (s, j) := Prepared(n, k, h, lo);
      && Inner(s) && i < |s.keys| && |c.keys| > MIN_KEYS && s.keys[i] == c.keys[MIN_KEYS]
      && (s.keys[i] == k ==> j == i)
      && (s.keys[i] != k ==>
            k !in s.keys && j == FirstGreater(s.keys, k) && Collides(s.children[j], k) == Collides(c, k))
  {
    var i := FirstGreater(n.keys, k);
    var c := n.children[i];
    var (s, j) := Prepared(n, k, h, lo);
    SplitInv(n, i, h, lo);
    KidAt(n, h, lo, i);
    HalvesGlue(c, h - 1, lo);
    if s.keys[i] != k {
      SplitSearch(n.keys, i, c.keys[MIN_KEYS], k);
      HalfCollides(n, i, k, h, lo);
    }
  }

  lemma {:induction false} SplitSearch(ks: seq<int>, i: nat, m: int, k: int)
    requires i == FirstGreater(ks, k) && k != m && k !in ks
    ensures var s := ks[..i] + [m] + ks[i..];
      k !in s && FirstGreater(s, k) == if k > m then i + 1 else i
  {
    hide FirstGreater;
    var s := ks[..i] + [m] + ks[i..];
    FirstGreaterUnique(s, k, if k > m then i + 1 else i);
  }

  lemma {:induction false} HalfCollides<V>(n: Node<V>, i: nat, k: int, h: nat, lo: nat)
    requires Inv(n, h, lo) && h > 0 && lo <= MIN_KEYS && Sorted(Flat(n)) && i < |n.children|
    requires Full(n.children[i]) && Splittable(n.children[i]) && k != n.children[i].keys[MIN_KEYS]
    ensures var c := n.children[i];
      Collides(if k > c.keys[MIN_KEYS] then RightHalf(c) else LeftHalf(c), k) == Collides(c, k)
  {
    var c := n.children[i];
    KidAt(n, h, lo, i);
    KindOf(n, h, lo);
    KindOf(c, h - 1, lo);
    HalvesGlue(c, h - 1, lo);
    KindOf(LeftHalf(c), h - 1, lo);
    KindOf(RightHalf(c), h - 1, lo);
    hide Inv, Kid, Flat, Front, Tail, Collides;
    ChildSorted(n, i);
    KeysAscend(c);
    CollidesInHalf(LeftHalf(c), c.keys[MIN_KEYS], c.values[MIN_KEYS], RightHalf(c), k);
  }
}
