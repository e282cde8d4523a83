/**
 Nodes of the kernel B-tree, their in-order contents and their structural
 invariant.  A `Box`-owned subtree has one owner, so a node is a value and an
 in-place change of a child is an update of the parent's `children` entry.
 */
module BTreeNode {
  import opened Common
  import opened SortedItems

  const MIN_KEYS: nat := 7
  const MAX_KEYS: nat := 15

  datatype Node<V> = Node(isLeaf: bool, keys: seq<int>, values: seq<V>, children: seq<Node<V>>)

  function NewLeaf<V>(): Node<V> { Node(true, [], [], []) }

  predicate Full<V>(n: Node<V>) { |n.keys| >= MAX_KEYS }

  // ---------------------------------------------------------------- contents

  ghost function Zip<V>(ks: seq<int>, vs: seq<V>): seq<Item<V>>
    requires |ks| == |vs|
  {
    seq(|ks|, i requires 0 <= i < |ks| => (ks[i], vs[i]))
  }

  /** In-order contents of a node: child, key, child, key, ..., child. */
  ghost function Flat<V>(n: Node<V>): seq<Item<V>>
    decreases n, 1
  {
    if |n.keys| != |n.values| then []
    else if n.isLeaf then Zip(n.keys, n.values)
    else if |n.children| != |n.keys| + 1 then []
    else Flat(n.children[0]) + Tail(n.keys, n.values, n.children[1..])
  }

  /** key, child, key, child, ... */
  ghost function Tail<V>(ks: seq<int>, vs: seq<V>, cs: seq<Node<V>>): seq<Item<V>>
    requires |ks| == |vs| == |cs|
    decreases cs, 0
  {
    if cs == [] then [] else [(ks[0], vs[0])] + Flat(cs[0]) + Tail(ks[1..], vs[1..], cs[1..])
  }

  /** child, key, child, key, ... */
  ghost function Front<V>(ks: seq<int>, vs: seq<V>, cs: seq<Node<V>>): seq<Item<V>>
    requires |ks| == |vs| == |cs|
  {
    if cs == [] then [] else Flat(cs[0]) + [(ks[0], vs[0])] + Front(ks[1..], vs[1..], cs[1..])
  }

  ghost predicate Inner<V>(n: Node<V>) {
    !n.isLeaf && |n.keys| == |n.values| && |n.children| == |n.keys| + 1
  }

  ghost predicate Outer<V>(n: Node<V>) {
    n.isLeaf && |n.keys| == |n.values| && n.children == []
  }

  lemma {:induction false} TailConcat<V>(ks: seq<int>, vs: seq<V>, cs: seq<Node<V>>,
                                         ks': seq<int>, vs': seq<V>, cs': seq<Node<V>>)
    requires |ks| == |vs| == |cs| && |ks'| == |vs'| == |cs'|
    ensures Tail(ks + ks', vs + vs', cs + cs') == Tail(ks, vs, cs) + Tail(ks', vs', cs')
    decreases |cs|
  {
    if cs == [] {
      assert ks + ks' == ks' && vs + vs' == vs' && cs + cs' == cs';
    } else {
      assert (ks + ks')[1..] == ks[1..] + ks' && (vs + vs')[1..] == vs[1..] + vs';
      assert (cs + cs')[1..] == cs[1..] + cs';
      TailConcat(ks[1..], vs[1..], cs[1..], ks', vs', cs');
    }
  }

  lemma {:induction false} FrontSnoc<V>(ks: seq<int>, vs: seq<V>, cs: seq<Node<V>>, k: int, v: V, c: Node<V>)
    requires |ks| == |vs| == |cs|
    ensures Front(ks + [k], vs + [v], cs + [c]) == Front(ks, vs, cs) + Flat(c) + [(k, v)]
    decreases |cs|
  {
    if cs != [] {
      assert (ks + [k])[1..] == ks[1..] + [k] && (vs + [v])[1..] == vs[1..] + [v];
      assert (cs + [c])[1..] == cs[1..] + [c];
      FrontSnoc(ks[1..], vs[1..], cs[1..], k, v, c);
    }
  }

  lemma {:induction false} FrontAt<V>(n: Node<V>, i: nat)
    requires Inner(n) && i < |n.keys|
    ensures Front(n.keys[..i + 1], n.values[..i + 1], n.children[..i + 1])
         == Front(n.keys[..i], n.values[..i], n.children[..i]) + Flat(n.children[i]) + [(n.keys[i], n.values[i])]
  {
    hide Front, Flat;
    FrontSnoc(n.keys[..i], n.values[..i], n.children[..i], n.keys[i], n.values[i], n.children[i]);
    assert n.keys[..i + 1] == n.keys[..i] + [n.keys[i]] && n.values[..i + 1] == n.values[..i] + [n.values[i]];
    assert n.children[..i + 1] == n.children[..i] + [n.children[i]];
  }

  lemma {:induction false} TailAt<V>(n: Node<V>, i: nat)
    requires Inner(n) && i < |n.keys|
    ensures Tail(n.keys[i..], n.values[i..], n.children[i + 1..])
         == [(n.keys[i], n.values[i])] + Flat(n.children[i + 1])
          + Tail(n.keys[i + 1..], n.values[i + 1..], n.children[i + 2..])
  {
    hide Flat;
    assert n.keys[i..][1..] == n.keys[i + 1..] && n.values[i..][1..] == n.values[i + 1..];
    assert n.children[i + 1..][1..] == n.children[i + 2..];
  }

  lemma {:induction false} Shift<T>(a: seq<T>, f: seq<T>, m: T, g: seq<T>, t: seq<T>)
    ensures a + f + ([m] + g + t) == (a + f + [m]) + g + t
  {
  }

  /** The contents around child i. */
  lemma {:induction false} Focus<V>(n: Node<V>, i: nat)
    requires Inner(n) && i < |n.children|
    ensures Flat(n) == Front(n.keys[..i], n.values[..i], n.children[..i]) + Flat(n.children[i])
                     + Tail(n.keys[i..], n.values[i..], n.children[i + 1..])
    decreases i
  {
    if i == 0 {
      assert n.keys[0..] == n.keys && n.values[0..] == n.values;
    } else {
      hide *;
      Focus(n, i - 1);
      FrontAt(n, i - 1);
      TailAt(n, i - 1);
      Shift(Front(n.keys[..i - 1], n.values[..i - 1], n.children[..i - 1]), Flat(n.children[i - 1]),
            (n.keys[i - 1], n.values[i - 1]), Flat(n.children[i]),
            Tail(n.keys[i..], n.values[i..], n.children[i + 1..]));
    }
  }

  /** The contents around separator i. */
  lemma {:induction false} Pair<V>(n: Node<V>, i: nat)
    requires Inner(n) && i < |n.keys|
    ensures Flat(n) == Front(n.keys[..i], n.values[..i], n.children[..i])
                     + (Flat(n.children[i]) + [(n.keys[i], n.values[i])] + Flat(n.children[i + 1]))
                     + Tail(n.keys[i + 1..], n.values[i + 1..], n.children[i + 2..])
  {
    hide Flat, Front, Tail;
    Focus(n, i);
    TailAt(n, i);
    var f, l, r := Front(n.keys[..i], n.values[..i], n.children[..i]), Flat(n.children[i]), Flat(n.children[i + 1]);
    var m, t := [(n.keys[i], n.values[i])], Tail(n.keys[i + 1..], n.values[i + 1..], n.children[i + 2..]);
    assert f + l + (m + r + t) == f + (l + m + r) + t;
  }

  /** The contents after the two children around separator i, and the separator, are replaced. */
  lemma {:induction false} PairReplaced<V>(n: Node<V>, i: nat, l: Node<V>, k: int, v: V, r: Node<V>)
    requires Inner(n) && i < |n.keys|
    ensures Flat(n.(keys := n.keys[i := k], values := n.values[i := v], children := n.children[i := l][i + 1 := r]))
         == Front(n.keys[..i], n.values[..i], n.children[..i])
          + (Flat(l) + [(k, v)] + Flat(r))
          + Tail(n.keys[i + 1..], n.values[i + 1..], n.children[i + 2..])
  {
    hide Flat, Front, Tail;
    var n' := n.(keys := n.keys[i := k], values := n.values[i := v], children := n.children[i := l][i + 1 := r]);
    Pair(n', i);
    assert n'.keys[..i] == n.keys[..i] && n'.values[..i] == n.values[..i] && n'.children[..i] == n.children[..i];
    assert n'.keys[i + 1..] == n.keys[i + 1..] && n'.values[i + 1..] == n.values[i + 1..];
    assert n'.children[i + 2..] == n.children[i + 2..];
  }

  /** The contents after the two children around separator i become the single child g. */
  lemma {:induction false} PairMerged<V>(n: Node<V>, i: nat, g: Node<V>)
    requires Inner(n) && i < |n.keys|
    ensures Flat(Node(false, n.keys[..i] + n.keys[i + 1..], n.values[..i] + n.values[i + 1..],
                      n.children[..i] + [g] + n.children[i + 2..]))
         == Front(n.keys[..i], n.values[..i], n.children[..i]) + Flat(g)
          + Tail(n.keys[i + 1..], n.values[i + 1..], n.children[i + 2..])
  {
    hide Flat, Front, Tail;
    var n' := Node(false, n.keys[..i] + n.keys[i + 1..], n.values[..i] + n.values[i + 1..],
                   n.children[..i] + [g] + n.children[i + 2..]);
    Focus(n', i);
    assert n'.keys[..i] == n.keys[..i] && n'.values[..i] == n.values[..i] && n'.children[..i] == n.children[..i];
    assert n'.keys[i..] == n.keys[i + 1..] && n'.values[i..] == n.values[i + 1..];
    assert n'.children[i + 1..] == n.children[i + 2..];
  }

  lemma {:induction false} FrontLast<V>(ks: seq<int>, vs: seq<V>, cs: seq<Node<V>>)
    requires |ks| == |vs| == |cs| > 0
    ensures var f := Front(ks, vs, cs); var m := |ks| - 1; |f| > 0 && f[|f| - 1] == (ks[m], vs[m])
    decreases |cs|
  {
    if |cs| > 1 {
      FrontLast(ks[1..], vs[1..], cs[1..]);
    }
  }

  /** Two nodes of one level put together around a separator. */
  function Glue<V>(l: Node<V>, k: int, v: V, r: Node<V>): Node<V> {
    Node(l.isLeaf, l.keys + [k] + r.keys, l.values + [v] + r.values, l.children + r.children)
  }

  lemma {:induction false} GlueFlat<V>(l: Node<V>, k: int, v: V, r: Node<V>)
    requires (Inner(l) && Inner(r)) || (Outer(l) && Outer(r))
    ensures Flat(Glue(l, k, v, r)) == Flat(l) + [(k, v)] + Flat(r)
  {
    hide Flat, Glue;
    if l.isLeaf { GlueLeaves(l, k, v, r); } else { GlueInner(l, k, v, r); }
  }

  lemma {:induction false} GlueInner<V>(l: Node<V>, k: int, v: V, r: Node<V>)
    requires Inner(l) && Inner(r)
    ensures Flat(Glue(l, k, v, r)) == Flat(l) + [(k, v)] + Flat(r)
  {
    hide Flat, Front, Tail;
    GlueParts(l, k, v, r);
    TailConcat(l.keys, l.values, l.children[1..], [k] + r.keys, [v] + r.values, r.children);
    TailOf(k, v, r);
    InnerFlat(Glue(l, k, v, r));
    InnerFlat(l);
    ThreeParts(Flat(l.children[0]), Tail(l.keys, l.values, l.children[1..]), [(k, v)], Flat(r));
  }

  lemma {:induction false} GlueParts<V>(l: Node<V>, k: int, v: V, r: Node<V>)
    requires Inner(l) && Inner(r)
    ensures var g := Glue(l, k, v, r);
      && Inner(g) && g.children[0] == l.children[0] && g.children[1..] == l.children[1..] + r.children
      && g.keys == l.keys + ([k] + r.keys) && g.values == l.values + ([v] + r.values)
  {
  }

  lemma {:induction false} ThreeParts<T>(a: seq<T>, b: seq<T>, c: seq<T>, d: seq<T>)
    ensures a + (b + (c + d)) == (a + b) + c + d
  {
  }

  lemma {:induction false} GlueLeaves<V>(l: Node<V>, k: int, v: V, r: Node<V>)
    requires Outer(l) && Outer(r)
    ensures Flat(Glue(l, k, v, r)) == Flat(l) + [(k, v)] + Flat(r)
  {
  }

  lemma {:induction false} InnerFlat<V>(n: Node<V>)
    requires Inner(n)
    ensures Flat(n) == Flat(n.children[0]) + Tail(n.keys, n.values, n.children[1..])
  {
  }

  lemma {:induction false} TailOf<V>(k: int, v: V, r: Node<V>)
    requires Inner(r)
    ensures Tail([k] + r.keys, [v] + r.values, r.children) == [(k, v)] + Flat(r)
  {
    assert ([k] + r.keys)[1..] == r.keys && ([v] + r.values)[1..] == r.values;
    InnerFlat(r);
  }

  // --------------------------------------------------------------- invariant

  /**
   Equal leaf depth `h`, children = keys + 1, at most 15 keys a node; every node
   below `n` has at least 7 keys if internal and at least `lo` if a leaf.
   `lo == 7` is the textbook invariant, `lo == 0` is what removal keeps.
   */
  ghost predicate Inv<V>(n: Node<V>, h: nat, lo: nat)
    decreases h, 0
  {
    && |n.values| == |n.keys| <= MAX_KEYS
    && n.isLeaf == (h == 0)
    && (h == 0 ==> n.children == [])
    && (h > 0 ==> |n.children| == |n.keys| + 1 && Kids(n.children, h - 1, lo))
  }

  ghost predicate Kid<V>(c: Node<V>, h: nat, lo: nat)
    decreases h, 1
  {
    Inv(c, h, lo) && |c.keys| >= Least(h, lo)
  }

  ghost predicate Kids<V>(cs: seq<Node<V>>, h: nat, lo: nat)
    decreases h, 2
  {
    forall i :: 0 <= i < |cs| ==> Kid(cs[i], h, lo)
  }

  ghost function Least(h: nat, lo: nat): nat { if h == 0 then lo else MIN_KEYS }

  lemma {:induction false} KindOf<V>(n: Node<V>, h: nat, lo: nat)
    requires Inv(n, h, lo)
    ensures if h == 0 then Outer(n) else Inner(n)
  {
  }

  lemma {:induction false} KidAt<V>(n: Node<V>, h: nat, lo: nat, i: nat)
    requires Inv(n, h, lo) && h > 0 && i < |n.children|
    ensures Kid(n.children[i], h - 1, lo)
  {
  }

  lemma {:induction false} KidReplaced<V>(n: Node<V>, h: nat, lo: nat, i: nat, c: Node<V>)
    requires Inv(n, h, lo) && h > 0 && i < |n.children| && Kid(c, h - 1, lo)
    ensures Inv(n.(children := n.children[i := c]), h, lo)
  {
    var cs := n.children[i := c];
    forall j | 0 <= j < |cs| ensures Kid(cs[j], h - 1, lo) {
      if j != i { KidAt(n, h, lo, j); }
    }
  }

  lemma {:induction false} GlueInv<V>(l: Node<V>, k: int, v: V, r: Node<V>, h: nat, lo: nat)
    requires Inv(l, h, lo) && Inv(r, h, lo) && |l.keys| + 1 + |r.keys| <= MAX_KEYS
    ensures Inv(Glue(l, k, v, r), h, lo)
  {
  }

  // ------------------------------------------------------- position in a node

  /** `keys.iter().position(|k| k > &key).unwrap_or(keys.len())` */
  function FirstGreater(keys: seq<int>, k: int): (i: nat)
    ensures i <= |keys|
    ensures forall j :: 0 <= j < i ==> keys[j] <= k
    ensures i < |keys| ==> keys[i] > k
  {
    if keys == [] || keys[0] > k then 0 else 1 + FirstGreater(keys[1..], k)
  }

  /** `keys.iter().position(|k| k == &key)` */
  function Position(keys: seq<int>, k: int): (r: Option<nat>)
    ensures r == None <==> k !in keys
    ensures r.Some? ==> r.value < |keys| && keys[r.value] == k && k !in keys[..r.value]
  {
    if keys == [] then None
    else if keys[0] == k then Some(0)
    else
      assert keys == [keys[0]] + keys[1..];
      match Position(keys[1..], k)
      case None => None
      case Some(i) =>
        assert keys[..i + 1] == [keys[0]] + keys[1..][..i];
        Some(i + 1)
  }

  lemma {:induction false} FirstGreaterUnique(keys: seq<int>, k: int, i: nat)
    requires i <= |keys|
    requires forall j :: 0 <= j < i ==> keys[j] <= k
    requires i < |keys| ==> keys[i] > k
    ensures FirstGreater(keys, k) == i
  {
  }

  lemma {:induction false} PositionUnique(keys: seq<int>, k: int, i: nat)
    requires i < |keys| && keys[i] == k && k !in keys[..i]
    ensures Position(keys, k) == Some(i)
  {
  }

  lemma {:induction false} ChildSorted<V>(n: Node<V>, i: nat)
    requires Inner(n) && Sorted(Flat(n)) && i < |n.children|
    ensures Sorted(Flat(n.children[i]))
  {
    hide Flat, Front, Tail;
    Focus(n, i);
    var a, f := Front(n.keys[..i], n.values[..i], n.children[..i]), Flat(n.children[i]);
    SortedParts(a + f, Tail(n.keys[i..], n.values[i..], n.children[i + 1..]));
    SortedParts(a, f);
  }

  /** A key that is not in an ordered inner node belongs to exactly one child. */
  lemma {:induction false} Descend<V>(n: Node<V>, k: int) returns (a: seq<Item<V>>, c: seq<Item<V>>)
    requires Inner(n) && Sorted(Flat(n)) && k !in n.keys
    ensures var i := FirstGreater(n.keys, k);
      && a == Front(n.keys[..i], n.values[..i], n.children[..i])
      && c == Tail(n.keys[i..], n.values[i..], n.children[i + 1..])
      && Flat(n) == a + Flat(n.children[i]) + c
      && AllBelow(a, k) && AllAbove(c, k) && Sorted(Flat(n.children[i]))
  {
    hide Flat, FirstGreater, Front, Tail, AllBelow, AllAbove;
    var i := FirstGreater(n.keys, k);
    var f := Flat(n.children[i]);
    a := Front(n.keys[..i], n.values[..i], n.children[..i]);
    c := Tail(n.keys[i..], n.values[i..], n.children[i + 1..]);
    Focus(n, i);
    assert i == 0 || n.keys[i - 1] < k by { assert i > 0 ==> n.keys[i - 1] in n.keys; }
    Bounded(n, i, k, f);
    assert a + f + c == a + (f + c);
    SortedParts(a, f + c);
    SortedParts(f, c);
  }

  lemma {:induction false} Bounded<V>(n: Node<V>, i: nat, k: int, f: seq<Item<V>>)
    requires Inner(n) && i <= |n.keys| && (i == 0 || n.keys[i - 1] < k) && (i == |n.keys| || n.keys[i] > k)
    requires Sorted(Front(n.keys[..i], n.values[..i], n.children[..i]) + f
                  + Tail(n.keys[i..], n.values[i..], n.children[i + 1..]))
    ensures AllBelow(Front(n.keys[..i], n.values[..i], n.children[..i]), k)
    ensures AllAbove(Tail(n.keys[i..], n.values[i..], n.children[i + 1..]), k)
  {
    hide Flat, Front, Tail;
    var a := Front(n.keys[..i], n.values[..i], n.children[..i]);
    var c := Tail(n.keys[i..], n.values[i..], n.children[i + 1..]);
    SortedParts(a + f, c);
    SortedParts(a, f);
    TailFirst(n.keys[i..], n.values[i..], n.children[i + 1..]);
    if i == 0 {
      FrontNone(n.keys[..0], n.values[..0], n.children[..0]);
    } else {
      FrontLast(n.keys[..i], n.values[..i], n.children[..i]);
    }
  }

  lemma {:induction false} FrontNone<V>(ks: seq<int>, vs: seq<V>, cs: seq<Node<V>>)
    requires |ks| == |vs| == |cs| == 0
    ensures Front(ks, vs, cs) == []
  {
  }

  lemma {:induction false} TailFirst<V>(ks: seq<int>, vs: seq<V>, cs: seq<Node<V>>)
    requires |ks| == |vs| == |cs|
    ensures var t := Tail(ks, vs, cs); if ks == [] then t == [] else t != [] && t[0] == (ks[0], vs[0])
  {
  }

  /** A key in an ordered inner node separates everything else. */
  lemma {:induction false} Separates<V>(n: Node<V>, i: nat) returns (a: seq<Item<V>>, c: seq<Item<V>>)
    requires Inner(n) && Sorted(Flat(n)) && i < |n.keys|
    ensures a == Front(n.keys[..i], n.values[..i], n.children[..i])
    ensures c == Tail(n.keys[i + 1..], n.values[i + 1..], n.children[i + 2..])
    ensures Flat(n) == (a + Flat(n.children[i])) + [(n.keys[i], n.values[i])] + (Flat(n.children[i + 1]) + c)
    ensures AllBelow(a + Flat(n.children[i]), n.keys[i])
    ensures AllAbove(Flat(n.children[i + 1]) + c, n.keys[i])
  {
    hide Flat, Front, Tail;
    a := Front(n.keys[..i], n.values[..i], n.children[..i]);
    c := Tail(n.keys[i + 1..], n.values[i + 1..], n.children[i + 2..]);
    var l, m, r := Flat(n.children[i]), (n.keys[i], n.values[i]), Flat(n.children[i + 1]);
    Pair(n, i);
    Sandwich(a, l, [m], r, c);
    Separated(a + l, m, r + c);
  }

  /** The keys of an ordered node ascend. */
  lemma {:induction false} KeysAscend<V>(n: Node<V>)
    requires Inner(n) || Outer(n)
    requires Sorted(Flat(n))
    ensures forall i, j :: 0 <= i < j < |n.keys| ==> n.keys[i] < n.keys[j]
  {
    forall i, j | 0 <= i < j < |n.keys| ensures n.keys[i] < n.keys[j] {
      if n.isLeaf {
        assert Flat(n)[i].0 == n.keys[i] && Flat(n)[j].0 == n.keys[j];
      } else {
        var a, c := Separates(n, j);
        var l := Front(n.keys[..j], n.values[..j], n.children[..j]);
        FrontHas(n.keys[..j], n.values[..j], n.children[..j], i);
        var p :| 0 <= p < |l| && l[p].0 == n.keys[..j][i];
        assert (a + Flat(n.children[j]))[p].0 == n.keys[i];
      }
    }
  }

  lemma {:induction false} FrontHas<V>(ks: seq<int>, vs: seq<V>, cs: seq<Node<V>>, i: nat)
    requires |ks| == |vs| == |cs| && i < |ks|
    ensures exists p :: 0 <= p < |Front(ks, vs, cs)| && Front(ks, vs, cs)[p].0 == ks[i]
    decreases i
  {
    var f := Flat(cs[0]);
    var rest := Front(ks[1..], vs[1..], cs[1..]);
    if i == 0 {
      assert Front(ks, vs, cs)[|f|].0 == ks[0];
    } else {
      FrontHas(ks[1..], vs[1..], cs[1..], i - 1);
      var p :| 0 <= p < |rest| && rest[p].0 == ks[1..][i - 1];
      assert Front(ks, vs, cs)[|f| + 1 + p] == rest[p];
    }
  }
}
