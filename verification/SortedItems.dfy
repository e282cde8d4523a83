/**
 Strictly ascending key-value sequences: the reference view of the ordered maps
 kept by the B-tree.  `Put` and `Del` are map update and map removal on that
 view, written with order filters so that they distribute over concatenation.
 */
module SortedItems {
  import opened Common

  type Item<+V> = (int, V)

  ghost predicate Sorted<V>(s: seq<Item<V>>) {
    forall i, j :: 0 <= i < j < |s| ==> s[i].0 < s[j].0
  }

  ghost predicate AllBelow<V>(s: seq<Item<V>>, k: int) {
    forall i :: 0 <= i < |s| ==> s[i].0 < k
  }

  ghost predicate AllAbove<V>(s: seq<Item<V>>, k: int) {
    forall i :: 0 <= i < |s| ==> s[i].0 > k
  }

  ghost function Lower<V>(s: seq<Item<V>>, k: int): seq<Item<V>> {
    if s == [] then [] else (if s[0].0 < k then [s[0]] else []) + Lower(s[1..], k)
  }

  ghost function Upper<V>(s: seq<Item<V>>, k: int): seq<Item<V>> {
    if s == [] then [] else (if s[0].0 > k then [s[0]] else []) + Upper(s[1..], k)
  }

  ghost function Put<V>(s: seq<Item<V>>, k: int, v: V): seq<Item<V>> {
    Lower(s, k) + [(k, v)] + Upper(s, k)
  }

  ghost function Del<V>(s: seq<Item<V>>, k: int): seq<Item<V>> {
    Lower(s, k) + Upper(s, k)
  }

  ghost function Lookup<V>(s: seq<Item<V>>, k: int): Option<V> {
    if s == [] then None else if s[0].0 == k then Some(s[0].1) else Lookup(s[1..], k)
  }

  lemma {:induction false} Sandwich<T>(a: seq<T>, x: seq<T>, y: seq<T>, z: seq<T>, b: seq<T>)
    ensures a + (x + y + z) + b == (a + x) + y + (z + b)
    ensures a + (x + z) + b == (a + x) + (z + b)
  {
  }

  lemma {:induction false} FilterConcat<V>(a: seq<Item<V>>, b: seq<Item<V>>, k: int)
    ensures Lower(a + b, k) == Lower(a, k) + Lower(b, k)
    ensures Upper(a + b, k) == Upper(a, k) + Upper(b, k)
  {
    LowerConcat(a, b, k);
    UpperConcat(a, b, k);
  }

  lemma {:induction false} LowerConcat<V>(a: seq<Item<V>>, b: seq<Item<V>>, k: int)
    ensures Lower(a + b, k) == Lower(a, k) + Lower(b, k)
  {
    if a == [] {
      assert a + b == b;
    } else {
      assert (a + b)[1..] == a[1..] + b;
      LowerConcat(a[1..], b, k);
    }
  }

  lemma {:induction false} UpperConcat<V>(a: seq<Item<V>>, b: seq<Item<V>>, k: int)
    ensures Upper(a + b, k) == Upper(a, k) + Upper(b, k)
  {
    if a == [] {
      assert a + b == b;
    } else {
      assert (a + b)[1..] == a[1..] + b;
      UpperConcat(a[1..], b, k);
    }
  }

  lemma {:induction false} FilterBelow<V>(a: seq<Item<V>>, k: int)
    requires AllBelow(a, k)
    ensures Lower(a, k) == a && Upper(a, k) == []
  {
    if a != [] {
      FilterBelow(a[1..], k);
    }
  }

  lemma {:induction false} FilterAbove<V>(a: seq<Item<V>>, k: int)
    requires AllAbove(a, k)
    ensures Lower(a, k) == [] && Upper(a, k) == a
  {
    if a != [] {
      FilterAbove(a[1..], k);
    }
  }

  lemma {:induction false} LookupConcat<V>(a: seq<Item<V>>, b: seq<Item<V>>, k: int)
    ensures Lookup(a + b, k) == if Lookup(a, k).Some? then Lookup(a, k) else Lookup(b, k)
  {
    if a == [] {
      assert a + b == b;
    } else {
      assert (a + b)[1..] == a[1..] + b;
      LookupConcat(a[1..], b, k);
    }
  }

  lemma {:induction false} LookupMissing<V>(a: seq<Item<V>>, k: int)
    requires AllBelow(a, k) || AllAbove(a, k)
    ensures Lookup(a, k) == None
  {
    if a != [] {
      LookupMissing(a[1..], k);
    }
  }

  /** Everything about `k` in a + f + c happens inside f when a lies below k and c above it. */
  lemma {:induction false} Within<V>(a: seq<Item<V>>, f: seq<Item<V>>, c: seq<Item<V>>, k: int)
    requires AllBelow(a, k) && AllAbove(c, k)
    ensures Lower(a + f + c, k) == a + Lower(f, k)
    ensures Upper(a + f + c, k) == Upper(f, k) + c
    ensures Lookup(a + f + c, k) == Lookup(f, k)
  {
    FilterConcat(a + f, c, k);
    FilterConcat(a, f, k);
    FilterBelow(a, k);
    FilterAbove(c, k);
    LookupConcat(a + f, c, k);
    LookupConcat(a, f, k);
    LookupMissing(a, k);
    LookupMissing(c, k);
  }

  /** The filters at a key that is present. */
  lemma {:induction false} Hit<V>(a: seq<Item<V>>, k: int, was: V, c: seq<Item<V>>)
    requires AllBelow(a, k) && AllAbove(c, k)
    ensures Lower(a + [(k, was)] + c, k) == a
    ensures Upper(a + [(k, was)] + c, k) == c
    ensures Lookup(a + [(k, was)] + c, k) == Some(was)
  {
    Within(a, [(k, was)], c, k);
  }

  /** The filters at a key that is absent. */
  lemma {:induction false} Miss<V>(a: seq<Item<V>>, k: int, c: seq<Item<V>>)
    requires AllBelow(a, k) && AllAbove(c, k)
    ensures Lower(a + c, k) == a && Upper(a + c, k) == c && Lookup(a + c, k) == None
  {
    Within(a, [], c, k);
    assert a + [] + c == a + c;
  }

  lemma {:induction false} SortedParts<V>(a: seq<Item<V>>, b: seq<Item<V>>)
    requires Sorted(a + b)
    ensures Sorted(a) && Sorted(b)
    ensures b != [] ==> AllBelow(a, b[0].0)
    ensures a != [] ==> AllAbove(b, a[|a| - 1].0)
  {
    var s := a + b;
    assert forall i :: 0 <= i < |a| ==> s[i] == a[i];
    assert forall i :: 0 <= i < |b| ==> s[|a| + i] == b[i];
  }

  /** A separator key bounds what stands on either side of it. */
  lemma {:induction false} Separated<V>(a: seq<Item<V>>, m: Item<V>, c: seq<Item<V>>)
    requires Sorted(a + [m] + c)
    ensures Sorted(a) && Sorted(c) && AllBelow(a, m.0) && AllAbove(c, m.0)
  {
    assert a + [m] + c == a + ([m] + c);
    SortedParts(a, [m] + c);
    SortedParts(a + [m], c);
  }

  ghost function KeySet<V>(s: seq<Item<V>>): set<int> {
    set i | 0 <= i < |s| :: s[i].0
  }

  /** The finite map that a sorted item sequence stands for. */
  ghost function Contents<V>(s: seq<Item<V>>): (m: map<int, V>)
    ensures m.Keys == KeySet(s)
  {
    LookupKeys(s);
    map k | k in KeySet(s) :: Lookup(s, k).value
  }

  lemma {:induction false} LookupKeys<V>(s: seq<Item<V>>)
    ensures forall k :: k in KeySet(s) <==> Lookup(s, k).Some?
  {
    if s != [] {
      LookupKeys(s[1..]);
      assert s == [s[0]] + s[1..];
      forall k ensures k in KeySet(s) <==> k == s[0].0 || k in KeySet(s[1..]) {
        if k in KeySet(s[1..]) {
          var i :| 0 <= i < |s[1..]| && s[1..][i].0 == k;
          assert s[i + 1].0 == k;
        }
        if k in KeySet(s) && k != s[0].0 {
          var i :| 0 <= i < |s| && s[i].0 == k;
          assert s[1..][i - 1].0 == k;
        }
      }
    }
  }

  lemma {:induction false} FilterSorted<V>(s: seq<Item<V>>, k: int)
    requires Sorted(s)
    ensures AllBelow(Lower(s, k), k) && AllAbove(Upper(s, k), k)
    ensures Sorted(Lower(s, k)) && Sorted(Upper(s, k))
    ensures Lookup(s, k) == None ==> s == Lower(s, k) + Upper(s, k)
    ensures Lookup(s, k).Some? ==> s == Lower(s, k) + [(k, Lookup(s, k).value)] + Upper(s, k)
  {
    var a, m, c := CutAt(s, k);
    if m == [] {
      assert s == a + c;
      Miss(a, k, c);
    } else {
      assert m == [(k, m[0].1)];
      Hit(a, k, m[0].1, c);
    }
  }

  /** A sorted sequence falls into what lies below k, k itself if it is there, and what lies above. */
  lemma {:induction false} CutAt<V>(s: seq<Item<V>>, k: int)
      returns (a: seq<Item<V>>, m: seq<Item<V>>, c: seq<Item<V>>)
    requires Sorted(s)
    ensures s == a + m + c
    ensures AllBelow(a, k) && AllAbove(c, k) && Sorted(a) && Sorted(c)
    ensures m == [] || (|m| == 1 && m[0].0 == k)
  {
    var cut := Cut(s, k);
    a := s[..cut];
    if cut < |s| && s[cut].0 == k {
      m, c := [s[cut]], s[cut + 1..];
    } else {
      m, c := [], s[cut..];
    }
  }

  /** Where a sorted sequence first reaches k. */
  ghost function Cut<V>(s: seq<Item<V>>, k: int): (c: nat)
    requires Sorted(s)
    ensures c <= |s|
    ensures AllBelow(s[..c], k)
    ensures forall i :: c <= i < |s| ==> s[i].0 >= k
  {
    if s == [] || s[|s| - 1].0 < k then |s|
    else
      assert Sorted(s[..|s| - 1]);
      var c := Cut(s[..|s| - 1], k);
      assert s[..|s| - 1][..c] == s[..c];
      c
  }

  lemma {:induction false} JoinSorted<V>(a: seq<Item<V>>, k: int, c: seq<Item<V>>)
    requires Sorted(a) && Sorted(c) && AllBelow(a, k) && AllAbove(c, k)
    ensures Sorted(a + c)
    ensures forall v: V :: Sorted(a + [(k, v)] + c)
  {
  }

  /** Lookups determine the map. */
  lemma {:induction false} ContentsFrom<V>(s: seq<Item<V>>, m: map<int, V>)
    requires forall x :: Lookup(s, x) == if x in m then Some(m[x]) else None
    ensures Contents(s) == m
  {
    LookupKeys(s);
    forall x ensures x in Contents(s) <==> x in m {
      assert Lookup(s, x).Some? <==> x in m;
    }
    assert Contents(s).Keys == m.Keys;
  }

  lemma {:induction false} PutSorted<V>(s: seq<Item<V>>, k: int, v: V)
    requires Sorted(s)
    ensures Sorted(Put(s, k, v)) && |Put(s, k, v)| == |s| + if Lookup(s, k).Some? then 0 else 1
  {
    hide Sorted, Lower, Upper, Lookup;
    FilterSorted(s, k);
    JoinSorted(Lower(s, k), k, Upper(s, k));
  }

  lemma {:induction false} PutLookup<V>(s: seq<Item<V>>, k: int, v: V, x: int)
    requires Sorted(s)
    ensures Lookup(Put(s, k, v), x) == if x == k then Some(v) else Lookup(s, x)
  {
    hide Sorted, Lower, Upper, Lookup;
    FilterSorted(s, k);
    if x == k { Hit(Lower(s, k), k, v, Upper(s, k)); } else { LookupElsewhere(s, k, v, x); }
  }

  /** `Put` is map update. */
  lemma {:induction false} PutIsUpdate<V>(s: seq<Item<V>>, k: int, v: V)
    requires Sorted(s)
    ensures Sorted(Put(s, k, v))
    ensures Contents(Put(s, k, v)) == Contents(s)[k := v]
    ensures |Put(s, k, v)| == |s| + if Lookup(s, k).Some? then 0 else 1
  {
    hide Sorted, Put, Lookup, KeySet;
    PutSorted(s, k, v);
    LookupKeys(s);
    var m := Contents(s)[k := v];
    forall x ensures Lookup(Put(s, k, v), x) == if x in m then Some(m[x]) else None { PutLookup(s, k, v, x); }
    ContentsFrom(Put(s, k, v), m);
  }

  lemma {:induction false} DelSorted<V>(s: seq<Item<V>>, k: int)
    requires Sorted(s)
    ensures Sorted(Del(s, k)) && |Del(s, k)| == |s| - if Lookup(s, k).Some? then 1 else 0
  {
    hide Sorted, Lower, Upper, Lookup;
    FilterSorted(s, k);
    JoinSorted(Lower(s, k), k, Upper(s, k));
  }

  lemma {:induction false} DelLookup<V>(s: seq<Item<V>>, k: int, x: int)
    requires Sorted(s)
    ensures Lookup(Del(s, k), x) == if x == k then None else Lookup(s, x)
  {
    hide Sorted, Lower, Upper, Lookup;
    FilterSorted(s, k);
    if x == k { Miss(Lower(s, k), k, Upper(s, k)); } else { LookupAfterDel(s, k, x); }
  }

  /** `Del` is map removal. */
  lemma {:induction false} DelIsRemoval<V>(s: seq<Item<V>>, k: int)
    requires Sorted(s)
    ensures Sorted(Del(s, k))
    ensures Contents(Del(s, k)) == Contents(s) - {k}
    ensures |Del(s, k)| == |s| - if Lookup(s, k).Some? then 1 else 0
  {
    hide Sorted, Del, Lookup, KeySet;
    DelSorted(s, k);
    LookupKeys(s);
    var m: map<int, V> := Contents(s) - {k};
    forall x ensures Lookup(Del(s, k), x) == if x in m then Some(m[x]) else None { DelLookup(s, k, x); }
    ContentsFrom(Del(s, k), m);
  }

  lemma {:induction false} LookupAfterDel<V>(s: seq<Item<V>>, k: int, x: int)
    requires Sorted(s) && x != k
    ensures Lookup(Del(s, k), x) == Lookup(s, x)
  {
    var a, c := Lower(s, k), Upper(s, k);
    FilterSorted(s, k);
    LookupConcat(a, c, x);
    if Lookup(s, k).Some? {
      var was := Lookup(s, k).value;
      LookupConcat(a + [(k, was)], c, x);
      LookupConcat(a, [(k, was)], x);
    }
  }

  lemma {:induction false} LookupElsewhere<V>(s: seq<Item<V>>, k: int, v: V, x: int)
    requires Sorted(s) && x != k
    ensures Lookup(Put(s, k, v), x) == Lookup(s, x)
  {
    var a, c := Lower(s, k), Upper(s, k);
    FilterSorted(s, k);
    LookupConcat(a + [(k, v)], c, x);
    LookupConcat(a, [(k, v)], x);
    LookupConcat(a, c, x);
    if Lookup(s, k).Some? {
      var was := Lookup(s, k).value;
      LookupConcat(a + [(k, was)], c, x);
      LookupConcat(a, [(k, was)], x);
    }
  }
}
