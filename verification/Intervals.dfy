/** Sets of disjoint intervals, and the point-to-value functions they stand for. */
module Intervals {
  import opened Common

  const WORD: nat := 0x1_0000_0000_0000_0000

  /** `usize` */
  type Word = x: nat | x < 0x1_0000_0000_0000_0000

  /** Arithmetic on words wraps around. */
  function Wrap(x: int): Word { x % WORD }

  datatype Range<V> = Range(start: Word, end: Word, value: V)

  datatype InsertError = InvalidRange | Overlap

  type Store<V> = map<int, Range<V>>

  // ------------------------------------------------------- intervals and points

  /** Entries sit under their start, are not empty and do not overlap. */
  ghost predicate Disjoint<V>(t: Store<V>) {
    && (forall k :: k in t ==> t[k].start == k < t[k].end)
    && (forall k, k' :: k in t && k' in t && k < k' ==> t[k].end <= k')
  }

  predicate Meets<V>(r: Range<V>, start: int, end: int) { !(end <= r.start || start >= r.end) }

  ghost predicate Overlaps<V>(t: Store<V>, start: int, end: int) {
    exists k :: k in t && Meets(t[k], start, end)
  }

  ghost predicate Covers<V>(t: Store<V>, p: nat, k: int) { k in t && t[k].start <= p < t[k].end }

  /** The partial function from points to values that the intervals stand for. */
  ghost function ValueAt<V>(t: Store<V>, p: nat): Option<V> {
    if k :| Covers(t, p, k) then Some(t[k].value) else None
  }

  ghost predicate SamePoints<V>(t: Store<V>, t': Store<V>) {
    forall p: nat :: ValueAt(t', p) == ValueAt(t, p)
  }

  lemma {:induction false} OneCover<V>(t: Store<V>, p: nat, k: int)
    requires Disjoint(t) && Covers(t, p, k)
    ensures ValueAt(t, p) == Some(t[k].value)
    ensures forall k' :: Covers(t, p, k') ==> k' == k
  {
  }

  lemma {:induction false} NoCover<V>(t: Store<V>, p: nat)
    requires forall k :: k in t ==> !Covers(t, p, k)
    ensures ValueAt(t, p) == None
  {
  }

  /** Adding a free interval defines the function on its points and nowhere else. */
  lemma {:induction false} AddedPoints<V>(t: Store<V>, r: Range<V>, p: nat)
    requires Disjoint(t) && r.start < r.end && !Overlaps(t, r.start, r.end)
    ensures r.start !in t && Disjoint(t[r.start := r])
    ensures ValueAt(t[r.start := r], p) == if r.start <= p < r.end then Some(r.value) else ValueAt(t, p)
    ensures r.start <= p < r.end ==> ValueAt(t, p) == None
  {
    var t' := t[r.start := r];
    assert r.start in t ==> Meets(t[r.start], r.start, r.end);
    assert Disjoint(t') by {
      forall k | k in t ensures t[k].end <= r.start || r.end <= k { assert !Meets(t[k], r.start, r.end); }
    }
    if r.start <= p < r.end {
      OneCover(t', p, r.start);
      forall k | k in t ensures !Covers(t, p, k) { assert !Meets(t[k], r.start, r.end); }
      NoCover(t, p);
    } else if k :| Covers(t, p, k) {
      OneCover(t, p, k);
      OneCover(t', p, k);
    } else {
      NoCover(t, p);
      NoCover(t', p);
    }
  }

  /** Removing an interval undefines the function on its points and nowhere else. */
  lemma {:induction false} RemovedPoints<V>(t: Store<V>, s: int, p: nat)
    requires Disjoint(t) && s in t
    ensures Disjoint(t - {s})
    ensures ValueAt(t - {s}, p) == if s <= p < t[s].end then None else ValueAt(t, p)
  {
    if s <= p < t[s].end {
      OneCover(t, p, s);
      NoCover(t - {s}, p);
    } else if k :| Covers(t, p, k) {
      OneCover(t, p, k);
      OneCover(t - {s}, p, k);
    } else {
      NoCover(t, p);
      NoCover(t - {s}, p);
    }
  }

  // ----------------------------------------------------------------- iteration

  /** s lists the entries of t in ascending order. */
  ghost predicate Lists<V>(s: seq<Range<V>>, t: Store<V>) {
    && (forall i :: 0 <= i < |s| ==> s[i].start in t && t[s[i].start] == s[i])
    && (forall i, j :: 0 <= i < j < |s| ==> s[i].start < s[j].start)
    && (forall k :: k in t ==> exists i :: 0 <= i < |s| && s[i].start == k)
  }

  lemma {:induction false} ListedInOrder<V>(s: seq<Range<V>>, t: Store<V>)
    requires Lists(s, t) && Disjoint(t)
    ensures forall i :: 0 <= i < |s| ==> s[i].start < s[i].end
    ensures forall i, j :: 0 <= i < j < |s| ==> s[i].end <= s[j].start
    ensures forall k :: k in t ==> t[k] in s
  {
    forall k | k in t ensures t[k] in s {
      var i :| 0 <= i < |s| && s[i].start == k;
      assert s[i] in s;
    }
  }

  lemma {:induction false} ListAppend<V>(s: seq<Range<V>>, t: Store<V>, r: Range<V>)
    requires Lists(s, t) && forall i :: 0 <= i < |s| ==> s[i].start < r.start
    ensures Lists(s + [r], t[r.start := r])
  {
    var s', t' := s + [r], t[r.start := r];
    forall k | k in t' ensures exists i :: 0 <= i < |s'| && s'[i].start == k {
      if k == r.start {
        assert s'[|s|].start == k;
      } else {
        var i :| 0 <= i < |s| && s[i].start == k;
        assert s'[i].start == k;
      }
    }
  }

  // --------------------------------------------------------------------- gaps

  /** `size` free addresses from a on, inside the window. */
  ghost predicate Gap<V>(t: Store<V>, a: nat, size: nat, lo: nat, hi: nat) {
    lo <= a && a + size <= hi && !Overlaps(t, a, a + size)
  }

  ghost predicate LowestGap<V>(t: Store<V>, r: Option<nat>, size: nat, lo: nat, hi: nat) {
    match r
    case None => forall a: nat :: !Gap(t, a, size, lo, hi)
    case Some(a) => Gap(t, a, size, lo, hi) && forall b: nat :: Gap(t, b, size, lo, hi) ==> a <= b
  }

  ghost predicate HighestGap<V>(t: Store<V>, r: Option<nat>, size: nat, lo: nat, hi: nat) {
    match r
    case None => forall a: nat :: !Gap(t, a, size, lo, hi)
    case Some(a) => Gap(t, a, size, lo, hi) && forall b: nat :: Gap(t, b, size, lo, hi) ==> b <= a
  }

  /**
   The guard of `find_gap`'s first test, which does not look at the end of the
   window, and whose sum may wrap around.
   */
  ghost predicate FirstTestOverruns<V>(t: Store<V>, size: nat, start: nat, end: nat) {
    && t != map[]
    && if start + size < WORD then end - start < size && forall k :: k in t ==> start + size <= k
       else (forall k :: k in t ==> start + size - WORD <= k) && exists k :: k in t && k < start
  }

  lemma {:induction false} GapInList<V>(s: seq<Range<V>>, t: Store<V>, a: nat, size: nat, lo: nat, hi: nat)
    requires Lists(s, t) && Disjoint(t)
    ensures Gap(t, a, size, lo, hi) <==>
      lo <= a && a + size <= hi && forall i :: 0 <= i < |s| ==> a + size <= s[i].start || s[i].end <= a
  {
    ListedInOrder(s, t);
    if lo <= a && a + size <= hi {
      if Overlaps(t, a, a + size) {
        var k :| k in t && Meets(t[k], a, a + size);
        var i :| 0 <= i < |s| && s[i] == t[k];
        assert Meets(s[i], a, a + size);
      } else {
        forall i | 0 <= i < |s| ensures a + size <= s[i].start || s[i].end <= a {
          assert !Meets(t[s[i].start], a, a + size);
        }
      }
    }
  }
}
