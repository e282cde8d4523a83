/**
 The interval tree (`mptree`): intervals stored in a B-tree under their start.
 Removal from the B-tree may panic; every operation says exactly when.
 */
module MapleTree {
  import opened Common
  import opened SortedItems
  import opened BTreeNode
  import BTreeInsert
  import opened BTreeRemove
  import BTreeMap
  import opened BTreeEdges
  import BTreeIter
  import BTree
  import opened Intervals

  class MapleTree<V(==)> {
    const store: BTree.BTree<Range<V>>

    ghost function Tree(): Store<V>
      reads store
    {
      store.View()
    }

    ghost predicate Valid()
      reads store
    {
      store.Valid() && Disjoint(Tree())
    }

    lemma Parts()
      requires Valid()
      ensures store.Valid() && Reach(store.root, store.height) && store.len == |Flat(store.root)| && Disjoint(Tree())
      ensures forall k :: store.Panics(k) <==> Starved(store.root) || Stranded(store.root, k)
    {
    }

    constructor ()
      ensures Valid() && fresh(store) && Tree() == map[] && store.root.isLeaf && !Full(store.root)
    {
      store := new BTree.BTree();
    }

    /** The intervals in the order in which `BTreeIter` yields them. */
    method Entries() returns (s: seq<Range<V>>)
      requires Valid()
      ensures s == Ranges(Flat(store.root)) && Lists(s, Tree())
    {
      ListsRanges(store.root, store.height);
      var items := BTreeIter.Collect(store.root);
      s := seq(|items|, i requires 0 <= i < |items| => items[i].1);
    }

    method HasOverlap(start: Word, end: Word) returns (b: bool)
      requires Valid()
      ensures b <==> Overlaps(Tree(), start, end)
    {
      hide *;
      var s := Entries();
      OverlapsListed(s, Tree(), start, end);
      for i := 0 to |s|
        invariant forall j :: 0 <= j < i ==> !Meets(s[j], start, end)
      {
        if Meets(s[i], start, end) {
          return true;
        }
      }
      b := false;
    }

    method Find(point: Word) returns (r: Option<Range<V>>)
      requires Valid()
      ensures r == None ==> ValueAt(Tree(), point) == None
      ensures r.Some? ==>
        && ValueAt(Tree(), point) == Some(r.value.value) && Covers(Tree(), point, r.value.start)
        && Tree()[r.value.start] == r.value
    {
      hide *;
      Parts();
      var s := Entries();
      for i := 0 to |s|
        invariant forall j :: 0 <= j < i ==> !(s[j].start <= point < s[j].end)
      {
        if s[i].start <= point < s[i].end {
          CoverListed(s, Tree(), point, i);
          return Some(s[i]);
        }
      }
      NoCoverListed(s, Tree(), point);
      r := None;
    }

    /** Adds a free, non-empty interval; never replaces one and never panics. */
    method Insert(start: Word, end: Word, value: V) returns (r: Result<Option<V>, InsertError>)
      requires Valid()
      modifies store
      ensures Valid()
      ensures r ==
        if start >= end then Err(InvalidRange) else if Overlaps(old(Tree()), start, end) then Err(Overlap) else Ok(None)
      ensures Tree() == if r.Ok? then old(Tree())[start := Range(start, end, value)] else old(Tree())
      ensures r.Ok? ==> start !in old(Tree()) && store.len == old(store.len) + 1
      ensures r.Ok? ==>
        AfterInsert(old(store.root), old(store.height), store.root, store.height, Range(start, end, value))
    {
      if start >= end {
        return Err(InvalidRange);
      }
      var taken := HasOverlap(start, end);
      if taken {
        return Err(Overlap);
      }
      AddedPoints(Tree(), Range(start, end, value), start);
      var was := Put(Range(start, end, value));
      r := match was case None => Ok(None) case Some(e) => Ok(Some(e.value));
    }

    /** `BTree::insert` at a start that is not in use. */
    method Put(entry: Range<V>) returns (was: Option<Range<V>>)
      requires store.Valid() && entry.start !in Tree()
      modifies store
      ensures store.Valid() && Tree() == old(Tree())[entry.start := entry] && was == None
      ensures store.len == old(store.len) + 1
      ensures AfterInsert(old(store.root), old(store.height), store.root, store.height, entry)
    {
      hide Flat, Reach, BTreeMap.Insert, Lookup;
      NoCollision(store.root, store.height, entry);
      was := store.Insert(entry.start, entry);
    }

    /** `BTree::remove` */
    method Remove(start: Word) returns (panicked: bool, r: Option<(Word, V)>)
      requires Valid()
      modifies store
      ensures panicked <==> old(store.Panics(start))
      ensures !panicked ==>
        && Valid() && Tree() == old(Tree()) - {start}
        && r == (if start in old(Tree()) then Some((old(Tree())[start].end, old(Tree())[start].value)) else None)
        && store.len == old(store.len) - (if r.Some? then 1 else 0)
        && AfterRemove(old(store.root), old(store.height), store.root, store.height, start)
    {
      hide Flat, Reach, BTreeMap.Remove;
      WithoutOne(Tree(), start);
      var was: Option<Range<V>>;
      panicked, was := store.Remove(start);
      r := if was.Some? then Some((was.value.end, was.value.value)) else None;
    }

    /** The entry survives a refusal, except when the new end is not beyond the start. */
    method UpdateEnd(start: Word, newEnd: Word) returns (panicked: bool, r: Result<(), InsertError>)
      requires Valid()
      modifies store
      ensures panicked <==> old(store.Panics(start))
      ensures !panicked ==> Valid()
      ensures !panicked ==>
        r == (if start !in old(Tree()) then Err(InvalidRange)
              else if Overlaps(old(Tree()) - {start}, start, newEnd) then Err(Overlap)
              else if newEnd <= start then Err(InvalidRange)
              else Ok(()))
      ensures !panicked && r.Ok? ==> Tree() == old(Tree())[start := old(Tree())[start].(end := newEnd)]
      ensures !panicked && r.Err? ==> (Tree() == old(Tree()) <==> !(start in old(Tree()) && newEnd <= start))
      ensures !panicked && r.Err? && Tree() != old(Tree()) ==> Tree() == old(Tree()) - {start}
    {
      hide Disjoint, Overlaps, Flat, Reach, AfterInsert, AfterRemove;
      ghost var t := Tree();
      r := Err(InvalidRange);
      var removed: Option<(Word, V)>;
      panicked, removed := Remove(start);
      if panicked || removed == None {
        return;
      }
      Without(t, start, newEnd);
      var (oldEnd, value) := removed.value;
      var taken := HasOverlap(start, newEnd);
      if taken {
        var restored := Insert(start, oldEnd, value);
        return false, Err(Overlap);
      }
      var done := Insert(start, newEnd, value);
      SamePut(t, start, Range(start, newEnd, value));
      r := if done.Ok? then Ok(()) else Err(done.error);
    }

    /** Puts a new interval at this start, or leaves everything as it was. */
    method Replace(start: Word, end: Word, value: V) returns (panicked: bool, r: Result<Option<(Word, V)>, InsertError>)
      requires Valid()
      modifies store
      ensures panicked <==> old(store.Panics(start))
      ensures !panicked ==> Valid()
      ensures !panicked && r.Err? ==> r == if start >= end then Err(InvalidRange) else Err(Overlap)
      ensures !panicked ==> (r.Ok? <==> start < end && !Overlaps(old(Tree()) - {start}, start, end))
      ensures !panicked ==> Tree() == if r.Ok? then old(Tree())[start := Range(start, end, value)] else old(Tree())
      ensures !panicked && r.Ok? ==>
        r.value == if start in old(Tree()) then Some((old(Tree())[start].end, old(Tree())[start].value)) else None
    {
      hide Disjoint, Overlaps, Flat, Reach, AfterInsert, AfterRemove;
      ghost var t := Tree();
      r := Err(InvalidRange);
      var was: Option<(Word, V)>;
      panicked, was := Remove(start);
      if panicked {
        return;
      }
      var added := Insert(start, end, value);
      SamePut(t, start, Range(start, end, value));
      if added.Ok? {
        return false, Ok(was);
      }
      if was.Some? {
        Without(t, start, end);
        var restored := Insert(start, was.value.0, was.value.1);
      } else {
        assert t - {start} == t;
      }
      r := Err(added.error);
    }

    /** Moves the start of an interval, keeping its end and value. */
    method MoveStart(oldStart: Word, newStart: Word) returns (panicked: bool, r: Result<(Word, Word), InsertError>)
      requires Valid()
      modifies store
      ensures var t := old(Tree());
        var movable := Movable(t, oldStart, newStart);
        && (panicked <==> movable && old(store.Panics(oldStart)))
        && (!panicked ==> Valid())
        && (!panicked && !movable ==>
            && Tree() == t
            && r == if oldStart !in t || newStart >= t[oldStart].end then Err(InvalidRange) else Err(Overlap))
        && (!panicked && movable ==>
            && r == Ok((oldStart, t[oldStart].end)) && newStart !in t - {oldStart}
            && Tree() == (t - {oldStart})[newStart := t[oldStart].(start := newStart)])
    {
      hide Flat, Reach, AfterInsert, AfterRemove, Disjoint, Overlaps;
      panicked := false;
      var found := BTreeMap.Get(store.root, oldStart);
      GetIsView(store.root, store.height, oldStart);
      if found == None {
        return false, Err(InvalidRange);
      }
      var oldEnd := found.value.end;
      if newStart >= oldEnd {
        return false, Err(InvalidRange);
      }
      var taken := OthersMeet(oldStart, newStart, oldEnd);
      if taken {
        return false, Err(Overlap);
      }
      ghost var t := Tree();
      var entry := found.value.(start := newStart);
      Without(t, oldStart, oldEnd);
      AddedPoints(t - {oldStart}, entry, newStart);
      var removed: Option<(Word, V)>;
      panicked, removed := Remove(oldStart);
      if panicked {
        return true, Err(InvalidRange);
      }
      var replaced := Put(entry);
      r := Ok((oldStart, oldEnd));
    }

    /** The overlap test of `move_start`, which passes over the interval to be moved. */
    method OthersMeet(but: Word, start: Word, end: Word) returns (b: bool)
      requires Valid()
      ensures b <==> Overlaps(Tree() - {but}, start, end)
    {
      hide *;
      var s := Entries();
      OthersListed(s, Tree(), but, start, end);
      for i := 0 to |s|
        invariant forall j :: 0 <= j < i && s[j].start != but ==> !Meets(s[j], start, end)
      {
        if s[i].start != but && Meets(s[i], start, end) {
          return true;
        }
      }
      b := false;
    }

    /** The intervals that meet the range, in ascending order. */
    method Intersecting(start: Word, end: Word) returns (met: seq<Range<V>>)
      requires Valid()
      ensures met == Meeting(Ranges(Flat(store.root)), start, end) && Lists(met, Met(Tree(), start, end))
    {
      hide *;
      var s := Entries();
      met := [];
      MeetingNone<V>(start, end);
      for i := 0 to |s|
        invariant met == Meeting(s[..i], start, end)
      {
        MeetingNext(s, i, start, end);
        if Meets(s[i], start, end) { met := met + [s[i]]; }
      }
      assert s[..|s|] == s;
      MeetingLists(s, Tree(), start, end);
    }

    /** Makes room for an interval by removing every interval it meets. */
    method InsertOverwrite(start: Word, end: Word, value: V)
      returns (panicked: bool, r: Result<seq<Range<V>>, InsertError>)
      requires Valid()
      modifies store
      ensures var met := Meeting(old(Ranges(Flat(store.root))), start, end);
        panicked <==> start < end && PanicsOn(old(store.root), old(store.height), met)
      ensures !panicked ==> Valid()
      ensures !panicked ==> (r.Err? <==> start >= end)
      ensures !panicked && r.Err? ==> r == Err(InvalidRange) && Tree() == old(Tree())
      ensures !panicked && r.Ok? ==>
        && Lists(r.value, Met(old(Tree()), start, end))
        && Tree() == (old(Tree()) - Met(old(Tree()), start, end).Keys)[start := Range(start, end, value)]
    {
      panicked, r := false, Err(InvalidRange);
      if start >= end {
        return;
      }
      hide Disjoint, Lists, Overlaps, Meets, Flat, Reach, AfterInsert, PanicsOn;
      ghost var t := Tree();
      var met := Intersecting(start, end);
      var removed: seq<Range<V>>;
      panicked, removed := RemoveListed(met, Met(t, start, end));
      if panicked {
        return;
      }
      RoomMade(t, start, end);
      var added := Insert(start, end, value);
      r := Ok(removed);
    }

    method RemoveListed(met: seq<Range<V>>, ghost sub: Store<V>) returns (panicked: bool, removed: seq<Range<V>>)
      requires Valid() && Lists(met, sub) && forall k :: k in sub ==> k in Tree() && Tree()[k] == sub[k]
      modifies store
      ensures panicked <==> PanicsOn(old(store.root), old(store.height), met)
      ensures !panicked ==> Valid() && Tree() == old(Tree()) - sub.Keys && removed == met
    {
      hide *;
      Parts();
      ghost var t := Tree();
      removed := [];
      NoneLeft(t);
      assert met[0..] == met;
      for i := 0 to |met|
        invariant Valid() && removed == met[..i]
        invariant PanicsOn(old(store.root), old(store.height), met) == PanicsOn(store.root, store.height, met[i..])
        invariant LeftAfter(t, Tree(), met[..i])
      {
        ghost var left := Tree();
        StillThere(t, left, met, sub, i);
        ghost var r0, h0 := store.root, store.height;
        Parts();
        PanicsHere(r0, h0, met, i);
        var gone: Option<(Word, V)>;
        panicked, gone := Remove(met[i].start);
        if panicked {
          return;
        }
        PanicsLater(r0, h0, store.root, store.height, met, i);
        LeftOneLess(t, left, met, i);
        removed := removed + [Range(met[i].start, gone.value.0, gone.value.1)];
      }
      panicked := false;
      PanicsEnd(store.root, store.height, met);
      assert met[..|met|] == met;
      AllListedGone(t, Tree(), met, sub);
    }

    /** The interval that has this point strictly inside. */
    method FindInside(point: Word) returns (r: Option<Range<V>>)
      requires Valid()
      ensures r.Some? <==> exists k :: Inside(Tree(), point, k)
      ensures r.Some? ==> Inside(Tree(), point, r.value.start) && Tree()[r.value.start] == r.value
    {
      hide *;
      var s := Entries();
      InsideListed(s, Tree(), point);
      for i := 0 to |s|
        invariant forall j :: 0 <= j < i ==> !(s[j].start < point < s[j].end)
      {
        if s[i].start < point < s[i].end {
          return Some(s[i]);
        }
      }
      r := None;
    }

    /** Cuts the interval around a point in two; no point changes its value. */
    method SplitAt(point: Word) returns (panicked: bool, cut: bool)
      requires Valid()
      modifies store
      ensures panicked <==> exists k :: Inside(old(Tree()), point, k) && old(store.Panics(k))
      ensures !panicked ==> Valid() && SamePoints(old(Tree()), Tree())
      ensures !panicked ==> (cut <==> exists k :: Inside(old(Tree()), point, k))
      ensures !panicked && cut ==>
        exists k :: Inside(old(Tree()), point, k) && Tree() == Halves(old(Tree()), k, point)
      ensures !panicked && !cut ==> Tree() == old(Tree())
    {
      hide Disjoint, Overlaps, ValueAt, Flat, Reach, AfterInsert, AfterRemove;
      ghost var t := Tree();
      panicked, cut := false, false;
      var inside := FindInside(point);
      assert Tree() == t;
      if inside == None {
        return;
      }
      var e := inside.value;
      InsideOnce(t, point, e.start);
      HalvesKeep(t, e.start, point);
      var removed: Option<(Word, V)>;
      panicked, removed := Remove(e.start);
      if panicked {
        return;
      }
      var left := Insert(e.start, point, e.value);
      var right := Insert(point, e.end, e.value);
      assert Tree() == Halves(t, e.start, point);
      cut := true;
    }

    /** Joins touching intervals of equal value until none are left; no point changes its value. */
    method MergeAdjacentEqual() returns (panicked: bool, merged: nat)
      requires Valid()
      modifies store
      ensures panicked <==> MergePanics(old(store.root), old(store.height), old(store.len))
      ensures !panicked ==>
        && Valid() && SamePoints(old(Tree()), Tree()) && merged == old(store.len) - store.len
        && forall k, k' :: k in Tree() && k' in Tree() ==> !Mergeable(Tree(), k, k')
    {
      hide *;
      Parts();
      SameStays(Tree());
      panicked, merged := false, 0;
      while true
        invariant Valid() && SamePoints(old(Tree()), Tree()) && merged == old(store.len) - store.len
        invariant MergePanics(old(store.root), old(store.height), old(store.len))
               == MergePanics(store.root, store.height, store.len)
        decreases store.len
      {
        var s := Entries();
        var w := FirstPair(s, 0);
        Parts();
        MergeUnfolds(store.root, store.height, store.len);
        if w + 1 >= |s| {
          NothingMergeable(s, Tree());
          return;
        }
        ghost var t := Tree();
        panicked := MergePair(s, w);
        if panicked {
          return;
        }
        SameTrans(old(Tree()), t, Tree());
        merged := merged + 1;
      }
    }

    /** One turn of that loop. */
    method MergePair(s: seq<Range<V>>, w: nat) returns (panicked: bool)
      requires Valid() && s == Ranges(Flat(store.root)) && Lists(s, Tree()) && w + 1 < |s|
      requires Touching(s[w], s[w + 1])
      modifies store
      ensures panicked <==> PanicsOn(old(store.root), old(store.height), [s[w], s[w + 1]])
      ensures !panicked ==>
        && Valid() && SamePoints(old(Tree()), Tree()) && store.len == old(store.len) - 1
        && AfterPair(old(store.root), old(store.height), s[w], s[w + 1]) == Some((store.root, store.height))
    {
      hide *;
      Parts();
      ghost var t := Tree();
      var a, b := s[w], s[w + 1];
      ListedPair(s, t, w);
      JoinMakesRoom(t, a.start, b.start);
      JoinKeeps(t, a.start, b.start);
      ghost var r0, h0, list := store.root, store.height, [a, b];
      assert list[0..] == list;
      PanicsHere(r0, h0, list, 0);
      var first: Option<(Word, V)>;
      panicked, first := Remove(a.start);
      if panicked {
        return;
      }
      ghost var r1, h1 := store.root, store.height;
      Parts();
      PanicsLater(r0, h0, r1, h1, list, 0);
      PanicsHere(r1, h1, list, 1);
      var second: Option<(Word, V)>;
      panicked, second := Remove(b.start);
      if panicked {
        return;
      }
      ghost var r2, h2 := store.root, store.height;
      PanicsLater(r1, h1, r2, h2, list, 1);
      PanicsEnd(r2, h2, list);
      var joined := Insert(a.start, b.end, a.value);
      PairDone(r0, h0, r1, h1, r2, h2, store.root, store.height, a, b);
      assert Tree() == Joined(t, a.start, b.start);
    }

    /**
     The lowest free block of `size` addresses in [start, end), unless the test
     before the first interval overruns the window.  The sum start + size
     panics on overflow in a checked build and wraps around in an unchecked one.
     */
    method FindGap(size: Word, start: Word, end: Word, checked: bool) returns (panicked: bool, r: Option<Word>)
      requires Valid()
      ensures panicked <==> checked && start < end && size > 0 && Tree() != map[] && start + size >= WORD
      ensures !panicked && (start >= end || size == 0) ==> r == None
      ensures !panicked && start < end && size > 0 ==>
        (LowestGap(Tree(), r, size, start, end) <==> !FirstTestOverruns(Tree(), size, start, end))
      ensures !panicked && start < end && size > 0 && FirstTestOverruns(Tree(), size, start, end) ==> r == Some(start)
    {
      hide *;
      Parts();
      panicked, r := false, None;
      if start >= end || size == 0 {
        return;
      }
      var s := Entries();
      FirstTest(s, Tree(), size, start, end);
      if s == [] {
        return false, if end - start >= size then Some(start) else None;
      }
      if checked && start + size >= WORD {
        return true, None;
      }
      if s[0].start >= Wrap(start + size) && Wrap(s[0].start - start) >= size {
        return false, Some(start);
      }
      for i := 0 to |s| - 1
        invariant GapsFrom(Tree(), size, start, end, s[i].end)
      {
        var gapStart: Word, gapEnd: Word := Max(s[i].end, start), Min(s[i + 1].start, end);
        GapAfter(s, Tree(), size, start, end, i);
        if gapEnd > gapStart && gapEnd - gapStart >= size {
          return false, Some(gapStart);
        }
      }
      var gapStart: Word := Max(s[|s| - 1].end, start);
      GapAfter(s, Tree(), size, start, end, |s| - 1);
      if gapStart < end && end - gapStart >= size {
        r := Some(gapStart);
      }
    }

    /** The highest free block of `size` addresses in [end, start). */
    method FindGapReverse(size: Word, start: Word, end: Word) returns (r: Option<Word>)
      requires Valid()
      ensures start <= end || size == 0 ==> r == None
      ensures start > end && size > 0 ==> HighestGap(Tree(), r, size, end, start)
    {
      hide *;
      Parts();
      if start <= end || size == 0 {
        return None;
      }
      var s := Entries();
      LastTest(s, Tree(), size, end, start);
      if s != [] {
        var gapStart := Max(s[|s| - 1].end, end);
        if start > gapStart && start - gapStart >= size {
          return Some(start - size);
        }
      }
      var i := if s == [] then 0 else |s| - 1;
      while i > 0
        invariant 0 <= i && (i < |s| || (s == [] && i == 0))
        invariant s != [] ==> GapsUpTo(Tree(), size, end, start, s[i].start)
      {
        GapBefore(s, Tree(), size, end, start, i);
        i := i - 1;
        var gapStart, gapEnd := Max(s[i].end, end), Min(s[i + 1].start, start);
        if gapEnd > gapStart && gapEnd - gapStart >= size {
          return Some(gapEnd - size);
        }
      }
      if s == [] {
        if start - end >= size {
          return Some(start - size);
        }
      } else {
        GapBefore(s, Tree(), size, end, start, 0);
        if s[0].start > end {
          var gapEnd := Min(s[0].start, start);
          if gapEnd > end && gapEnd - end >= size {
            return Some(gapEnd - size);
          }
        }
      }
      r := None;
    }
  }

  // ---------------------------------------------------------------- over the B-tree

  /** The intervals of an item sequence. */
  ghost function Ranges<V>(items: seq<Item<Range<V>>>): (s: seq<Range<V>>)
    ensures |s| == |items| && forall i :: 0 <= i < |items| ==> s[i] == items[i].1
  {
    seq(|items|, i requires 0 <= i < |items| => items[i].1)
  }

  lemma {:induction false} ListsRanges<V>(root: Node<Range<V>>, h: nat)
    requires Reach(root, h) && Disjoint(Contents(Flat(root)))
    ensures BTreeIter.WellFormed(root) && Lists(Ranges(Flat(root)), Contents(Flat(root)))
  {
    BTreeIter.InvIsWellFormed(root, h, 0);
    ItemsList(Flat(root));
  }

  lemma {:induction false} ItemsList<V>(items: seq<Item<Range<V>>>)
    requires Sorted(items) && Disjoint(Contents(items))
    ensures Lists(Ranges(items), Contents(items))
  {
    var s, t := Ranges(items), Contents(items);
    forall i | 0 <= i < |items| ensures items[i].0 in t && t[items[i].0] == items[i].1 && s[i].start == items[i].0 {
      ItemAt(items, i);
    }
    forall k | k in t ensures exists i :: 0 <= i < |s| && s[i].start == k {
      var i :| 0 <= i < |items| && items[i].0 == k;
      assert s[i].start == k;
    }
  }

  lemma {:induction false} ItemAt<V>(items: seq<Item<V>>, i: nat)
    requires Sorted(items) && i < |items|
    ensures items[i].0 in Contents(items) && Contents(items)[items[i].0] == items[i].1
  {
    assert items[i].0 in KeySet(items);
    HitAt(items, i);
  }

  lemma {:induction false} GetIsView<V>(root: Node<V>, h: nat, k: int)
    requires Reach(root, h)
    ensures var m := Contents(Flat(root)); BTreeMap.Get(root, k) == if k in m then Some(m[k]) else None
  {
    BTreeMap.GetSpec(root, k, h);
    LookupKeys(Flat(root));
  }

  lemma {:induction false} NoCollision<V>(root: Node<Range<V>>, h: nat, entry: Range<V>)
    requires Reach(root, h) && entry.start !in Contents(Flat(root))
    ensures !BTreeInsert.Collides(root, entry.start)
  {
    LookupKeys(Flat(root));
    BTreeMap.AbsentNeverCollides(root, entry.start, entry, h);
  }

  /** The B-tree after one insertion, and after one removal. */
  ghost predicate AfterInsert<V>(root: Node<Range<V>>, h: nat, root': Node<Range<V>>, h': nat, entry: Range<V>) {
    && BTreeMap.Ordered(root, h) && h' == BTreeMap.GrownHeight(root, h)
    && root' == BTreeMap.Insert(root, entry.start, entry, h, 0).0
  }

  ghost predicate AfterRemove<V>(root: Node<Range<V>>, h: nat, root': Node<Range<V>>, h': nat, start: int) {
    && BTreeMap.Ordered(root, h) && h' == LeftHeight(root', h)
    && var r := BTreeMap.Remove(root, start, h); r.Removed? && r.node == root'
  }

  /** Removing these intervals one after the other panics at one of them. */
  ghost predicate PanicsOn<V>(root: Node<Range<V>>, h: nat, met: seq<Range<V>>)
    decreases met
  {
    && met != [] && BTreeMap.Ordered(root, h)
    && match BTreeMap.Remove(root, met[0].start, h)
       case Panic => true
       case Removed(r, _) => PanicsOn(r, LeftHeight(r, h), met[1..])
  }

  lemma {:induction false} PanicsStep<V>(root: Node<Range<V>>, h: nat, met: seq<Range<V>>)
    requires Reach(root, h) && met != []
    ensures PanicsOn(root, h, met) <==>
      || Starved(root) || Stranded(root, met[0].start)
      || var r := BTreeMap.Remove(root, met[0].start, h);
         r.Removed? && PanicsOn(r.node, LeftHeight(r.node, h), met[1..])
  {
    hide Flat, BTreeMap.Remove, Starved, Stranded;
    BTreeMap.RemoveIsRemovalIff(root, met[0].start, h);
  }

  /** Those conditions, i intervals into the list. */
  lemma {:induction false} PanicsHere<V>(root: Node<Range<V>>, h: nat, met: seq<Range<V>>, i: nat)
    requires Reach(root, h) && i < |met|
    ensures Starved(root) || Stranded(root, met[i].start) ==> PanicsOn(root, h, met[i..])
  {
    PanicsStep(root, h, met[i..]);
  }

  lemma {:induction false} PanicsLater<V>(r0: Node<Range<V>>, h0: nat, r1: Node<Range<V>>, h1: nat,
      met: seq<Range<V>>, i: nat)
    requires Reach(r0, h0) && i < |met| && AfterRemove(r0, h0, r1, h1, met[i].start)
    ensures PanicsOn(r0, h0, met[i..]) <==> PanicsOn(r1, h1, met[i + 1..])
  {
    hide Flat, BTreeMap.Remove, Starved, Stranded, PanicsOn, Reach;
    var rest := met[i..];
    assert rest[1..] == met[i + 1..];
    PanicsStep(r0, h0, rest);
    Exclusive(r0, h0, rest[0].start);
  }

  lemma {:induction false} PanicsEnd<V>(root: Node<Range<V>>, h: nat, met: seq<Range<V>>)
    ensures !PanicsOn(root, h, met[|met|..])
  {
  }

  lemma {:induction false} Exclusive<V>(root: Node<V>, h: nat, k: int)
    requires Reach(root, h)
    ensures BTreeMap.Ordered(root, h) && (BTreeMap.Remove(root, k, h).Panic? <==> Starved(root) || Stranded(root, k))
  {
    hide Flat, BTreeMap.Remove, Starved, Stranded;
    BTreeMap.RemoveIsRemovalIff(root, k, h);
  }

  /** The B-tree after the two removals and the insertion. */
  ghost function AfterPair<V>(root: Node<Range<V>>, h: nat, a: Range<V>, b: Range<V>): Option<(Node<Range<V>>, nat)> {
    if !BTreeMap.Ordered(root, h) then None
    else
      match BTreeMap.Remove(root, a.start, h)
      case Panic => None
      case Removed(r1, _) =>
        var h1 := LeftHeight(r1, h);
        if !BTreeMap.Ordered(r1, h1) then None
        else
          match BTreeMap.Remove(r1, b.start, h1)
          case Panic => None
          case Removed(r2, _) =>
            var h2 := LeftHeight(r2, h1);
            if !BTreeMap.Ordered(r2, h2) then None
            else
              var e := Range(a.start, b.end, a.value);
              Some((BTreeMap.Insert(r2, a.start, e, h2, 0).0, BTreeMap.GrownHeight(r2, h2)))
  }

  lemma {:induction false} PairDone<V>(r0: Node<Range<V>>, h0: nat, r1: Node<Range<V>>, h1: nat,
      r2: Node<Range<V>>, h2: nat, r3: Node<Range<V>>, h3: nat, a: Range<V>, b: Range<V>)
    requires AfterRemove(r0, h0, r1, h1, a.start) && AfterRemove(r1, h1, r2, h2, b.start)
    requires AfterInsert(r2, h2, r3, h3, Range(a.start, b.end, a.value))
    ensures AfterPair(r0, h0, a, b) == Some((r3, h3))
  {
    hide BTreeMap.Ordered, BTreeMap.Remove, BTreeMap.Insert, LeftHeight;
  }

  /** Merging until nothing can be merged panics on the way; n is the number of intervals. */
  ghost predicate MergePanics<V>(root: Node<Range<V>>, h: nat, n: nat)
    decreases n
  {
    var s := Ranges(Flat(root));
    var w := FirstPair(s, 0);
    && n > 0 && w + 1 < |s|
    && (PanicsOn(root, h, [s[w], s[w + 1]]) ||
        match AfterPair(root, h, s[w], s[w + 1])
        case None => false
        case Some((r, h')) => MergePanics(r, h', n - 1))
  }

  lemma {:induction false} OverlapsListed<V>(s: seq<Range<V>>, t: Store<V>, start: int, end: int)
    requires Lists(s, t)
    ensures Overlaps(t, start, end) <==> exists i :: 0 <= i < |s| && Meets(s[i], start, end)
  {
    if k :| k in t && Meets(t[k], start, end) {
      var i :| 0 <= i < |s| && s[i].start == k;
      assert Meets(s[i], start, end);
    }
  }

  lemma {:induction false} OthersListed<V>(s: seq<Range<V>>, t: Store<V>, but: int, start: int, end: int)
    requires Lists(s, t)
    ensures Overlaps(t - {but}, start, end) <==>
      exists i :: 0 <= i < |s| && s[i].start != but && Meets(s[i], start, end)
  {
    var t': Store<V> := t - {but};
    if k :| k in t' && Meets(t'[k], start, end) {
      var i :| 0 <= i < |s| && s[i].start == k;
      assert Meets(s[i], start, end);
    }
    if i :| 0 <= i < |s| && s[i].start != but && Meets(s[i], start, end) {
      assert t'[s[i].start] == s[i];
    }
  }

  lemma {:induction false} CoverListed<V>(s: seq<Range<V>>, t: Store<V>, point: nat, i: nat)
    requires Lists(s, t) && Disjoint(t) && i < |s| && s[i].start <= point < s[i].end
    ensures ValueAt(t, point) == Some(s[i].value) && Covers(t, point, s[i].start) && t[s[i].start] == s[i]
  {
    hide Disjoint;
    OneCover(t, point, s[i].start);
  }

  lemma {:induction false} NoCoverListed<V>(s: seq<Range<V>>, t: Store<V>, point: nat)
    requires Lists(s, t) && forall i :: 0 <= i < |s| ==> !(s[i].start <= point < s[i].end)
    ensures ValueAt(t, point) == None
  {
    forall k | k in t ensures !Covers(t, point, k) {
      var i :| 0 <= i < |s| && s[i].start == k;
    }
    NoCover(t, point);
  }

  lemma {:induction false} InsideListed<V>(s: seq<Range<V>>, t: Store<V>, point: int)
    requires Lists(s, t)
    ensures forall i :: 0 <= i < |s| && s[i].start < point < s[i].end ==>
      Inside(t, point, s[i].start) && t[s[i].start] == s[i]
    ensures (forall i :: 0 <= i < |s| ==> !(s[i].start < point < s[i].end)) ==> forall k :: !Inside(t, point, k)
  {
    forall k | Inside(t, point, k) ensures exists i :: 0 <= i < |s| && s[i].start < point < s[i].end {
      var i :| 0 <= i < |s| && s[i].start == k;
      assert s[i] == t[k];
    }
  }

  /** The guard of `move_start`. */
  ghost predicate Movable<V>(t: Store<V>, oldStart: int, newStart: int) {
    oldStart in t && newStart < t[oldStart].end && !Overlaps(t - {oldStart}, newStart, t[oldStart].end)
  }

  ghost predicate Inside<V>(t: Store<V>, point: int, k: int) { k in t && k < point < t[k].end }

  lemma {:induction false} InsideOnce<V>(t: Store<V>, point: int, k: int)
    requires Disjoint(t) && Inside(t, point, k)
    ensures forall k' :: Inside(t, point, k') ==> k' == k
  {
  }

  lemma {:induction false} WithoutOne<V>(t: Store<V>, s: int)
    requires Disjoint(t)
    ensures Disjoint(t - {s}) && s !in t - {s}
  {
  }

  lemma {:induction false} SamePut<V>(t: Store<V>, s: int, r: Range<V>)
    ensures (t - {s})[s := r] == t[s := r]
  {
  }

  lemma {:induction false} SameStays<V>(t: Store<V>)
    ensures SamePoints(t, t)
  {
  }

  ghost function Meeting<V>(s: seq<Range<V>>, start: int, end: int): (m: seq<Range<V>>)
    ensures forall r :: r in m ==> r in s && Meets(r, start, end)
  {
    if s == [] then []
    else
      var rest, r := Meeting(s[..|s| - 1], start, end), s[|s| - 1];
      if Meets(r, start, end) then rest + [r] else rest
  }

  lemma {:induction false} MeetingNone<V>(start: int, end: int)
    ensures Meeting<V>([], start, end) == []
  {
  }

  lemma {:induction false} MeetingNext<V>(s: seq<Range<V>>, i: nat, start: int, end: int)
    requires i < |s|
    ensures Meeting(s[..i + 1], start, end) ==
      Meeting(s[..i], start, end) + if Meets(s[i], start, end) then [s[i]] else []
  {
    assert s[..i + 1][..i] == s[..i];
  }

  lemma {:induction false} MeetingLists<V>(s: seq<Range<V>>, t: Store<V>, start: int, end: int)
    requires Lists(s, t)
    ensures Lists(Meeting(s, start, end), Met(t, start, end))
  {
    if s == [] {
    } else {
      hide Lists, Meets, Met;
      var r, front := s[|s| - 1], s[..|s| - 1];
      ListFront(s, t);
      MeetingLists(front, t - {r.start}, start, end);
      MetWithout(t, r, start, end);
      if Meets(r, start, end) {
        BeforeLast(s, t);
        ListAppend(Meeting(front, start, end), Met(t - {r.start}, start, end), r);
      }
    }
  }

  lemma {:induction false} MetWithout<V>(t: Store<V>, r: Range<V>, start: int, end: int)
    requires r.start in t && t[r.start] == r
    ensures var sub: Store<V> := Met(t - {r.start}, start, end);
      Met(t, start, end) == if Meets(r, start, end) then sub[r.start := r] else sub
  {
    hide Meets;
    var sub: Store<V>, all: Store<V> := Met(t - {r.start}, start, end), Met(t, start, end);
    forall k | k in t && k != r.start ensures k in all <==> k in sub {}
  }

  lemma {:induction false} BeforeLast<V>(s: seq<Range<V>>, t: Store<V>)
    requires Lists(s, t) && s != []
    ensures forall r :: r in s[..|s| - 1] ==> r.start < s[|s| - 1].start
  {
  }

  lemma {:induction false} ListFront<V>(s: seq<Range<V>>, t: Store<V>)
    requires Lists(s, t) && s != []
    ensures var r := s[|s| - 1]; Lists(s[..|s| - 1], t - {r.start}) && r.start in t && t[r.start] == r
  {
    var r, front := s[|s| - 1], s[..|s| - 1];
    forall k | k in t - {r.start} ensures exists i :: 0 <= i < |front| && front[i].start == k {
      var i :| 0 <= i < |s| && s[i].start == k;
      assert front[i].start == k;
    }
  }

  /** t without the intervals listed in gone. */
  ghost predicate LeftAfter<V>(t: Store<V>, left: Store<V>, gone: seq<Range<V>>) {
    && (forall k :: k in left <==> k in t && forall r :: r in gone ==> r.start != k)
    && (forall k :: k in left ==> left[k] == t[k])
  }

  lemma {:induction false} NoneLeft<V>(t: Store<V>)
    ensures LeftAfter(t, t, [])
  {
  }

  lemma {:induction false} StillThere<V>(t: Store<V>, left: Store<V>, met: seq<Range<V>>, sub: Store<V>, i: nat)
    requires Lists(met, sub) && (forall k :: k in sub ==> k in t && t[k] == sub[k])
    requires i < |met| && LeftAfter(t, left, met[..i])
    ensures met[i].start in left && left[met[i].start] == met[i]
  {
    forall r | r in met[..i] ensures r.start != met[i].start {
      var j :| 0 <= j < i && met[j] == r;
    }
  }

  lemma {:induction false} LeftOneLess<V>(t: Store<V>, left: Store<V>, met: seq<Range<V>>, i: nat)
    requires i < |met| && LeftAfter(t, left, met[..i])
    ensures LeftAfter(t, left - {met[i].start}, met[..i + 1])
  {
    assert met[..i + 1] == met[..i] + [met[i]];
  }

  lemma {:induction false} AllListedGone<V>(t: Store<V>, left: Store<V>, met: seq<Range<V>>, sub: Store<V>)
    requires Lists(met, sub) && LeftAfter(t, left, met)
    ensures left == t - sub.Keys
  {
    forall k ensures k in sub <==> exists r :: r in met && r.start == k {
      if k in sub {
        var i :| 0 <= i < |met| && met[i].start == k;
        assert met[i] in met;
      }
    }
    var rest: Store<V> := t - sub.Keys;
    forall k ensures k in left <==> k in rest {}
    forall k | k in left ensures left[k] == rest[k] {}
    assert left.Keys == rest.Keys;
  }

  lemma {:induction false} MergeUnfolds<V>(root: Node<Range<V>>, h: nat, n: nat)
    requires n == |Flat(root)|
    ensures
      var s := Ranges(Flat(root));
      var w := FirstPair(s, 0);
      MergePanics(root, h, n) <==>
        && w + 1 < |s|
        && (PanicsOn(root, h, [s[w], s[w + 1]]) ||
            match AfterPair(root, h, s[w], s[w + 1])
            case None => false
            case Some((r, h')) => MergePanics(r, h', n - 1))
  {
    hide Flat, PanicsOn, AfterPair;
  }

  /** Without its own entry, the room of an interval is free; a reversed range meets nothing there. */
  lemma {:induction false} Without<V>(t: Store<V>, s: int, end: int)
    requires Disjoint(t) && s in t
    ensures Disjoint(t - {s}) && !Overlaps(t - {s}, s, t[s].end)
    ensures end <= s ==> !Overlaps(t - {s}, s, end)
    ensures t[s].start == s < t[s].end && (t - {s})[s := t[s]] == t
  {
  }

  ghost function Met<V>(t: Store<V>, start: int, end: int): Store<V> {
    map k | k in t && Meets(t[k], start, end) :: t[k]
  }

  lemma {:induction false} RoomMade<V>(t: Store<V>, start: int, end: int)
    requires Disjoint(t)
    ensures Disjoint(t - Met(t, start, end).Keys) && !Overlaps(t - Met(t, start, end).Keys, start, end)
  {
  }

  lemma {:induction false} SameTrans<V>(a: Store<V>, b: Store<V>, c: Store<V>)
    requires SamePoints(a, b) && SamePoints(b, c)
    ensures SamePoints(a, c)
  {
    hide ValueAt;
  }

  // ------------------------------------------------------------ split and merge

  ghost function Halves<V>(t: Store<V>, k: int, point: Word): Store<V>
    requires k in t
  {
    t[k := t[k].(end := point)][point := Range(point, t[k].end, t[k].value)]
  }

  lemma {:induction false} HalvesKeep<V>(t: Store<V>, k: Word, point: Word)
    requires Disjoint(t) && k in t && k < point < t[k].end
    ensures var r: Store<V>, left, right := t - {k}, Range(k, point, t[k].value), Range(point, t[k].end, t[k].value);
      && Disjoint(r) && !Overlaps(r, k, point) && Disjoint(r[k := left]) && !Overlaps(r[k := left], point, t[k].end)
      && r[k := left][point := right] == Halves(t, k, point)
    ensures SamePoints(t, Halves(t, k, point))
  {
    hide ValueAt;
    var r: Store<V>, left, right := t - {k}, Range(k, point, t[k].value), Range(point, t[k].end, t[k].value);
    Without(t, k, point);
    assert !Overlaps(r, k, point);
    AddedPoints(r, left, 0);
    var rl := r[k := left];
    forall x | x in rl ensures !Meets(rl[x], point, t[k].end) {}
    assert r[k := left][point := right] == Halves(t, k, point);
    forall p: nat ensures ValueAt(Halves(t, k, point), p) == ValueAt(t, p) {
      RemovedPoints(t, k, p);
      AddedPoints(r, left, p);
      AddedPoints(r[k := left], right, p);
      if k <= p < t[k].end { OneCover(t, p, k); }
    }
  }

  ghost predicate Mergeable<V>(t: Store<V>, k: int, k': int)
    requires k in t && k' in t
  {
    t[k].end == k' && t[k].value == t[k'].value
  }

  /** The test of `merge_adjacent_equal` on neighbours. */
  predicate Touching<V(==)>(a: Range<V>, b: Range<V>) { a.end == b.start && a.value == b.value }

  /** The first touching pair from i on, or past the last pair. */
  function FirstPair<V(==)>(s: seq<Range<V>>, i: nat): (w: nat)
    ensures i <= w && (w + 1 < |s| ==> Touching(s[w], s[w + 1]))
    ensures forall j :: i <= j < w && j + 1 < |s| ==> !Touching(s[j], s[j + 1])
    decreases |s| - i
  {
    if i + 1 >= |s| || Touching(s[i], s[i + 1]) then i else FirstPair(s, i + 1)
  }

  lemma {:induction false} NothingMergeable<V>(s: seq<Range<V>>, t: Store<V>)
    requires Lists(s, t) && Disjoint(t)
    requires forall i :: 0 <= i && i + 1 < |s| ==> !Touching(s[i], s[i + 1])
    ensures forall k, k' :: k in t && k' in t ==> !Mergeable(t, k, k')
  {
    hide Disjoint, Mergeable, Touching;
    forall k, k' | k in t && k' in t ensures !Mergeable(t, k, k') {
      var i :| 0 <= i < |s| && s[i].start == k;
      var j :| 0 <= j < |s| && s[j].start == k';
      NotMergeable(s, t, i, j);
    }
  }

  lemma {:induction false} NotMergeable<V>(s: seq<Range<V>>, t: Store<V>, i: nat, j: nat)
    requires Lists(s, t) && Disjoint(t) && i < |s| && j < |s| && (i + 1 < |s| ==> !Touching(s[i], s[i + 1]))
    ensures !Mergeable(t, s[i].start, s[j].start)
  {
    hide Disjoint, Lists;
    ListedInOrder(s, t);
    Listed(s, t, i);
    Listed(s, t, j);
    if j <= i {
      if j < i { assert s[j].end <= s[i].start; }
    } else if i + 1 < j {
      assert s[i].end <= s[i + 1].start && s[i + 1].end <= s[j].start;
    }
  }

  lemma {:induction false} Listed<V>(s: seq<Range<V>>, t: Store<V>, i: nat)
    requires Lists(s, t) && i < |s|
    ensures s[i].start in t && t[s[i].start] == s[i]
  {
  }

  lemma {:induction false} ListedPair<V>(s: seq<Range<V>>, t: Store<V>, w: nat)
    requires Lists(s, t) && w + 1 < |s| && Touching(s[w], s[w + 1])
    ensures var a, b := s[w], s[w + 1];
      && a.start in t && t[a.start] == a && b.start in t && t[b.start] == b && a.start < b.start
      && Mergeable(t, a.start, b.start)
      && Joined(t, a.start, b.start) == (t - {a.start, b.start})[a.start := Range(a.start, b.end, a.value)]
  {
  }

  ghost function Joined<V>(t: Store<V>, k: int, k': int): Store<V>
    requires k in t && k' in t
  {
    (t - {k, k'})[k := t[k].(end := t[k'].end)]
  }

  lemma {:induction false} JoinMakesRoom<V>(t: Store<V>, k: Word, k': Word)
    requires Disjoint(t) && k in t && k' in t && k < k' && Mergeable(t, k, k')
    ensures Disjoint(t - {k}) && k' in t - {k} && Disjoint(t - {k} - {k'}) && t - {k} - {k'} == t - {k, k'}
    ensures !Overlaps(t - {k} - {k'}, k, t[k'].end) && k < t[k'].end
  {
    var r: Store<V> := t - {k} - {k'};
    assert r == t - {k, k'};
    forall x | x in r ensures !Meets(r[x], k, t[k'].end) {}
  }

  /** Joining two touching equal intervals keeps every point's value */
  lemma {:induction false} JoinKeeps<V>(t: Store<V>, k: Word, k': Word)
    requires Disjoint(t) && k in t && k' in t && k < k' && Mergeable(t, k, k')
    ensures SamePoints(t, Joined(t, k, k'))
  {
    hide ValueAt, Disjoint, Overlaps, Mergeable, Joined;
    JoinMakesRoom(t, k, k');
    forall p: nat ensures ValueAt(Joined(t, k, k'), p) == ValueAt(t, p) { JoinPoint(t, k, k', p); }
  }

  /** and leaves one entry less. */
  lemma {:induction false} JoinDropsOne<V>(t: Store<V>, k: int, k': int)
    requires k in t && k' in t && k != k'
    ensures |Joined(t, k, k')| == |t| - 1
  {
    var j: Store<V> := Joined(t, k, k');
    assert j.Keys == t.Keys - {k'};
    assert |j| == |j.Keys| && |t| == |t.Keys|;
  }

  lemma {:induction false} JoinPoint<V>(t: Store<V>, k: Word, k': Word, p: nat)
    requires Disjoint(t) && k in t && k' in t && k < k' && Mergeable(t, k, k')
    requires !Overlaps(t - {k} - {k'}, k, t[k'].end) && t - {k} - {k'} == t - {k, k'} && k < t[k'].end
    ensures ValueAt(Joined(t, k, k'), p) == ValueAt(t, p)
  {
    hide ValueAt, Overlaps;
    RemovedPoints(t, k, p);
    RemovedPoints(t - {k}, k', p);
    AddedPoints(t - {k} - {k'}, Range(k, t[k'].end, t[k].value), p);
    if k <= p < t[k].end { OneCover(t, p, k); } else if k' <= p < t[k'].end { OneCover(t, p, k'); }
  }

  // --------------------------------------------------------------------- gaps

  lemma {:induction false} GapsInList<V>(s: seq<Range<V>>, t: Store<V>, size: nat, lo: nat, hi: nat)
    requires Lists(s, t) && Disjoint(t)
    ensures forall a: nat :: Gap(t, a, size, lo, hi) <==>
      lo <= a && a + size <= hi && forall i :: 0 <= i < |s| ==> a + size <= s[i].start || s[i].end <= a
    ensures forall i :: 0 <= i < |s| ==> s[i].start < s[i].end
    ensures forall i, j :: 0 <= i < j < |s| ==> s[i].end <= s[j].start
  {
    hide Lists, Disjoint, Gap;
    ListedInOrder(s, t);
    forall a: nat
      ensures Gap(t, a, size, lo, hi) <==>
        lo <= a && a + size <= hi && forall i :: 0 <= i < |s| ==> a + size <= s[i].start || s[i].end <= a
    {
      GapInList(s, t, a, size, lo, hi);
    }
  }

  /** No gap starts below b. */
  ghost predicate GapsFrom<V>(t: Store<V>, size: nat, lo: nat, hi: nat, b: nat) {
    forall a: nat :: Gap(t, a, size, lo, hi) ==> b <= a
  }

  /** No gap ends above b. */
  ghost predicate GapsUpTo<V>(t: Store<V>, size: nat, lo: nat, hi: nat, b: nat) {
    forall a: nat :: Gap(t, a, size, lo, hi) ==> a + size <= b
  }

  /** What the test before the first interval settles. */
  lemma {:induction false} FirstTest<V>(s: seq<Range<V>>, t: Store<V>, size: Word, start: Word, end: Word)
    requires Lists(s, t) && Disjoint(t) && start < end && size > 0
    ensures s == [] <==> t == map[]
    ensures s == [] ==> LowestGap(t, if end - start >= size then Some(start) else None, size, start, end)
    ensures s == [] ==> !FirstTestOverruns(t, size, start, end)
    ensures s != [] ==>
      var yes := s[0].start >= Wrap(start + size) && Wrap(s[0].start - start) >= size;
      && (yes ==> (LowestGap(t, Some(start), size, start, end) <==> !FirstTestOverruns(t, size, start, end)))
      && (!yes ==> GapsFrom(t, size, start, end, s[0].end) && !FirstTestOverruns(t, size, start, end))
  {
    if s != [] {
      hide LowestGap, FirstTestOverruns, GapsFrom;
      assert s[0].start in t;
      FirstAnswer(s[0].start, size, start);
      if start + size < WORD { FirstSumFits(s, t, size, start, end); } else { FirstSumWraps(s, t, size, start, end); }
    } else {
      EmptyWindow(s, t, size, start, end);
    }
  }

  lemma {:induction false} EmptyWindow<V>(s: seq<Range<V>>, t: Store<V>, size: Word, start: Word, end: Word)
    requires Lists(s, t) && Disjoint(t) && start < end && size > 0 && s == []
    ensures t == map[] && LowestGap(t, if end - start >= size then Some(start) else None, size, start, end)
  {
    hide Gap, Disjoint;
    GapsInList(s, t, size, start, end);
    forall k ensures k !in t {}
  }

  /** The test in words that wrap around. */
  lemma {:induction false} FirstAnswer(first: Word, size: Word, start: Word)
    requires size > 0
    ensures first >= Wrap(start + size) && Wrap(first - start) >= size <==>
      if start + size < WORD then start + size <= first else start + size - WORD <= first < start
  {
    assert start + size >= WORD ==> Wrap(start + size) == start + size - WORD;
    assert first < start ==> Wrap(first - start) == first - start + WORD;
  }

  lemma {:induction false} FirstSumFits<V>(s: seq<Range<V>>, t: Store<V>, size: Word, start: Word, end: Word)
    requires Lists(s, t) && Disjoint(t) && start < end && size > 0 && s != [] && start + size < WORD
    ensures FirstTestOverruns(t, size, start, end) <==> end - start < size && start + size <= s[0].start
    ensures start + size <= s[0].start ==> (LowestGap(t, Some(start), size, start, end) <==> end - start >= size)
    ensures s[0].start < start + size ==> GapsFrom(t, size, start, end, s[0].end)
  {
    hide Gap, Disjoint;
    GapsInList(s, t, size, start, end);
    assert s[0].start in t;
  }

  lemma {:induction false} FirstSumWraps<V>(s: seq<Range<V>>, t: Store<V>, size: Word, start: Word, end: Word)
    requires Lists(s, t) && Disjoint(t) && start < end && size > 0 && s != [] && start + size >= WORD
    ensures FirstTestOverruns(t, size, start, end) <==> start + size - WORD <= s[0].start < start
    ensures !LowestGap(t, Some(start), size, start, end) && GapsFrom(t, size, start, end, s[0].end)
  {
    assert s[0].start in t;
  }

  /** The room between interval i and the next, when no gap starts before the end of interval i. */
  lemma {:induction false} GapAfter<V>(s: seq<Range<V>>, t: Store<V>, size: nat, lo: nat, hi: nat, i: nat)
    requires Lists(s, t) && Disjoint(t) && i < |s| && GapsFrom(t, size, lo, hi, s[i].end) && size > 0
    ensures var a, b := Max(s[i].end, lo), if i + 1 < |s| then Min(s[i + 1].start, hi) else hi;
      if a + size <= b then LowestGap(t, Some(a), size, lo, hi)
      else if i + 1 < |s| then GapsFrom(t, size, lo, hi, s[i + 1].end)
      else LowestGap(t, None, size, lo, hi)
  {
    hide Gap, Disjoint, Lists;
    GapsInList(s, t, size, lo, hi);
    var a, b := Max(s[i].end, lo), if i + 1 < |s| then Min(s[i + 1].start, hi) else hi;
    if a + size <= b { FitsBetween(s, i, a, size); }
  }

  /** What the test after the last interval settles. */
  lemma {:induction false} LastTest<V>(s: seq<Range<V>>, t: Store<V>, size: nat, lo: nat, hi: nat)
    requires Lists(s, t) && Disjoint(t) && lo < hi && size > 0
    ensures s == [] ==> HighestGap(t, if hi - lo >= size then Some(hi - size) else None, size, lo, hi)
    ensures s != [] ==>
      if Max(s[|s| - 1].end, lo) + size <= hi then HighestGap(t, Some(hi - size), size, lo, hi)
      else GapsUpTo(t, size, lo, hi, s[|s| - 1].start)
  {
    hide Gap, Disjoint, Lists;
    GapsInList(s, t, size, lo, hi);
    if s != [] && Max(s[|s| - 1].end, lo) + size <= hi { FitsBetween(s, |s| - 1, hi - size, size); }
  }

  /** The room before interval i, when no gap ends after its start. */
  lemma {:induction false} GapBefore<V>(s: seq<Range<V>>, t: Store<V>, size: nat, lo: nat, hi: nat, i: nat)
    requires Lists(s, t) && Disjoint(t) && i < |s| && GapsUpTo(t, size, lo, hi, s[i].start) && size > 0
    ensures var a, b := if i > 0 then Max(s[i - 1].end, lo) else lo, Min(s[i].start, hi);
      if a + size <= b then HighestGap(t, Some(b - size), size, lo, hi)
      else if i > 0 then GapsUpTo(t, size, lo, hi, s[i - 1].start)
      else HighestGap(t, None, size, lo, hi)
  {
    hide Gap, Disjoint, Lists;
    GapsInList(s, t, size, lo, hi);
    var a, b := if i > 0 then Max(s[i - 1].end, lo) else lo, Min(s[i].start, hi);
    if a + size <= b && i > 0 { FitsBetween(s, i - 1, b - size, size); }
    if a + size <= b && i == 0 { FitsFirst(s, b - size, size); }
  }

  lemma {:induction false} FitsFirst<V>(s: seq<Range<V>>, a: nat, size: nat)
    requires forall j :: 0 <= j < |s| ==> s[j].start < s[j].end
    requires forall j, k :: 0 <= j < k < |s| ==> s[j].end <= s[k].start
    requires s != [] && a + size <= s[0].start
    ensures forall j :: 0 <= j < |s| ==> a + size <= s[j].start
  {
    forall j | 0 < j < |s| ensures a + size <= s[j].start { assert s[0].end <= s[j].start; }
  }

  /** A block after interval i and before interval i + 1 is clear of every interval. */
  lemma {:induction false} FitsBetween<V>(s: seq<Range<V>>, i: nat, a: nat, size: nat)
    requires forall j :: 0 <= j < |s| ==> s[j].start < s[j].end
    requires forall j, k :: 0 <= j < k < |s| ==> s[j].end <= s[k].start
    requires i < |s| && s[i].end <= a && (i + 1 < |s| ==> a + size <= s[i + 1].start)
    ensures forall j :: 0 <= j < |s| ==> a + size <= s[j].start || s[j].end <= a
  {
    forall j | 0 <= j < |s| ensures a + size <= s[j].start || s[j].end <= a {
      if i + 1 < j { assert s[i + 1].end <= s[j].start; }
      if j < i { assert s[j].end <= s[i].start; }
    }
  }

  /** Shrinking the interval [4, 9) to [4, 4) is refused, and the interval is gone. */
  method UpdateEndExample() returns (before: Option<Range<int>>, r: Result<(), InsertError>, after: Option<Range<int>>)
    ensures before == Some(Range(4, 9, 0)) && r == Err(InvalidRange) && after == None
  {
    hide Flat, Reach, Contents;
    var tree := new MapleTree<int>();
    LeafStays(tree.store.root, tree.store.height, Range(4, 9, 0));
    var added := tree.Insert(4, 9, 0);
    OneCover(tree.Tree(), 4, 4);
    before := tree.Find(4);
    assert !Starved(tree.store.root) && !Stranded(tree.store.root, 4);
    var panicked;
    panicked, r := tree.UpdateEnd(4, 4);
    assert tree.Tree() == map[];
    after := tree.Find(4);
  }

  lemma {:induction false} LeafStays<V>(root: Node<Range<V>>, h: nat, entry: Range<V>)
    requires root.isLeaf && !Full(root)
    ensures forall root', h' :: AfterInsert(root, h, root', h', entry) ==> root'.isLeaf
  {
  }

  /** Five free addresses in the three-address window [0, 3): the first test says yes. */
  lemma {:induction false} GapOverrunExample()
    ensures var t: Store<int> := map[10 := Range(10, 11, 0)];
      Disjoint(t) && FirstTestOverruns(t, 5, 0, 3) && !LowestGap(t, Some(0), 5, 0, 3)
  {
    var t: Store<int> := map[10 := Range(10, 11, 0)];
    assert 10 in t;
    assert !Gap(t, 0, 5, 0, 3);
  }
}
