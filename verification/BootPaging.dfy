/** The boot loader's page-table builder: a bump allocator and the map steps. */
module BootPaging {
  import opened Common
  import opened PageTables

  /** Places of the tables that translating w needs at levels lo to levels - 1. */
  ghost function Path(w: nat, lo: nat, levels: nat): set<Place>
    requires 1 <= lo && levels <= 5
    decreases levels - lo
  {
    if lo >= levels then {} else {(lo, Slot(w, lo + 1))} + Path(w, lo + 1, levels)
  }

  /** How many of them are not there yet. */
  ghost function Missing(places: set<Place>, w: nat, lo: nat, levels: nat): nat
    requires 1 <= lo && levels <= 5
    decreases levels - lo
  {
    if lo >= levels then 0
    else (if (lo, Slot(w, lo + 1)) in places then 0 else 1) + Missing(places, w, lo + 1, levels)
  }

  ghost predicate SameTranslation(m: Memory, m': Memory, root: nat, levels: nat)
    requires 4 <= levels <= 5
  {
    forall x: nat :: InReach(x, levels) ==> Translate(m', root, levels, x) == Translate(m, root, levels, x)
  }

  /** The entry-sized region around w at this level goes to `frame`; all other addresses translate as before. */
  ghost predicate Mapped(m: Memory, m': Memory, root: nat, levels: nat, level: nat, w: nat, frame: nat)
    requires 4 <= levels <= 5 && 1 <= level <= 5
  {
    forall x: nat :: InReach(x, levels) ==>
      Translate(m', root, levels, x)
      == if Slot(x, level) == Slot(w, level) then Some(frame + x % Span(level)) else Translate(m, root, levels, x)
  }

  /** No 1 GiB page covers w. */
  ghost predicate NoHugePage(mem: Memory, at: map<Place, nat>, w: nat) {
    var k := (3, Slot(w, 4));
    k in at && at[k] in mem && |mem[at[k]]| == 512 ==>
      var e := mem[at[k]][LevelIndex(w, 3)]; !(Present(e) && Huge(e))
  }

  ghost predicate Extends(at: map<Place, nat>, at': map<Place, nat>) {
    forall k :: k in at ==> k in at' && at'[k] == at[k]
  }

  /** The places that are not below the entry for w at this level. */
  ghost function Outside(places: set<Place>, w: nat, level: nat): set<Place>
    requires 1 <= level <= 5
  {
    set k | k in places && !Under(k, level, Slot(w, level))
  }

  class Builder {
    var mem: Memory
    var nextPage: nat
    const endPage: nat
    ghost const firstPage: nat
    ghost var at: map<Place, nat>

    /** `PageTableAllocator::new` over a pool of whole pages. */
    constructor (memory: Memory, start: nat, pages: nat)
      requires start > 0 && start % PAGE_SIZE == 0 && start + pages * PAGE_SIZE <= ADDR_LIMIT
      ensures Pool() && mem == memory && at == map[]
      ensures firstPage == nextPage == start && endPage == start + pages * PAGE_SIZE
    {
      mem, nextPage, endPage, at := memory, start, start + pages * PAGE_SIZE, map[];
      firstPage := start;
    }

    /** The tables lie in the used part of the pool, so a fresh page is never one of them. */
    ghost predicate Pool()
      reads this
    {
      && 0 < firstPage <= nextPage <= endPage <= ADDR_LIMIT
      && firstPage % PAGE_SIZE == 0 && nextPage % PAGE_SIZE == 0 && endPage % PAGE_SIZE == 0
      && (forall k :: k in at ==> firstPage <= at[k] < nextPage)
    }

    ghost predicate Valid(root: nat, levels: nat)
      reads this
    {
      Pool() && Tree(mem, at, root, levels)
    }

    /** Memory outside the pool is never written. */
    twostate predicate OnlyPool()
      reads this
    {
      forall t :: t < firstPage || endPage <= t ==>
        (t in mem <==> t in old(mem)) && (t in mem ==> mem[t] == old(mem)[t])
    }

    method AllocPage() returns (page: Option<nat>)
      requires Pool()
      modifies this`mem, this`nextPage
      ensures Pool() && OnlyPool()
      ensures page == if old(nextPage) + PAGE_SIZE > endPage then None else Some(old(nextPage))
      ensures page.Some? ==> nextPage == old(nextPage) + PAGE_SIZE && mem == old(mem)[old(nextPage) := Zeroed()]
      ensures page == None ==> nextPage == old(nextPage) && mem == old(mem)
    {
      if nextPage + PAGE_SIZE > endPage {
        return None;
      }
      page := Some(nextPage);
      mem := mem[nextPage := Zeroed()];
      nextPage := nextPage + PAGE_SIZE;
    }

    /** The table below entry idx of the table at place k, made on demand. */
    method EnsureNextTable(table: nat, idx: nat, ghost k: Place, ghost root: nat, ghost levels: nat)
      returns (next: Option<nat>)
      requires Valid(root, levels) && k in at && at[k] == table && k.0 >= 2 && idx < 512
      requires TableOk(mem, at, levels, k) && !(Present(mem[table][idx]) && Huge(mem[table][idx]))
      modifies this
      ensures Valid(root, levels) && OnlyPool() && SameTranslation(old(mem), mem, root, levels)
      ensures Extends(old(at), at)
      ensures var b := Below(k, idx);
        if b in old(at) then next == Some(at[b]) && at == old(at) && mem == old(mem) && nextPage == old(nextPage)
        else if old(nextPage) + PAGE_SIZE > endPage then
          next == None && at == old(at) && mem == old(mem) && nextPage == old(nextPage)
        else
          && next == Some(old(nextPage)) && at == old(at)[b := old(nextPage)]
          && nextPage == old(nextPage) + PAGE_SIZE
          && table in old(mem) && idx < |old(mem)[table]| && table != old(nextPage)
          && mem == WithTable(old(mem), table, idx, old(nextPage))
    {
      hide Present, Huge, Addr, Tree, TableOk, SameTranslation, Store, Zeroed;
      ghost var m, a := mem, at;
      Child(m, a, root, levels, k, idx);
      var entry := mem[table][idx];
      if Present(entry) {
        return Some(Addr(entry));
      }
      var page := AllocPage();
      if page == None {
        return None;
      }
      var child := page.value;
      Grown(m, a, root, levels, k, idx, child);
      StoreOnly(mem, table, idx, child + PRESENT_WRITABLE);
      mem := Store(mem, table, idx, child + PRESENT_WRITABLE);
      at := at[Below(k, idx) := child];
      next := Some(child);
    }

    /** The table that translates virt at level `bottom`, with every table above it made on demand. */
    method EnsurePath(root: nat, levels: nat, virt: nat, bottom: nat, ghost w: nat) returns (table: Option<nat>)
      requires Valid(root, levels) && 4 <= levels <= 5 && w == Low(virt, levels) && 1 <= bottom <= 3
      requires bottom < 3 ==> NoHugePage(mem, at, w)
      modifies this
      ensures Valid(root, levels) && OnlyPool() && SameTranslation(old(mem), mem, root, levels)
      ensures Extends(old(at), at)
      ensures table.Some? <==> old(nextPage) + PAGE_SIZE * Missing(old(at).Keys, w, bottom, levels) <= endPage
      ensures table.Some? ==>
        && at.Keys == old(at).Keys + Path(w, bottom, levels)
        && nextPage == old(nextPage) + PAGE_SIZE * Missing(old(at).Keys, w, bottom, levels)
        && (bottom, Slot(w, bottom + 1)) in at && table.value == at[(bottom, Slot(w, bottom + 1))]
    {
      hide Present, Huge, Addr, Tree, TableOk, SameTranslation, WithTable, NoHugePage, Slot, LevelIndex,
        Low, Path, Missing;
      ghost var m := mem;
      Start(mem, at, root, levels, w);
      PathEnds(at.Keys, w, levels);
      var level, t := levels, root;
      while level > bottom
        invariant bottom <= level <= levels
        invariant Valid(root, levels) && OnlyPool() && SameTranslation(m, mem, root, levels) && Extends(old(at), at)
        invariant (level, Slot(w, level + 1)) in at && at[(level, Slot(w, level + 1))] == t
        invariant at.Keys == old(at).Keys + Path(w, level, levels)
        invariant nextPage == old(nextPage) + PAGE_SIZE * Missing(old(at).Keys, w, level, levels)
        invariant bottom < 3 ==> NoHugePage(mem, at, w)
      {
        IndexOfLow(virt, level, levels);
        MissingGrows(old(at).Keys, w, bottom, level - 1, levels);
        PathStep(old(at).Keys, w, level, levels);
        Step(mem, at, root, levels, level, w);
        ghost var m', k := mem, (level, Slot(w, level + 1));
        if bottom < 3 && nextPage + PAGE_SIZE <= endPage {
          KeepsNoHugePage(mem, at, root, levels, k, LevelIndex(w, level), nextPage, w);
        }
        var next := EnsureNextTable(t, LevelIndex(virt, level), k, root, levels);
        SameTrans(m, m', mem, root, levels);
        if next == None {
          return None;
        }
        level, t := level - 1, next.value;
      }
      table := Some(t);
    }

    /**
     What one map step does: it fails exactly when the missing tables do not fit
     in the pool, and it drops the tables below the entry it writes.
     */
    twostate predicate Maps(ok: bool, root: nat, levels: nat, level: nat, w: nat, frame: nat)
      requires 4 <= levels <= 5 && 1 <= level <= 3
      reads this
    {
      && Valid(root, levels) && OnlyPool() && (forall k :: k in at && k in old(at) ==> at[k] == old(at)[k])
      && (ok <==> old(nextPage) + PAGE_SIZE * Missing(old(at).Keys, w, level, levels) <= endPage)
      && (!ok ==> Extends(old(at), at) && SameTranslation(old(mem), mem, root, levels))
      && (ok ==>
          && at.Keys == Outside(old(at).Keys, w, level) + Path(w, level, levels)
          && (level == 1 || (level == 3 && (2, Slot(w, 3)) !in old(at)) ==> Extends(old(at), at))
          && nextPage == old(nextPage) + PAGE_SIZE * Missing(old(at).Keys, w, level, levels)
          && Mapped(old(mem), mem, root, levels, level, w, frame))
    }

    /** The part `map_1g_page` and `map_4k_page` share: reach the table of this level and write its entry. */
    method MapAt(root: nat, levels: nat, virt: nat, level: nat, entry: nat) returns (ok: bool)
      requires Valid(root, levels) && 4 <= levels <= 5 && Present(entry)
      requires
        || (level == 1 && NoHugePage(mem, at, Low(virt, levels)))
        || (level == 3 && Huge(entry) && Addr(entry) % ONE_GIB == 0)
      modifies this
      ensures Maps(ok, root, levels, level, Low(virt, levels), Addr(entry))
    {
      hide Present, Huge, Addr, Tree, TableOk, SameTranslation, NoHugePage, Slot, LevelIndex, Low, Path, Missing, Store,
        CanMap, Mapped;
      ghost var w, m := Low(virt, levels), mem;
      PathLevels(w, level, levels);
      var table := EnsurePath(root, levels, virt, level, w);
      if table == None {
        return false;
      }
      IndexOfLow(virt, level, levels);
      Mappable(mem, at, root, levels, level, w, entry);
      StoreOnly(mem, table.value, LevelIndex(virt, level), entry);
      WriteLeaf(m, mem, at, root, levels, level, w, entry);
      KeysLeft(old(mem), old(at), at, root, levels, w, level);
      mem := Store(mem, table.value, LevelIndex(virt, level), entry);
      at := Pruned(at, level, Slot(w, level));
      ok := true;
    }

    method Map1GPage(root: nat, levels: nat, virt: nat, phys: nat) returns (ok: bool)
      requires Valid(root, levels) && 4 <= levels <= 5
      requires Addr(phys) % ONE_GIB == 0
      modifies this
      ensures Maps(ok, root, levels, 3, Low(virt, levels), Addr(phys))
    {
      AddrIsFrame(phys);
      Encoded(Addr(phys), HUGE_PAGE_FLAGS);
      ok := MapAt(root, levels, virt, 3, Addr(phys) + HUGE_PAGE_FLAGS);
    }

    method Map4KPage(root: nat, levels: nat, virt: nat, phys: nat, flags: nat) returns (ok: bool)
      requires Valid(root, levels) && 4 <= levels <= 5 && NoHugePage(mem, at, Low(virt, levels))
      requires flags < PAGE_SIZE && Present(flags)
      modifies this
      ensures Maps(ok, root, levels, 1, Low(virt, levels), Addr(phys))
    {
      AddrIsFrame(phys);
      Encoded(Addr(phys), flags);
      ok := MapAt(root, levels, virt, 1, Addr(phys) + flags);
    }
  }

  /** Which places a map step leaves. */
  lemma {:induction false} KeysLeft(m: Memory, was: map<Place, nat>, at: map<Place, nat>, root: nat, levels: nat,
                                    w: nat, level: nat)
    requires Tree(m, was, root, levels) && 1 <= level <= 3 && 4 <= levels <= 5 && Extends(was, at)
    requires at.Keys == was.Keys + Path(w, level, levels)
    ensures var at' := Pruned(at, level, Slot(w, level));
      && at'.Keys == Outside(was.Keys, w, level) + Path(w, level, levels)
      && (level == 1 || (level == 3 && (2, Slot(w, 3)) !in was) ==> Extends(was, at'))
  {
    hide Slot, Path, Tree;
    PathLevels(w, level, levels);
    var at', s := Pruned(at, level, Slot(w, level)), Slot(w, level);
    assert at'.Keys == Outside(was.Keys, w, level) + Path(w, level, levels);
    if level == 1 || (level == 3 && (2, s) !in was) {
      NothingLost(m, was, root, levels, w, level);
      assert forall q :: q in was ==> q in Outside(was.Keys, w, level);
    }
  }

  /** A table of level 1 has its table of level 2. */
  lemma {:induction false} NothingBelow(mem: Memory, at: map<Place, nat>, root: nat, levels: nat, q: Place, s: nat)
    requires Tree(mem, at, root, levels) && q in at && (2, s) !in at
    ensures !Under(q, 3, s)
  {
    hide TableOk;
    assert q.0 == 1 ==> Linked(mem, at, q);
  }

  /** Nothing is lost where there was no page directory. */
  lemma {:induction false} NothingLost(mem: Memory, at: map<Place, nat>, root: nat, levels: nat, w: nat, level: nat)
    requires Tree(mem, at, root, levels) && (level == 1 || (level == 3 && (2, Slot(w, 3)) !in at))
    ensures Outside(at.Keys, w, level) == at.Keys
  {
    hide Slot, Linked;
    forall q | q in at ensures !Under(q, level, Slot(w, level)) {
      if level == 3 { NothingBelow(mem, at, root, levels, q, Slot(w, 3)); } else { assert TableOk(mem, at, levels, q); }
    }
  }

  lemma {:induction false} StoreOnly(mem: Memory, t: nat, i: nat, e: nat)
    requires t in mem && i < |mem[t]|
    ensures var mem' := Store(mem, t, i, e);
      forall u :: u != t ==> (u in mem' <==> u in mem) && (u in mem ==> mem'[u] == mem[u])
  {
  }

  /** An entry that is neither empty nor a frame is the table at the place below it. */
  lemma {:induction false} Child(mem: Memory, at: map<Place, nat>, root: nat, levels: nat, k: Place, i: nat)
    requires Tree(mem, at, root, levels) && k in at && k.0 >= 2 && i < 512 && TableOk(mem, at, levels, k)
    requires !(Present(mem[at[k]][i]) && Huge(mem[at[k]][i]))
    ensures at[k] in mem && |mem[at[k]]| == 512
    ensures Present(mem[at[k]][i]) <==> Below(k, i) in at
    ensures Below(k, i) in at ==> Addr(mem[at[k]][i]) == at[Below(k, i)]
    ensures SameTranslation(mem, mem, root, levels)
  {
    hide Present, Huge, Addr, Walk;
    assert EntryOk(mem, at, k, i);
    EntryOfChild(mem, at, root, levels, k, i);
  }

  lemma {:induction false} Grown(mem: Memory, at: map<Place, nat>, root: nat, levels: nat, k: Place, i: nat, c: nat)
    requires Tree(mem, at, root, levels) && k in at && k.0 >= 2 && i < 512 && TableOk(mem, at, levels, k)
    requires !Present(mem[at[k]][i]) && c > 0 && Frame(c) && forall q :: q in at ==> at[q] != c
    ensures Tree(WithTable(mem, at[k], i, c), at[Below(k, i) := c], root, levels)
    ensures SameTranslation(mem, WithTable(mem, at[k], i, c), root, levels)
  {
    hide Present, Huge, Addr, Walk, EntryOk, Linked, Frame, WithTable;
    GrowTree(mem, at, root, levels, k, i, c);
    forall x: nat | InReach(x, levels)
      ensures Translate(WithTable(mem, at[k], i, c), root, levels, x) == Translate(mem, root, levels, x)
    {
      GrowWalk(mem, at, root, levels, k, i, c, (levels, 0), x);
    }
  }

  lemma {:induction false} EntryOfChild(mem: Memory, at: map<Place, nat>, root: nat, levels: nat, k: Place, i: nat)
    requires Tree(mem, at, root, levels) && k in at && k.0 >= 2 && i < 512 && TableOk(mem, at, levels, k)
    ensures Below(k, i) in at ==> Present(mem[at[k]][i])
  {
    hide Present, Huge, Addr, EntryOk, Frame;
    var b := Below(k, i);
    assert b.1 / 512 == k.1 && b.1 % 512 == i;
    assert b in at ==> Linked(mem, at, b);
  }

  /** The walk starts at the root, whatever the address. */
  lemma {:induction false} Start(mem: Memory, at: map<Place, nat>, root: nat, levels: nat, w: nat)
    requires Tree(mem, at, root, levels) && InReach(w, levels)
    ensures (levels, Slot(w, levels + 1)) in at && at[(levels, Slot(w, levels + 1))] == root
    ensures SameTranslation(mem, mem, root, levels)
  {
    RootPlace(w, levels);
  }

  lemma {:induction false} MissingGrows(places: set<Place>, w: nat, lo: nat, level: nat, levels: nat)
    requires 1 <= lo <= level && levels <= 5
    ensures Missing(places, w, level, levels) <= Missing(places, w, lo, levels)
    decreases level - lo
  {
    if lo < level { MissingGrows(places, w, lo + 1, level, levels); }
  }

  lemma {:induction false} PathLevels(w: nat, lo: nat, levels: nat)
    requires 1 <= lo && levels <= 5
    ensures forall k :: k in Path(w, lo, levels) ==> lo <= k.0 < levels
    decreases levels - lo
  {
    if lo < levels { PathLevels(w, lo + 1, levels); }
  }

  lemma {:induction false} PathEnds(places: set<Place>, w: nat, levels: nat)
    requires 1 <= levels <= 5
    ensures Path(w, levels, levels) == {} && Missing(places, w, levels, levels) == 0
  {
  }

  lemma {:induction false} PathStep(places: set<Place>, w: nat, level: nat, levels: nat)
    requires 2 <= level <= levels <= 5
    ensures var b := (level - 1, Slot(w, level));
      && Path(w, level - 1, levels) == {b} + Path(w, level, levels) && b !in Path(w, level, levels)
      && Missing(places, w, level - 1, levels) == (if b in places then 0 else 1) + Missing(places, w, level, levels)
  {
    hide Slot;
    PathLevels(w, level, levels);
  }

  lemma {:induction false} SameTrans(a: Memory, b: Memory, c: Memory, root: nat, levels: nat)
    requires 4 <= levels <= 5 && SameTranslation(a, b, root, levels) && SameTranslation(b, c, root, levels)
    ensures SameTranslation(a, c, root, levels)
  {
    hide Translate;
  }

  /** The entry for w above level 1 is never a frame, unless a 1 GiB page covers w. */
  lemma {:induction false} Step(mem: Memory, at: map<Place, nat>, root: nat, levels: nat, level: nat, w: nat)
    requires Tree(mem, at, root, levels) && 2 <= level <= levels && (level, Slot(w, level + 1)) in at
    requires level == 3 ==> NoHugePage(mem, at, w)
    ensures var k, i := (level, Slot(w, level + 1)), LevelIndex(w, level);
      && TableOk(mem, at, levels, k) && !(Present(mem[at[k]][i]) && Huge(mem[at[k]][i]))
      && Below(k, i) == (level - 1, Slot(w, level))
  {
    hide Present, Huge, Addr, Frame, Linked, Slot, LevelIndex;
    var k, i := (level, Slot(w, level + 1)), LevelIndex(w, level);
    SlotUp(w, level);
    assert TableOk(mem, at, levels, k);
    assert EntryOk(mem, at, k, i);
  }

  lemma {:induction false} NothingPresent()
    ensures !Present(0)
  {
  }

  lemma {:induction false} KeepsNoHugePage(mem: Memory, at: map<Place, nat>, root: nat, levels: nat,
                                           k: Place, i: nat, c: nat, w: nat)
    requires Tree(mem, at, root, levels) && k in at && k.0 >= 2 && i < 512 && TableOk(mem, at, levels, k)
    requires Frame(c) && (forall q :: q in at ==> at[q] != c) && NoHugePage(mem, at, w)
    ensures NoHugePage(WithTable(mem, at[k], i, c), at[Below(k, i) := c], w)
  {
    hide Present, Huge, Addr, Frame, Linked, Slot, LevelIndex, EntryOk;
    TableEntry(c);
    NothingPresent();
    var mem', at', q := WithTable(mem, at[k], i, c), at[Below(k, i) := c], (3, Slot(w, 4));
    if q in at' && q != Below(k, i) {
      assert TableOk(mem, at, levels, q);
      assert at[q] == at[k] ==> q == k;
    }
  }

  lemma {:induction false} AddrIsFrame(e: nat)
    ensures Frame(Addr(e))
  {
  }

  lemma {:induction false} Mappable(mem: Memory, at: map<Place, nat>, root: nat, levels: nat, level: nat, w: nat,
      e: nat)
    requires Tree(mem, at, root, levels) && 1 <= level <= levels && (level, Slot(w, level + 1)) in at && Present(e)
    requires level == 1 || (level == 3 && Huge(e) && Addr(e) % ONE_GIB == 0)
    ensures CanMap(mem, at, root, levels, (level, Slot(w, level + 1)), LevelIndex(w, level), e)
    ensures var t := at[(level, Slot(w, level + 1))]; t in mem && |mem[t]| == 512
  {
    hide Present, Huge, Addr, Frame, Linked, Slot, LevelIndex, EntryOk;
    SlotUp(w, level);
    assert TableOk(mem, at, levels, (level, Slot(w, level + 1)));
  }

  lemma {:induction false} WriteLeaf(m: Memory, mem: Memory, at: map<Place, nat>, root: nat, levels: nat, level: nat,
                                     w: nat, e: nat)
    requires 1 <= level <= levels && 4 <= levels <= 5
    requires CanMap(mem, at, root, levels, (level, Slot(w, level + 1)), LevelIndex(w, level), e)
    requires SameTranslation(m, mem, root, levels)
    ensures var mem' := Store(mem, at[(level, Slot(w, level + 1))], LevelIndex(w, level), e);
      Tree(mem', Pruned(at, level, Slot(w, level)), root, levels) && Mapped(m, mem', root, levels, level, w, Addr(e))
  {
    hide Present, Huge, Addr, Frame, Linked, Slot, LevelIndex, EntryOk, Tree, Translate, Span;
    var k, i := (level, Slot(w, level + 1)), LevelIndex(w, level);
    LeafTree(mem, at, root, levels, k, i, e);
    SlotUp(w, level);
    forall x: nat | InReach(x, levels)
      ensures Translate(Store(mem, at[k], i, e), root, levels, x)
           == if Slot(x, level) == Slot(w, level) then Some(Addr(e) + x % Span(level))
              else Translate(m, root, levels, x)
    {
      LeafMaps(mem, at, root, levels, k, i, e, x);
    }
  }
}
