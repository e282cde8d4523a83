/**
 x86-64 page tables in memory and the hardware walk over them ("4-Level Paging
 and 5-Level Paging", section 4.5 of the Intel SDM, Volume 3A).  Addresses are
 unbounded integers; `|` of disjoint bit fields is written as addition.
 */
module PageTables {
  import opened Common

  const PAGE_SIZE: nat := 0x1000
  const ONE_GIB: nat := 0x4000_0000
  const ADDR_LIMIT: nat := 0x10_0000_0000_0000
  const PRESENT_WRITABLE: nat := 0x003
  const PAGE_FLAGS: nat := 0x103
  const HUGE_PAGE_FLAGS: nat := 0x183

  // ----------------------------------------------------------------- entries

  predicate Present(e: nat) { e % 2 == 1 }

  /** PTE_HUGE, bit 7 */
  predicate Huge(e: nat) { e / 0x80 % 2 == 1 }

  /** `e & PTE_ADDR_MASK`, bits 12 to 51 */
  function Addr(e: nat): nat { e / 0x1000 % 0x100_0000_0000 * 0x1000 }

  ghost predicate Frame(a: nat) { a % PAGE_SIZE == 0 && a < ADDR_LIMIT }

  /** An entry made of a frame address and low flag bits decodes to both. */
  lemma {:induction false} Encoded(a: nat, flags: nat)
    requires Frame(a) && flags < PAGE_SIZE
    ensures Addr(a + flags) == a
    ensures Present(a + flags) == Present(flags) && Huge(a + flags) == Huge(flags)
  {
    var q := a / PAGE_SIZE;
    EncodedAddr(q, flags);
    EncodedBits(q, flags);
  }

  lemma {:induction false} EncodedAddr(q: nat, flags: nat)
    requires q < 0x100_0000_0000 && flags < PAGE_SIZE
    ensures Addr(q * 0x1000 + flags) == q * 0x1000
  {
  }

  lemma {:induction false} EncodedBits(q: nat, flags: nat)
    requires flags < PAGE_SIZE
    ensures Present(q * 0x1000 + flags) == Present(flags)
    ensures Huge(q * 0x1000 + flags) == Huge(flags)
  {
    assert (q * 0x1000 + flags) / 0x80 == q * 0x20 + flags / 0x80;
  }

  // --------------------------------------------------------------- addresses

  /** Bytes covered by one entry of a table at this level. */
  function Span(level: nat): (s: nat)
    requires 1 <= level <= 6
    ensures s > 0
  {
    match level
    case 1 => 0x1000
    case 2 => 0x20_0000
    case 3 => 0x4000_0000
    case 4 => 0x80_0000_0000
    case 5 => 0x1_0000_0000_0000
    case _ => 0x200_0000_0000_0000
  }

  /** The number of the entry-sized region that holds w; the table of level L for w is slot L + 1. */
  function Slot(w: nat, level: nat): nat
    requires 1 <= level <= 6
  {
    w / Span(level)
  }

  /** `level_index` */
  function LevelIndex(virt: nat, level: nat): (i: nat)
    requires 1 <= level <= 5
    ensures i < 512
  {
    virt / Span(level) % 512
  }

  lemma {:induction false} SlotUp(w: nat, level: nat)
    requires 1 <= level <= 5
    ensures Slot(w, level) == Slot(w, level + 1) * 512 + LevelIndex(w, level)
  {
    if level == 1 {
      assert w / 0x1000 / 512 == w / 0x20_0000;
    } else if level == 2 {
      assert w / 0x20_0000 / 512 == w / 0x4000_0000;
    } else if level == 3 {
      assert w / 0x4000_0000 / 512 == w / 0x80_0000_0000;
    } else if level == 4 {
      assert w / 0x80_0000_0000 / 512 == w / 0x1_0000_0000_0000;
    } else {
      assert w / 0x1_0000_0000_0000 / 512 == w / 0x200_0000_0000_0000;
    }
  }

  /** The bits of a linear address that take part in translation. */
  function Low(v: nat, levels: nat): (w: nat)
    requires 4 <= levels <= 5
    ensures w < Span(levels + 1)
  {
    v % Span(levels + 1)
  }

  lemma {:induction false} IndexOfLow(v: nat, level: nat, levels: nat)
    requires 1 <= level <= levels && 4 <= levels <= 5
    ensures LevelIndex(v, level) == LevelIndex(Low(v, levels), level)
  {
    var m, s, q, w := Span(levels + 1), Span(level), v / Span(levels + 1), Low(v, levels);
    var r := m / s / 512;
    assert m == s * (r * 512);
    assert v == q * (s * (r * 512)) + w;
    assert q * (s * (r * 512)) == s * (q * r * 512);
    DivShift(s, q * r * 512, w);
    ModShift(q * r, w / s);
  }

  lemma {:induction false} DivShift(s: nat, k: nat, w: nat)
    requires s > 0
    ensures (s * k + w) / s == k + w / s
  {
    var x, y := s * k + w, w / s;
    assert w == s * y + w % s;
    assert x == s * (k + y) + w % s;
    DivUnique(x, s, k + y, w % s);
  }

  lemma {:induction false} DivUnique(x: nat, s: nat, q: nat, r: nat)
    requires s > 0 && x == s * q + r && r < s
    ensures x / s == q
  {
    var d := x / s - q;
    assert s * (x / s) + x % s == x;
    assert s * d == r - x % s;
  }

  lemma {:induction false} ModShift(k: nat, x: nat)
    ensures (k * 512 + x) % 512 == x % 512
  {
  }

  // -------------------------------------------------------------------- walk

  type Memory = map<nat, seq<nat>>

  /** What the processor makes of linear-address bits w, starting at table t. */
  ghost function Walk(mem: Memory, t: nat, level: nat, w: nat): Option<nat>
    requires 1 <= level <= 5
    decreases level
  {
    if t !in mem || |mem[t]| != 512 then None
    else
      var e := mem[t][LevelIndex(w, level)];
      if !Present(e) then None
      else if level == 1 then Some(Addr(e) + w % PAGE_SIZE)
      else if !Huge(e) then Walk(mem, Addr(e), level - 1, w)
      else if level > 3 || Addr(e) % Span(level) >= 0x2000 then None  // reserved bits set
      else Some(Addr(e) - Addr(e) % Span(level) + w % Span(level))
  }

  /** The position of a table in the tree: its level and the slot it translates. */
  type Place = (nat, nat)

  ghost predicate Links(e: nat, t: nat) { Present(e) && !Huge(e) && Addr(e) == t }

  /** Entry i of the table at place k is empty, a frame, a 1 GiB frame or the table one level down. */
  ghost predicate EntryOk(mem: Memory, at: map<Place, nat>, k: Place, i: nat)
    requires k in at && at[k] in mem && |mem[at[k]]| == 512 && i < 512
  {
    var e := mem[at[k]][i];
    Present(e) && k.0 != 1 ==>
      if Huge(e) then k.0 == 3 && Addr(e) % ONE_GIB == 0
      else (k.0 - 1, k.1 * 512 + i) in at && Addr(e) == at[(k.0 - 1, k.1 * 512 + i)]
  }

  ghost predicate TableOk(mem: Memory, at: map<Place, nat>, levels: nat, k: Place)
    requires k in at
  {
    && 1 <= k.0 <= levels
    && at[k] > 0 && Frame(at[k]) && at[k] in mem && |mem[at[k]]| == 512
    && (forall i :: 0 <= i < 512 ==> EntryOk(mem, at, k, i))
  }

  /** Every table below the root is linked from the entry of its parent that stands for its place. */
  ghost predicate Linked(mem: Memory, at: map<Place, nat>, k: Place) {
    var up := (k.0 + 1, k.1 / 512);
    up in at && at[up] in mem && |mem[at[up]]| == 512 && k in at && Links(mem[at[up]][k.1 % 512], at[k])
  }

  /** The tables form a tree: one table a place, one place a page, one parent a table. */
  ghost predicate Tree(mem: Memory, at: map<Place, nat>, root: nat, levels: nat) {
    && 4 <= levels <= 5
    && (levels, 0) in at && at[(levels, 0)] == root
    && (forall k :: k in at ==> TableOk(mem, at, levels, k))
    && (forall k :: k in at && k != (levels, 0) ==> k.0 < levels && Linked(mem, at, k))
    && (forall k, k' :: k in at && k' in at && at[k] == at[k'] ==> k == k')
  }

  ghost function Translate(mem: Memory, root: nat, levels: nat, w: nat): Option<nat>
    requires 4 <= levels <= 5
  {
    Walk(mem, root, levels, w)
  }

  ghost predicate InReach(w: nat, levels: nat)
    requires 4 <= levels <= 5
  {
    w < Span(levels + 1)
  }

  lemma {:induction false} RootPlace(w: nat, levels: nat)
    requires 4 <= levels <= 5 && InReach(w, levels)
    ensures Slot(w, levels + 1) == 0
  {
  }

  /** The walk for w passes through the table that stands for w at each level where there is one. */
  lemma {:induction false} WalkPasses(mem: Memory, at: map<Place, nat>, root: nat, levels: nat, level: nat, w: nat)
    requires Tree(mem, at, root, levels) && InReach(w, levels) && 1 <= level <= levels
    requires (level, Slot(w, level + 1)) in at
    ensures Walk(mem, root, levels, w) == Walk(mem, at[(level, Slot(w, level + 1))], level, w)
    decreases levels - level
  {
    hide Present, Huge, Addr, Frame, TableOk, Slot;
    if level == levels {
      RootPlace(w, levels);
    } else {
      var k := (level, Slot(w, level + 1));
      var up := (level + 1, Slot(w, level + 2));
      SlotUp(w, level + 1);
      assert k != (levels, 0);
      assert Linked(mem, at, k);
      assert k.1 / 512 == up.1 && k.1 % 512 == LevelIndex(w, level + 1);
      WalkPasses(mem, at, root, levels, level + 1, w);
    }
  }

  // ------------------------------------------------------------------ stores

  function Store(mem: Memory, t: nat, i: nat, e: nat): Memory
    requires t in mem && i < |mem[t]|
  {
    var table: seq<nat> := mem[t][i := e];
    mem[t := table]
  }

  function Zeroed(): seq<nat> { seq(512, i => 0) }

  /** Memory after an empty entry has been made to point to a fresh, zeroed page. */
  function WithTable(mem: Memory, t: nat, i: nat, c: nat): Memory
    requires t in mem && i < |mem[t]| && t != c
  {
    Store(mem[c := Zeroed()], t, i, c + PRESENT_WRITABLE)
  }

  lemma {:induction false} TableEntry(c: nat)
    requires Frame(c)
    ensures Links(c + PRESENT_WRITABLE, c)
  {
    Encoded(c, PRESENT_WRITABLE);
  }

  /** The entry i of place k is empty and c is an unused page. */
  ghost predicate CanGrow(mem: Memory, at: map<Place, nat>, root: nat, levels: nat, k: Place, i: nat, c: nat) {
    && Tree(mem, at, root, levels) && k in at && k.0 >= 2 && i < 512
    && TableOk(mem, at, levels, k) && !Present(mem[at[k]][i])
    && c > 0 && Frame(c) && (forall q :: q in at ==> at[q] != c)
  }

  function Below(k: Place, i: nat): Place
    requires k.0 >= 1
  {
    (k.0 - 1, k.1 * 512 + i)
  }

  lemma {:induction false} PlaceIsFree(mem: Memory, at: map<Place, nat>, root: nat, levels: nat, k: Place, i: nat,
      c: nat)
    requires CanGrow(mem, at, root, levels, k, i, c)
    ensures Below(k, i) !in at
  {
    hide Present, Huge, Addr, Frame, EntryOk;
    var b := Below(k, i);
    assert b.1 / 512 == k.1 && b.1 % 512 == i;
    assert b in at ==> Linked(mem, at, b);
  }

  lemma {:induction false} GrowTable(mem: Memory, at: map<Place, nat>, root: nat, levels: nat, k: Place, i: nat,
      c: nat, q: Place)
    requires CanGrow(mem, at, root, levels, k, i, c) && q in at
    ensures TableOk(WithTable(mem, at[k], i, c), at[Below(k, i) := c], levels, q)
  {
    hide Present, Huge, Addr, Frame, Linked;
    PlaceIsFree(mem, at, root, levels, k, i, c);
    TableEntry(c);
    var mem', at' := WithTable(mem, at[k], i, c), at[Below(k, i) := c];
    assert TableOk(mem, at, levels, q);
    forall j | 0 <= j < 512 ensures EntryOk(mem', at', q, j) {
      assert EntryOk(mem, at, q, j);
      if q == k && j == i { assert Addr(mem'[at[k]][i]) == c; } else { assert mem'[at[q]][j] == mem[at[q]][j]; }
    }
  }

  lemma {:induction false} NewTable(mem: Memory, at: map<Place, nat>, root: nat, levels: nat, k: Place, i: nat, c: nat)
    requires CanGrow(mem, at, root, levels, k, i, c)
    ensures TableOk(WithTable(mem, at[k], i, c), at[Below(k, i) := c], levels, Below(k, i))
    ensures Linked(WithTable(mem, at[k], i, c), at[Below(k, i) := c], Below(k, i))
  {
    hide Present, Huge, Addr, Frame, Tree, EntryOk;
    var mem', at', b := WithTable(mem, at[k], i, c), at[Below(k, i) := c], Below(k, i);
    TableEntry(c);
    assert b.1 / 512 == k.1 && b.1 % 512 == i;
    forall j | 0 <= j < 512 ensures EntryOk(mem', at', b, j) {
      assert mem'[c][j] == 0;
      EmptyEntry(mem', at', b, j);
    }
  }

  lemma {:induction false} EmptyEntry(mem: Memory, at: map<Place, nat>, k: Place, i: nat)
    requires k in at && at[k] in mem && |mem[at[k]]| == 512 && i < 512 && mem[at[k]][i] == 0
    ensures EntryOk(mem, at, k, i)
  {
  }

  /** Linking a fresh table keeps the tree. */
  lemma {:induction false} GrowTree(mem: Memory, at: map<Place, nat>, root: nat, levels: nat, k: Place, i: nat, c: nat)
    requires CanGrow(mem, at, root, levels, k, i, c)
    ensures Tree(WithTable(mem, at[k], i, c), at[Below(k, i) := c], root, levels)
  {
    hide Present, Huge, Addr, Frame, EntryOk;
    var mem', at', b := WithTable(mem, at[k], i, c), at[Below(k, i) := c], Below(k, i);
    PlaceIsFree(mem, at, root, levels, k, i, c);
    NewTable(mem, at, root, levels, k, i, c);
    forall q | q in at' ensures TableOk(mem', at', levels, q) {
      if q != b { GrowTable(mem, at, root, levels, k, i, c, q); }
    }
    hide TableOk;
    forall q | q in at' && q != (levels, 0) ensures q.0 < levels && Linked(mem', at', q) {
      if q != b { StaysLinked(mem, at, root, levels, k, i, c, q); }
    }
  }

  lemma {:induction false} StaysLinked(mem: Memory, at: map<Place, nat>, root: nat, levels: nat, k: Place, i: nat,
      c: nat, q: Place)
    requires CanGrow(mem, at, root, levels, k, i, c) && q in at && q != (levels, 0)
    ensures q.0 < levels && Linked(WithTable(mem, at[k], i, c), at[Below(k, i) := c], q)
  {
    hide Present, Huge, Addr, Frame, EntryOk;
    PlaceIsFree(mem, at, root, levels, k, i, c);
    assert Linked(mem, at, q);
    var up := (q.0 + 1, q.1 / 512);
    assert at[up] != c;
  }

  /** Linking a fresh table changes no translation. */
  lemma {:induction false} GrowWalk(mem: Memory, at: map<Place, nat>, root: nat, levels: nat, k: Place, i: nat, c: nat,
                                    q: Place, w: nat)
    requires CanGrow(mem, at, root, levels, k, i, c) && q in at
    ensures 1 <= q.0 <= levels
    ensures Walk(WithTable(mem, at[k], i, c), at[q], q.0, w) == Walk(mem, at[q], q.0, w)
    decreases q.0
  {
    hide Addr, Frame, LevelIndex, Linked, Present, Huge, Walk;
    var mem' := WithTable(mem, at[k], i, c);
    assert TableOk(mem, at, levels, q);
    var j := LevelIndex(w, q.0);
    assert EntryOk(mem, at, q, j);
    if q == k && j == i {
      GrownEntry(mem, mem', at[q], q.0, w, c);
    } else {
      assert mem'[at[q]][j] == mem[at[q]][j];
      var e := mem[at[q]][j];
      if Present(e) && q.0 != 1 && !Huge(e) {
        GrowWalk(mem, at, root, levels, k, i, c, Below(q, j), w);
      }
      SameEntry(mem, mem', at[q], q.0, w);
    }
  }

  /** A walk depends on the entry it reads and on the walk from there. */
  lemma {:induction false} SameEntry(mem: Memory, mem': Memory, t: nat, level: nat, w: nat)
    requires 1 <= level <= 5 && t in mem && t in mem' && |mem[t]| == |mem'[t]| == 512
    requires mem'[t][LevelIndex(w, level)] == mem[t][LevelIndex(w, level)]
    requires var e := mem[t][LevelIndex(w, level)];
      Present(e) && level != 1 && !Huge(e) ==> Walk(mem', Addr(e), level - 1, w) == Walk(mem, Addr(e), level - 1, w)
    ensures Walk(mem', t, level, w) == Walk(mem, t, level, w)
  {
    hide Present, Huge, Addr, LevelIndex, Span;
  }

  lemma {:induction false} GrownEntry(mem: Memory, mem': Memory, t: nat, level: nat, w: nat, c: nat)
    requires 2 <= level <= 5 && t in mem && t in mem' && |mem[t]| == |mem'[t]| == 512 && Frame(c)
    requires !Present(mem[t][LevelIndex(w, level)]) && mem'[t][LevelIndex(w, level)] == c + PRESENT_WRITABLE
    requires c in mem' && mem'[c] == Zeroed()
    ensures Walk(mem', t, level, w) == Walk(mem, t, level, w)
  {
    hide Present, Huge, Addr, LevelIndex, Span, Zeroed;
    TableEntry(c);
    EmptyWalk(mem', c, level - 1, w);
  }

  lemma {:induction false} EmptyWalk(mem: Memory, t: nat, level: nat, w: nat)
    requires 1 <= level <= 5 && t in mem && mem[t] == Zeroed()
    ensures Walk(mem, t, level, w) == None
  {
  }

  // ------------------------------------------------------------------ leaves

  /** Entry i of place k may become the frame entry e. */
  ghost predicate CanMap(mem: Memory, at: map<Place, nat>, root: nat, levels: nat, k: Place, i: nat, e: nat) {
    && Tree(mem, at, root, levels) && k in at && i < 512 && TableOk(mem, at, levels, k)
    && Present(e)
    && (k.0 == 1 || (k.0 == 3 && Huge(e) && Addr(e) % ONE_GIB == 0))
  }

  /** Place q is inside slot s of this level, below the table that holds the slot's entry. */
  ghost predicate Under(q: Place, level: nat, s: nat) {
    (q.0 + 1 == level && q.1 == s) || (q.0 + 2 == level && q.1 / 512 == s)
  }

  /** The tables that are left when the entry of slot s becomes a frame. */
  ghost function Pruned(at: map<Place, nat>, level: nat, s: nat): map<Place, nat> {
    map q | q in at && !Under(q, level, s) :: at[q]
  }

  lemma {:induction false} LeafEntry(mem: Memory, at: map<Place, nat>, root: nat, levels: nat, k: Place, i: nat, e: nat,
                                     q: Place, j: nat)
    requires CanMap(mem, at, root, levels, k, i, e)
    requires q in at && !Under(q, k.0, k.1 * 512 + i) && TableOk(mem, at, levels, q) && j < 512
    ensures at[q] in Store(mem, at[k], i, e) && |Store(mem, at[k], i, e)[at[q]]| == 512
    ensures EntryOk(Store(mem, at[k], i, e), Pruned(at, k.0, k.1 * 512 + i), q, j)
  {
    hide Present, Huge, Addr, Frame, Linked, TableOk;
    EntryOfTable(mem, at, levels, k, i);
    EntryOfTable(mem, at, levels, q, j);
    var mem' := Store(mem, at[k], i, e);
    if q == k && j == i {
      assert mem'[at[q]][j] == e;
    } else {
      assert at[q] == at[k] ==> q == k;
      assert mem'[at[q]][j] == mem[at[q]][j];
      BelowStays(q, j, k, i);
    }
  }

  lemma {:induction false} EntryOfTable(mem: Memory, at: map<Place, nat>, levels: nat, q: Place, j: nat)
    requires q in at && TableOk(mem, at, levels, q) && j < 512
    ensures 1 <= q.0 <= levels && at[q] in mem && |mem[at[q]]| == 512 && EntryOk(mem, at, q, j)
  {
    hide EntryOk;
  }

  lemma {:induction false} BelowStays(q: Place, j: nat, k: Place, i: nat)
    requires !Under(q, k.0, k.1 * 512 + i) && i < 512 && j < 512 && !(q == k && j == i)
    ensures q.0 >= 1 ==> !Under(Below(q, j), k.0, k.1 * 512 + i)
  {
    assert (q.1 * 512 + j) / 512 == q.1;
  }

  lemma {:induction false} LeafTable(mem: Memory, at: map<Place, nat>, root: nat, levels: nat, k: Place, i: nat, e: nat,
                                     q: Place)
    requires CanMap(mem, at, root, levels, k, i, e) && q in Pruned(at, k.0, k.1 * 512 + i)
    ensures TableOk(Store(mem, at[k], i, e), Pruned(at, k.0, k.1 * 512 + i), levels, q)
  {
    hide Present, Huge, Addr, Frame, Linked, EntryOk;
    var mem', at' := Store(mem, at[k], i, e), Pruned(at, k.0, k.1 * 512 + i);
    assert TableOk(mem, at, levels, q);
    forall j | 0 <= j < 512 ensures EntryOk(mem', at', q, j) { LeafEntry(mem, at, root, levels, k, i, e, q, j); }
  }

  lemma {:induction false} LeafLinked(mem: Memory, at: map<Place, nat>, root: nat, levels: nat, k: Place, i: nat,
      e: nat,
                                      q: Place)
    requires CanMap(mem, at, root, levels, k, i, e) && q in Pruned(at, k.0, k.1 * 512 + i) && q != (levels, 0)
    ensures q.0 < levels && Linked(Store(mem, at[k], i, e), Pruned(at, k.0, k.1 * 512 + i), q)
  {
    hide Present, Huge, Addr, Frame, EntryOk, Under, TableOk, Linked;
    assert TableOk(mem, at, levels, q) && Linked(mem, at, q);
    EntryOfTable(mem, at, levels, k, i);
    EntryOfTable(mem, at, levels, q, 0);
    AboveStays(q, k, i);
    LinkStays(mem, at, k, i, e, q);
  }

  lemma {:induction false} LinkStays(mem: Memory, at: map<Place, nat>, k: Place, i: nat, e: nat, q: Place)
    requires k in at && at[k] in mem && i < |mem[at[k]]| && Linked(mem, at, q)
    requires forall k' :: k' in at && at[k'] == at[k] ==> k' == k
    requires !Under(q, k.0, k.1 * 512 + i) && !Under((q.0 + 1, q.1 / 512), k.0, k.1 * 512 + i)
    requires !((q.0 + 1, q.1 / 512) == k && q.1 % 512 == i)
    ensures Linked(Store(mem, at[k], i, e), Pruned(at, k.0, k.1 * 512 + i), q)
  {
    hide Under, Links, Store;
    var at', up := Pruned(at, k.0, k.1 * 512 + i), (q.0 + 1, q.1 / 512);
    assert at'[q] == at[q] && at'[up] == at[up];
    Elsewhere(mem, at[k], i, e, at[up], q.1 % 512);
  }

  lemma {:induction false} Elsewhere(mem: Memory, t: nat, i: nat, e: nat, u: nat, j: nat)
    requires t in mem && i < |mem[t]| && u in mem && j < |mem[u]|
    ensures var mem' := Store(mem, t, i, e);
      u in mem' && |mem'[u]| == |mem[u]| && (u != t || j != i ==> mem'[u][j] == mem[u][j])
  {
  }

  lemma {:induction false} AboveStays(q: Place, k: Place, i: nat)
    requires !Under(q, k.0, k.1 * 512 + i) && 1 <= q.0 && k.0 <= 3 && i < 512
    ensures var up := (q.0 + 1, q.1 / 512); !Under(up, k.0, k.1 * 512 + i) && !(up == k && q.1 % 512 == i)
  {
    assert q.1 == q.1 / 512 * 512 + q.1 % 512;
  }

  /** Writing a frame entry keeps the tree, without what was below the entry. */
  lemma {:induction false} LeafTree(mem: Memory, at: map<Place, nat>, root: nat, levels: nat, k: Place, i: nat, e: nat)
    requires CanMap(mem, at, root, levels, k, i, e)
    ensures Tree(Store(mem, at[k], i, e), Pruned(at, k.0, k.1 * 512 + i), root, levels)
  {
    hide Present, Huge, Addr, Frame, TableOk, Linked, Store;
    EntryOfTable(mem, at, levels, k, i);
    var mem', at' := Store(mem, at[k], i, e), Pruned(at, k.0, k.1 * 512 + i);
    forall q | q in at' ensures TableOk(mem', at', levels, q) { LeafTable(mem, at, root, levels, k, i, e, q); }
    forall q | q in at' && q != (levels, 0) ensures q.0 < levels && Linked(mem', at', q) {
      LeafLinked(mem, at, root, levels, k, i, e, q);
    }
  }

  /** Addresses outside the region of a rewritten entry translate as before. */
  lemma {:induction false} LeafElsewhere(mem: Memory, at: map<Place, nat>, root: nat, levels: nat, k: Place, i: nat,
      e: nat,
                                         q: Place, w: nat)
    requires CanMap(mem, at, root, levels, k, i, e) && q in at && 1 <= q.0 <= levels
    requires q.1 == Slot(w, q.0 + 1) && Slot(w, k.0) != k.1 * 512 + i
    ensures Walk(Store(mem, at[k], i, e), at[q], q.0, w) == Walk(mem, at[q], q.0, w)
    decreases q.0
  {
    hide Huge, Addr, Frame, LevelIndex, Slot, Present, Linked, Span, Walk;
    var mem' := Store(mem, at[k], i, e);
    assert TableOk(mem, at, levels, q);
    var j := LevelIndex(w, q.0);
    assert EntryOk(mem, at, q, j);
    SlotUp(w, q.0);
    assert !(q == k && j == i);
    assert mem'[at[q]][j] == mem[at[q]][j];
    var x := mem[at[q]][j];
    if Present(x) && q.0 != 1 && !Huge(x) {
      LeafElsewhere(mem, at, root, levels, k, i, e, Below(q, j), w);
    }
    SameEntry(mem, mem', at[q], q.0, w);
  }

  lemma {:induction false} LeafWalk(mem: Memory, t: nat, level: nat, e: nat, w: nat)
    requires level == 1 || (level == 3 && Huge(e) && Addr(e) % ONE_GIB == 0)
    requires t in mem && |mem[t]| == 512 && mem[t][LevelIndex(w, level)] == e && Present(e)
    ensures Walk(mem, t, level, w) == Some(Addr(e) + w % Span(level))
  {
    hide Present, Huge, Addr, LevelIndex;
  }

  lemma {:induction false} RootIn(mem: Memory, at: map<Place, nat>, root: nat, levels: nat)
    requires Tree(mem, at, root, levels)
    ensures 4 <= levels <= 5 && (levels, 0) in at && at[(levels, 0)] == root
  {
    hide TableOk, Linked;
  }

  /** One entry written: its region goes to the new frame, everything else translates as before. */
  lemma {:induction false} LeafMaps(mem: Memory, at: map<Place, nat>, root: nat, levels: nat, k: Place, i: nat,
      e: nat, w: nat)
    requires CanMap(mem, at, root, levels, k, i, e) && InReach(w, levels)
    ensures Translate(Store(mem, at[k], i, e), root, levels, w)
         == if Slot(w, k.0) == k.1 * 512 + i then Some(Addr(e) + w % Span(k.0)) else Translate(mem, root, levels, w)
  {
    hide Addr, Huge, Present, Linked, Tree, TableOk, LevelIndex, Slot;
    EntryOfTable(mem, at, levels, k, i);
    RootIn(mem, at, root, levels);
    var mem' := Store(mem, at[k], i, e);
    if Slot(w, k.0) == k.1 * 512 + i {
      LeafTree(mem, at, root, levels, k, i, e);
      SlotUp(w, k.0);
      assert LevelIndex(w, k.0) == i && Slot(w, k.0 + 1) == k.1;
      WalkPasses(mem', Pruned(at, k.0, k.1 * 512 + i), root, levels, k.0, w);
      LeafWalk(mem', at[k], k.0, e, w);
    } else {
      RootPlace(w, levels);
      LeafElsewhere(mem, at, root, levels, k, i, e, (levels, 0), w);
    }
  }
}
