/** `setup_page_tables_nlevel` and `setup_page_tables`. */
module BootSetup {
  import opened Common
  import opened PageTables
  import opened BootPaging
  import opened BootLayout

  // -------------------------------------------------------- the tables it takes

  function Ceil512(n: nat): nat { (n + 511) / 512 }

  /** The places that hold a table once `pts` kernel page tables and `pdpts` direct-map tables exist. */
  ghost predicate Needs(k: Place, levels: nat, low: bool, pts: nat, pdpts: nat)
    requires 4 <= levels <= 5
  {
    || k == (levels, 0)
    || (low && (k == (3, 0) || (levels == 5 && k == (4, 0))))
    || (pts > 0 && (k == (3, KernelLow(levels) / Span(4)) || k == (2, KernelLow(levels) / Span(3))))
    || (pts > 0 && levels == 5 && k == (4, 511))
    || (k.0 == 1 && KernelLow(levels) / Span(2) <= k.1 < KernelLow(levels) / Span(2) + pts)
    || (k.0 == 3 && DirectLow(levels) / Span(4) <= k.1 < DirectLow(levels) / Span(4) + pdpts)
  }

  ghost predicate Shape(places: set<Place>, levels: nat, low: bool, pts: nat, pdpts: nat)
    requires 4 <= levels <= 5
  {
    forall k :: k in places <==> Needs(k, levels, low, pts, pdpts)
  }

  function Pages(levels: nat, low: bool, pts: nat, pdpts: nat): int {
    1 + (if low then levels - 3 else 0) + (if pts > 0 then levels - 2 + pts else 0) + pdpts
  }

  /** Pages taken from the pool by a complete set-up. */
  function Needed(levels: nat, kernelSize: nat, maxPhys: nat): int {
    Pages(levels, true, Ceil512(ImagePages(kernelSize)), Ceil512(DirectPages(maxPhys)))
  }

  lemma {:induction false} PathToPdpt(places: set<Place>, w: nat, levels: nat)
    requires 4 <= levels <= 5
    ensures Path(w, 3, levels) == {(3, Slot(w, 4))} + if levels == 5 then {(4, Slot(w, 5))} else {}
    ensures Missing(places, w, 3, levels) ==
      (if (3, Slot(w, 4)) in places then 0 else 1) + if levels == 5 && (4, Slot(w, 5)) !in places then 1 else 0
  {
    hide Slot;
    PathEnds(places, w, levels);
    PathStep(places, w, 4, levels);
    if levels == 5 { PathStep(places, w, 5, levels); }
  }

  lemma {:induction false} PathToPt(places: set<Place>, w: nat, levels: nat)
    requires 4 <= levels <= 5
    ensures Path(w, 1, levels) == {(1, Slot(w, 2)), (2, Slot(w, 3))} + Path(w, 3, levels)
    ensures Missing(places, w, 1, levels) ==
      (if (1, Slot(w, 2)) in places then 0 else 1) + (if (2, Slot(w, 3)) in places then 0 else 1)
      + Missing(places, w, 3, levels)
  {
    hide Slot, Path, Missing;
    PathStep(places, w, 3, levels);
    PathStep(places, w, 2, levels);
  }

  lemma {:induction false} LowTables(places: set<Place>, levels: nat, i: nat)
    requires 4 <= levels <= 5 && i < 4 && Shape(places, levels, i > 0, 0, 0)
    ensures Pages(levels, i > 0, 0, 0) + Missing(places, i * ONE_GIB, 3, levels) == Pages(levels, true, 0, 0)
    ensures Shape(places + Path(i * ONE_GIB, 3, levels), levels, true, 0, 0)
    ensures (2, Slot(i * ONE_GIB, 3)) !in places
  {
    hide Path, Missing;
    PathToPdpt(places, i * ONE_GIB, levels);
  }

  lemma {:induction false} KernelTables(places: set<Place>, levels: nat, n: nat, j: nat)
    requires 4 <= levels <= 5 && j <= n && n * PAGE_SIZE < 0x3FF0_0000 && Shape(places, levels, true, Ceil512(n), 0)
    ensures Pages(levels, true, Ceil512(n), 0) + Missing(places, KernelLow(levels) + j * PAGE_SIZE, 1, levels)
         == Pages(levels, true, Ceil512(Max(n, j + 1)), 0)
    ensures Shape(places + Path(KernelLow(levels) + j * PAGE_SIZE, 1, levels), levels, true, Ceil512(Max(n, j + 1)), 0)
  {
    hide Path, Missing;
    var w := KernelLow(levels) + j * PAGE_SIZE;
    PathToPt(places, w, levels);
    PathToPdpt(places, w, levels);
    KernelSlots(levels, j);
  }

  lemma {:induction false} KernelSlots(levels: nat, j: nat)
    requires 4 <= levels <= 5 && j * PAGE_SIZE < 0x4000_0000
    ensures var w := KernelLow(levels) + j * PAGE_SIZE;
      && Slot(w, 2) == KernelLow(levels) / Span(2) + j / 512
      && Slot(w, 3) == KernelLow(levels) / Span(3)
      && Slot(w, 4) == KernelLow(levels) / Span(4)
      && (levels == 5 ==> Slot(w, 5) == 511)
  {
  }

  lemma {:induction false} DirectTables(places: set<Place>, levels: nat, pts: nat, i: nat)
    requires 4 <= levels <= 5 && i < 66560 && 0 < pts && Shape(places, levels, true, pts, Ceil512(i))
    ensures Pages(levels, true, pts, Ceil512(i)) + Missing(places, DirectLow(levels) + i * ONE_GIB, 3, levels)
         == Pages(levels, true, pts, Ceil512(i + 1))
    ensures Shape(places + Path(DirectLow(levels) + i * ONE_GIB, 3, levels), levels, true, pts, Ceil512(i + 1))
    ensures (2, Slot(DirectLow(levels) + i * ONE_GIB, 3)) !in places
  {
    hide Path, Missing;
    var w := DirectLow(levels) + i * ONE_GIB;
    PathToPdpt(places, w, levels);
    DirectSlots(levels, i);
  }

  lemma {:induction false} DirectSlots(levels: nat, i: nat)
    requires 4 <= levels <= 5 && i < 66560
    ensures var w := DirectLow(levels) + i * ONE_GIB;
      && Slot(w, 3) == DirectLow(levels) / Span(3) + i
      && Slot(w, 4) == DirectLow(levels) / Span(4) + i / 512
      && (levels == 5 ==> Slot(w, 5) == 511)
  {
  }

  /** The pool is large enough exactly when the page tables of both windows fit beside the fixed tables. */
  lemma {:induction false} PoolSuffices(levels: nat, kernelSize: nat, maxPhys: nat)
    requires 4 <= levels <= 5 && kernelSize <= 239 * 0x10_0000
    ensures Needed(levels, kernelSize, maxPhys) <= POOL_PAGES
  {
    assert ImagePages(kernelSize) <= 61440;
    assert Ceil512(DirectPages(maxPhys)) <= 130;
  }

  /** The bound is sharp: one byte more and a full direct map exhausts the pool in 5-level mode. */
  lemma {:induction false} PoolSharp(maxPhys: nat)
    requires maxPhys >= VMALLOC_START - DIRECT_MAP_OFFSET
    ensures Needed(5, 239 * 0x10_0000, maxPhys) == POOL_PAGES
    ensures Needed(5, 239 * 0x10_0000 + 1, maxPhys) == POOL_PAGES + 1
  {
    assert DirectPages(maxPhys) == 66560;
  }

  // --------------------------------------------------------------- the set-up

  /** The tables built so far translate, occupy and consume exactly what these counts say. */
  ghost predicate Built(b: Builder, root: nat, levels: nat, low: nat, image: nat, gb: nat)
    reads b
  {
    && 4 <= levels <= 5
    && b.Valid(root, levels) && b.endPage == b.firstPage + POOL_PAGES * PAGE_SIZE
    && Sofar(b.mem, root, levels, low, image, gb)
    && Shape(b.at.Keys, levels, low > 0, Ceil512(image), Ceil512(gb))
    && b.nextPage == b.firstPage + PAGE_SIZE * Pages(levels, low > 0, Ceil512(image), Ceil512(gb))
  }

  /** Identity map of the low 4 GiB. */
  method MapIdentity(b: Builder, root: nat, levels: nat) returns (ok: bool)
    requires Built(b, root, levels, 0, 0, 0)
    modifies b
    ensures b.OnlyPool()
    ensures ok <==> Pages(levels, true, 0, 0) <= POOL_PAGES
    ensures ok ==> Built(b, root, levels, 4, 0, 0)
  {
    hide Sofar, Shape, Mapped, Missing, Path, Tree, Addr, Slot, SameTranslation, Low, Extends;
    for i := 0 to 4
      invariant Built(b, root, levels, i, 0, 0) && b.OnlyPool()
      invariant i > 0 ==> Pages(levels, true, 0, 0) <= POOL_PAGES
    {
      LowTables(b.at.Keys, levels, i);
      LowParts(levels, i * ONE_GIB);
      GigabyteFrame(i);
      ghost var m := b.mem;
      NothingLost(b.mem, b.at, root, levels, Low(i * ONE_GIB, levels), 3);
      var done := b.Map1GPage(root, levels, i * ONE_GIB, i * ONE_GIB);
      if !done {
        return false;
      }
      MoreLow(m, b.mem, root, levels, i);
    }
    ok := true;
  }

  lemma {:induction false} GigabyteFrame(i: nat)
    requires i < 66560
    ensures Addr(i * ONE_GIB) == i * ONE_GIB
  {
  }

  lemma {:induction false} PageFrame(j: nat)
    requires j < 0x10_0000
    ensures Addr(j * PAGE_SIZE) == j * PAGE_SIZE
  {
  }

  /** No 1 GiB page lies where the kernel goes: the last page of that gigabyte is unmapped. */
  lemma {:induction false} KernelNotHuge(mem: Memory, at: map<Place, nat>, root: nat, levels: nat, n: nat, j: nat)
    requires Tree(mem, at, root, levels) && Sofar(mem, root, levels, 4, n, 0)
    requires n * PAGE_SIZE < 0x3FF0_0000 && j * PAGE_SIZE < 0x4000_0000
    ensures NoHugePage(mem, at, KernelLow(levels) + j * PAGE_SIZE)
  {
    hide Present, Huge, Addr, Frame, Linked;
    var w, x := KernelLow(levels) + j * PAGE_SIZE, KernelLow(levels) + 0x3FFF_FFFF;
    var k := (3, Slot(w, 4));
    assert Slot(x, 4) == Slot(w, 4) && LevelIndex(x, 3) == LevelIndex(w, 3);
    assert Translate(mem, root, levels, x) == None;
    if k in at {
      assert TableOk(mem, at, levels, k);
      assert EntryOk(mem, at, k, LevelIndex(w, 3));
      WalkPasses(mem, at, root, levels, 3, x);
    }
  }

  lemma {:induction false} CeilGrows(levels: nat, n: nat, n': nat)
    requires n <= n'
    ensures Ceil512(n) <= Ceil512(n')
    ensures Pages(levels, true, Ceil512(n), 0) <= POOL_PAGES && levels >= 4 ==> n <= 0x2_0000
  {
  }

  /** Pages first, first + 1, ... of the kernel window; the ones below `image` are mapped already. */
  method MapKernel(b: Builder, root: nat, levels: nat, image: nat, first: nat, count: nat) returns (ok: bool)
    requires Built(b, root, levels, 4, image, 0) && first <= image
    modifies b
    ensures b.OnlyPool()
    ensures ok <==> Pages(levels, true, Ceil512(Max(image, first + count)), 0) <= POOL_PAGES
    ensures ok ==> Built(b, root, levels, 4, Max(image, first + count), 0)
  {
    hide Sofar, Shape, Mapped, Missing, Path, Tree, Addr, Slot, SameTranslation, Low, Extends, Ceil512, NoHugePage;
    CeilFacts(levels, 1);
    for i := 0 to count
      invariant Built(b, root, levels, 4, Max(image, first + i), 0) && b.OnlyPool()
    {
      ghost var n := Max(image, first + i);
      var j := first + i;
      CeilGrows(levels, n, n);
      CeilGrows(levels, Max(n, j + 1), Max(image, first + count));
      KernelTables(b.at.Keys, levels, n, j);
      LowParts(levels, j * PAGE_SIZE);
      PageFrame(j);
      KernelNotHuge(b.mem, b.at, root, levels, n, j);
      ghost var m := b.mem;
      assert KERNEL_WINDOW + j * PAGE_SIZE < U64;
      NothingLost(b.mem, b.at, root, levels, Low(KERNEL_WINDOW + j * PAGE_SIZE, levels), 1);
      var done := b.Map4KPage(root, levels, KERNEL_WINDOW + j * PAGE_SIZE, j * PAGE_SIZE, PAGE_FLAGS);
      if !done {
        return false;
      }
      MoreKernel(m, b.mem, root, levels, n, j);
    }
    ok := true;
  }

  /** The direct map, one gigabyte at a time. */
  method MapDirect(b: Builder, root: nat, levels: nat, image: nat, gb: nat) returns (ok: bool)
    requires Built(b, root, levels, 4, image, 0) && 0 < image && gb <= 66560
    modifies b
    ensures b.OnlyPool()
    ensures ok <==> Pages(levels, true, Ceil512(image), Ceil512(gb)) <= POOL_PAGES
    ensures ok ==> Built(b, root, levels, 4, image, gb)
  {
    hide Sofar, Shape, Mapped, Missing, Path, Tree, Addr, Slot, SameTranslation, Low, Extends, Ceil512;
    CeilFacts(levels, image);
    for i := 0 to gb
      invariant Built(b, root, levels, 4, image, i) && b.OnlyPool()
    {
      CeilGrows(levels, i + 1, gb);
      DirectTables(b.at.Keys, levels, Ceil512(image), i);
      LowParts(levels, i * ONE_GIB);
      GigabyteFrame(i);
      ghost var m := b.mem;
      NothingLost(b.mem, b.at, root, levels, Low(DIRECT_MAP_OFFSET + i * ONE_GIB, levels), 3);
      var done := b.Map1GPage(root, levels, DIRECT_MAP_OFFSET + i * ONE_GIB, i * ONE_GIB);
      if !done {
        return false;
      }
      MoreDirect(m, b.mem, root, levels, image, i);
    }
    ok := true;
  }

  lemma {:induction false} CeilFacts(levels: nat, image: nat)
    requires image > 0
    ensures Ceil512(image) > 0 && Ceil512(0) == 0
    ensures levels >= 4 && Pages(levels, true, Ceil512(image), 0) <= POOL_PAGES ==> image * PAGE_SIZE < 0x4000_0000
  {
  }

  lemma {:induction false} RootTree(mem: Memory, root: nat, levels: nat)
    requires 4 <= levels <= 5 && root > 0 && Frame(root) && root in mem && mem[root] == Zeroed()
    ensures Tree(mem, map[(levels, 0) := root], root, levels)
    ensures Sofar(mem, root, levels, 0, 0, 0)
    ensures Shape(map[(levels, 0) := root].Keys, levels, false, 0, 0)
  {
    hide Frame, Translate;
    var at: map<Place, nat> := map[(levels, 0) := root];
    forall i | 0 <= i < 512 ensures EntryOk(mem, at, (levels, 0), i) { EmptyEntry(mem, at, (levels, 0), i); }
    assert TableOk(mem, at, levels, (levels, 0));
    forall x: nat | InReach(x, levels) ensures Translate(mem, root, levels, x) == None {
      EmptyTranslates(mem, root, levels, x);
    }
  }

  lemma {:induction false} EmptyTranslates(mem: Memory, root: nat, levels: nat, x: nat)
    requires 4 <= levels <= 5 && root in mem && mem[root] == Zeroed()
    ensures Translate(mem, root, levels, x) == None
  {
    EmptyWalk(mem, root, levels, x);
  }

  datatype SetupResult = SetupResult(
    root: nat, pml4Compat: nat, pageLevels: nat, vaBits: nat, directMapWindowEnd: nat,
    transitionRoot: nat, transitionPml4: nat, fallbackRoot: nat)

  function Failed(levels: nat): SetupResult {
    SetupResult(0, 0, levels, if levels == 4 then 48 else 57, VMALLOC_START, 0, 0, 0)
  }

  /** `kernel_pml4_from_root` */
  function KernelPml4(mem: Memory, root: nat, levels: nat): nat
    requires root in mem && |mem[root]| == 512
  {
    if levels == 4 then root
    else
      var e := mem[root][LevelIndex(KERNEL_VIRT_ADDR, 5)];
      if Present(e) then Addr(e) else 0
  }

  /** In 5-level mode the compatibility PML4 is the table that translates the kernel's 256 TiB. */
  lemma {:induction false} KernelPml4Is(mem: Memory, at: map<Place, nat>, root: nat, levels: nat)
    requires Tree(mem, at, root, levels) && (levels == 5 ==> (4, 511) in at)
    ensures root > 0 && root in mem && |mem[root]| == 512
    ensures KernelPml4(mem, root, levels) == if levels == 4 then root else at[(4, 511)]
    ensures KernelPml4(mem, root, levels) > 0
  {
    hide Present, Huge, Addr, Frame;
    assert TableOk(mem, at, levels, (levels, 0));
    if levels == 5 {
      assert LevelIndex(KERNEL_VIRT_ADDR, 5) == 511;
      assert TableOk(mem, at, levels, (4, 511)) && Linked(mem, at, (4, 511));
    }
  }

  /** Below level 5 a walk looks at the low 48 bits only. */
  lemma {:induction false} WalkLow(mem: Memory, t: nat, level: nat, w: nat)
    requires 1 <= level <= 4
    ensures Walk(mem, t, level, Low(w, 4)) == Walk(mem, t, level, w)
    decreases level
  {
    hide Present, Huge, Addr, LevelIndex;
    IndexOfLow(w, level, 4);
    OffsetOfLow(w, level);
    if level > 1 && t in mem && |mem[t]| == 512 {
      WalkLow(mem, Addr(mem[t][LevelIndex(w, level)]), level - 1, w);
    }
  }

  lemma {:induction false} OffsetOfLow(w: nat, level: nat)
    requires 1 <= level <= 4
    ensures Low(w, 4) % Span(level) == w % Span(level) && Low(w, 4) % PAGE_SIZE == w % PAGE_SIZE
  {
    var q := w / Span(5);
    ModMultiple(Low(w, 4), PAGE_SIZE, q * 0x10_0000_0000);
    ModMultiple(Low(w, 4), Span(level), match level
      case 1 => q * 0x10_0000_0000 case 2 => q * 0x800_0000 case 3 => q * 0x4_0000 case _ => q * 0x200);
  }

  lemma {:induction false} ModMultiple(a: nat, s: nat, k: nat)
    requires s > 0
    ensures (s * k + a) % s == a % s
  {
    DivShift(s, k, a);
    var x := s * k + a;
    assert x == s * (x / s) + x % s && a == s * (a / s) + a % s;
    assert s * (k + a / s) == s * k + s * (a / s);
  }

  /** Used as the root of a 4-level walk, this table translates the upper half of the layout. */
  ghost predicate KernelHalf(mem: Memory, pml4: nat, image: nat, gb: nat) {
    forall v: nat :: U64 - Span(5) / 2 <= v < U64 ==> Translate(mem, pml4, 4, Low(v, 4)) == Layout(image, gb, v)
  }

  lemma {:induction false} CompatTranslates(mem: Memory, at: map<Place, nat>, root: nat, levels: nat, image: nat,
      gb: nat)
    requires Tree(mem, at, root, levels) && (levels == 5 ==> (4, 511) in at) && Realises(mem, root, levels, image, gb)
    ensures KernelHalf(mem, if levels == 4 then root else at[(4, 511)], image, gb)
  {
    hide Layout, Walk, TableOk, Linked, Low, Tree;
    forall v: nat | U64 - Span(5) / 2 <= v < U64
      ensures Translate(mem, if levels == 4 then root else at[(4, 511)], 4, Low(v, 4)) == Layout(image, gb, v)
    {
      assert Canonical(v, levels);
      if levels == 5 {
        UpperHalf(v);
        WalkPasses(mem, at, root, levels, 4, Low(v, 5));
        WalkLow(mem, at[(4, 511)], 4, Low(v, 5));
      }
    }
  }

  lemma {:induction false} UpperHalf(v: nat)
    requires U64 - Span(5) / 2 <= v < U64
    ensures Slot(Low(v, 5), 5) == 511 && Low(Low(v, 5), 4) == Low(v, 4)
  {
  }

  /** `setup_page_tables_nlevel` on a fresh pool of 256 pages. */
  method SetupNLevel(b: Builder, kernelSize: nat, maxPhys: nat, levels: nat) returns (r: SetupResult)
    requires 4 <= levels <= 5 && b.Pool() && b.at == map[] && b.nextPage == b.firstPage
    requires b.endPage == b.firstPage + POOL_PAGES * PAGE_SIZE && kernelSize + PAGE_SIZE <= U64
    modifies b
    ensures b.OnlyPool()
    ensures r.root != 0 <==> Needed(levels, kernelSize, maxPhys) <= POOL_PAGES
    ensures r.root == 0 ==> r == Failed(levels)
    ensures r.pageLevels == levels && r.vaBits == (if levels == 4 then 48 else 57)
    ensures r.directMapWindowEnd == VMALLOC_START
    ensures r.transitionRoot == r.transitionPml4 == r.fallbackRoot == 0
    ensures r.root != 0 ==>
      && b.Valid(r.root, levels) && r.root == b.firstPage
      && b.nextPage == b.firstPage + PAGE_SIZE * Needed(levels, kernelSize, maxPhys)
      && Realises(b.mem, r.root, levels, ImagePages(kernelSize), DirectPages(maxPhys))
      && Serves(b.mem, r.root, levels, kernelSize, maxPhys)
      && ServesKernel(b.mem, r.pml4Compat, 4, kernelSize, maxPhys)
      && (levels == 5 ==> (4, 511) in b.at)
      && r == Failed(levels).(root := b.firstPage, pml4Compat := if levels == 4 then r.root else b.at[(4, 511)])
      && r.pml4Compat != 0 && KernelHalf(b.mem, r.pml4Compat, ImagePages(kernelSize), DirectPages(maxPhys))
  {
    hide Sofar, Shape, Mapped, Tree, Addr, Low, Ceil512, Realises, Present, Zeroed, Needs, LevelIndex,
      KernelPml4, KernelHalf, Serves, ServesKernel;
    var image, gb := ImagePages(kernelSize), DirectPages(maxPhys);
    CeilGrows(levels, 512, image);
    CeilFacts(levels, image);
    var page := b.AllocPage();
    var root := page.value;
    RootTree(b.mem, root, levels);
    b.at := map[(levels, 0) := root];
    var ok := MapIdentity(b, root, levels);
    if !ok {
      return Failed(levels);
    }
    ok := MapKernel(b, root, levels, 0, 0, 512);
    if !ok {
      return Failed(levels);
    }
    ok := MapKernel(b, root, levels, 512, 256, (kernelSize + PAGE_SIZE - 1) / PAGE_SIZE);
    if !ok {
      return Failed(levels);
    }
    ok := MapDirect(b, root, levels, image, gb);
    if !ok {
      return Failed(levels);
    }
    SofarRealises(b.mem, root, levels, image, gb);
    HasPml4(b.at.Keys, levels, Ceil512(image), Ceil512(gb));
    KernelPml4Is(b.mem, b.at, root, levels);
    CompatTranslates(b.mem, b.at, root, levels, image, gb);
    RealisesServes(b.mem, root, levels, kernelSize, maxPhys);
    CompatServes(b.mem, KernelPml4(b.mem, root, levels), kernelSize, maxPhys);
    r := Failed(levels).(root := root, pml4Compat := KernelPml4(b.mem, root, levels));
  }

  lemma {:induction false} CompatServes(mem: Memory, pml4: nat, kernelSize: nat, maxPhys: nat)
    requires KernelHalf(mem, pml4, ImagePages(kernelSize), DirectPages(maxPhys))
    requires ImagePages(kernelSize) * PAGE_SIZE < 0x4000_0000
    ensures ServesKernel(mem, pml4, 4, kernelSize, maxPhys)
  {
    hide Translate, Layout, Low, ImagePages, DirectPages, ServesKernel;
    HalfServes(mem, pml4, 4, kernelSize, maxPhys);
  }

  lemma {:induction false} HasPml4(places: set<Place>, levels: nat, pts: nat, pdpts: nat)
    requires 4 <= levels <= 5 && pts > 0 && Shape(places, levels, true, pts, pdpts)
    ensures levels == 5 ==> (4, 511) in places
  {
  }

  // --------------------------------------------------------- choice of paging mode

  /** What the firmware probe and the configured policy say. */
  datatype Probe = Probe(prefersLa57: bool, supportsLa57: bool, la57Active: bool, fallback4Level: bool)

  /** Writes outside the tables leave their translation alone. */
  lemma {:induction false} WalkFrame(m: Memory, m': Memory, at: map<Place, nat>, root: nat, levels: nat, q: Place,
      w: nat)
    requires Tree(m, at, root, levels) && q in at
    requires forall k :: k in at && at[k] in m ==> at[k] in m' && m'[at[k]] == m[at[k]]
    ensures 1 <= q.0 <= 5 && Walk(m', at[q], q.0, w) == Walk(m, at[q], q.0, w)
    decreases q.0
  {
    hide Present, Huge, Addr, Frame, Linked, LevelIndex, Walk;
    assert TableOk(m, at, levels, q);
    var j := LevelIndex(w, q.0);
    assert EntryOk(m, at, q, j);
    var e := m[at[q]][j];
    if Present(e) && q.0 != 1 && !Huge(e) {
      WalkFrame(m, m', at, root, levels, Below(q, j), w);
    }
    SameEntry(m, m', at[q], q.0, w);
  }

  lemma {:induction false} StillRealises(m: Memory, m': Memory, at: map<Place, nat>, root: nat, levels: nat,
      image: nat, gb: nat)
    requires Tree(m, at, root, levels) && Realises(m, root, levels, image, gb)
    requires forall k :: k in at && at[k] in m ==> at[k] in m' && m'[at[k]] == m[at[k]]
    ensures Realises(m', root, levels, image, gb)
  {
    hide Layout, Low, Canonical, TableOk, Linked, Walk;
    forall v: nat | Canonical(v, levels)
      ensures Translate(m', root, levels, Low(v, levels)) == Layout(image, gb, v)
    {
      WalkFrame(m, m', at, root, levels, (levels, 0), Low(v, levels));
    }
  }

  /** A 4-level and a 5-level root for the same layout translate every 48-bit canonical address alike. */
  lemma {:induction false} RootsAgree(mem: Memory, root4: nat, root5: nat, image: nat, gb: nat, v: nat)
    requires Realises(mem, root4, 4, image, gb) && Realises(mem, root5, 5, image, gb) && Canonical(v, 4)
    ensures Translate(mem, root5, 5, Low(v, 5)) == Translate(mem, root4, 4, Low(v, 4)) == Layout(image, gb, v)
  {
    hide Translate, Layout, Low;
    assert Canonical(v, 5);
  }

  /** `setup_page_tables`: the chosen root, and the 5-level root to switch to when there is one. */
  method SetupPageTables(memory: Memory, kernelSize: nat, maxPhys: nat, start: nat, auxStart: nat, probe: Probe)
    returns (r: SetupResult, mem: Memory)
    requires 0 < start && start % PAGE_SIZE == 0 && start + POOL_PAGES * PAGE_SIZE <= ADDR_LIMIT
    requires 0 < auxStart && auxStart % PAGE_SIZE == 0 && auxStart + POOL_PAGES * PAGE_SIZE <= ADDR_LIMIT
    requires start + POOL_PAGES * PAGE_SIZE <= auxStart || auxStart + POOL_PAGES * PAGE_SIZE <= start
    requires kernelSize + PAGE_SIZE <= U64
    ensures r.pageLevels == if probe.prefersLa57 && probe.supportsLa57 && probe.la57Active then 5 else 4
    ensures r.vaBits == if r.pageLevels == 4 then 48 else 57
    ensures r.root != 0 <==> Needed(r.pageLevels, kernelSize, maxPhys) <= POOL_PAGES
    ensures r.directMapWindowEnd == VMALLOC_START
    ensures r.root != 0 ==>
      && r.root == start && Realises(mem, r.root, r.pageLevels, ImagePages(kernelSize), DirectPages(maxPhys))
      && KernelHalf(mem, r.pml4Compat, ImagePages(kernelSize), DirectPages(maxPhys))
      && Serves(mem, r.root, r.pageLevels, kernelSize, maxPhys)
      && ServesKernel(mem, r.pml4Compat, 4, kernelSize, maxPhys)
    ensures r.root == 0 ==> r.pml4Compat == 0
    ensures r.transitionRoot == 0 ==> r.transitionPml4 == r.fallbackRoot == 0
    ensures r.transitionRoot != 0 <==>
      && probe.prefersLa57 && probe.supportsLa57 && !probe.la57Active && probe.fallback4Level
      && Needed(5, kernelSize, maxPhys) <= POOL_PAGES && auxStart < 0x1_0000_0000
    ensures r.transitionRoot != 0 ==>
      && r.fallbackRoot == r.root != 0 && r.transitionRoot == auxStart && r.transitionPml4 != 0
      && KernelHalf(mem, r.transitionPml4, ImagePages(kernelSize), DirectPages(maxPhys))
      && Realises(mem, r.transitionRoot, 5, ImagePages(kernelSize), DirectPages(maxPhys))
      && Serves(mem, r.transitionRoot, 5, kernelSize, maxPhys)
      && ServesKernel(mem, r.transitionPml4, 4, kernelSize, maxPhys)
      && forall v: nat :: Canonical(v, 4) ==>
        Translate(mem, r.transitionRoot, 5, Low(v, 5)) == Translate(mem, r.root, 4, Low(v, 4))
  {
    hide Realises, Tree, Needed, ImagePages, DirectPages, Canonical, Low, Translate, KernelHalf, Serves, ServesKernel;
    var b := new Builder(memory, start, POOL_PAGES);
    if probe.prefersLa57 && probe.supportsLa57 && probe.la57Active {
      r := SetupNLevel(b, kernelSize, maxPhys, 5);
      return r, b.mem;
    }
    r := SetupNLevel(b, kernelSize, maxPhys, 4);
    FewerLevelsFit(kernelSize, maxPhys);
    if !(probe.prefersLa57 && probe.supportsLa57 && probe.fallback4Level) || r.root == 0 {
      return r, b.mem;
    }
    var b5 := new Builder(b.mem, auxStart, POOL_PAGES);
    var plan5 := SetupNLevel(b5, kernelSize, maxPhys, 5);
    mem := b5.mem;
    ghost var image, gb := ImagePages(kernelSize), DirectPages(maxPhys);
    StillRealises(b.mem, mem, b.at, r.root, 4, image, gb);
    RootIsCompat(mem, r.root, image, gb);
    ImageFits(kernelSize, maxPhys);
    RealisesServes(mem, r.root, 4, kernelSize, maxPhys);
    CompatServes(mem, r.root, kernelSize, maxPhys);
    if plan5.root == 0 || plan5.pml4Compat == 0 || plan5.root >= 0x1_0000_0000 || auxStart >= 0x1_0000_0000 {
      return;
    }
    forall v: nat | Canonical(v, 4)
      ensures Translate(mem, plan5.root, 5, Low(v, 5)) == Translate(mem, r.root, 4, Low(v, 4))
    {
      RootsAgree(mem, r.root, plan5.root, image, gb, v);
    }
    r := r.(transitionRoot := plan5.root, transitionPml4 := plan5.pml4Compat, fallbackRoot := r.root);
  }

  lemma {:induction false} ImageFits(kernelSize: nat, maxPhys: nat)
    requires Needed(4, kernelSize, maxPhys) <= POOL_PAGES
    ensures ImagePages(kernelSize) * PAGE_SIZE < 0x4000_0000
  {
    CeilFacts(4, ImagePages(kernelSize));
  }

  lemma {:induction false} RootIsCompat(mem: Memory, root: nat, image: nat, gb: nat)
    requires Realises(mem, root, 4, image, gb)
    ensures KernelHalf(mem, root, image, gb)
  {
    hide Translate, Layout, Low;
    forall v: nat | U64 - Span(5) / 2 <= v < U64 ensures Translate(mem, root, 4, Low(v, 4)) == Layout(image, gb, v) {
      assert Canonical(v, 4);
    }
  }

  lemma {:induction false} FewerLevelsFit(kernelSize: nat, maxPhys: nat)
    ensures Needed(4, kernelSize, maxPhys) <= Needed(5, kernelSize, maxPhys)
  {
  }
}
