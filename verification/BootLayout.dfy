/** The address-space layout the boot tables must realise, and the tables it takes. */
module BootLayout {
  import opened Common
  import opened PageTables
  import opened BootPaging

  const KERNEL_VIRT_ADDR: nat := 0xFFFF_FFFF_8010_0000
  const KERNEL_PHYS_ADDR: nat := 0x10_0000
  const KERNEL_WINDOW: nat := 0xFFFF_FFFF_8000_0000
  const DIRECT_MAP_OFFSET: nat := 0xFFFF_8800_0000_0000
  const VMALLOC_START: nat := 0xFFFF_C900_0000_0000
  const POOL_PAGES: nat := 256
  const U64: nat := 0x1_0000_0000_0000_0000

  /** Pages of the kernel window: the 2 MiB bootstrap window and the image from 1 MiB on, overlapping. */
  function ImagePages(kernelSize: nat): nat {
    Max(512, 256 + (kernelSize + PAGE_SIZE - 1) / PAGE_SIZE)
  }

  /** 1 GiB pages of the direct map. */
  function DirectPages(maxPhys: nat): (gb: nat)
    ensures 4 <= gb <= 66560
  {
    (Min(Max(maxPhys, 4 * ONE_GIB), VMALLOC_START - DIRECT_MAP_OFFSET) + ONE_GIB - 1) / ONE_GIB
  }

  /** What a 64-bit address means in the finished address space. */
  ghost function Layout(image: nat, gb: nat, v: nat): Option<nat> {
    if v < 4 * ONE_GIB then Some(v)
    else if KERNEL_WINDOW <= v < KERNEL_WINDOW + image * PAGE_SIZE then Some(v - KERNEL_WINDOW)
    else if DIRECT_MAP_OFFSET <= v < DIRECT_MAP_OFFSET + gb * ONE_GIB then Some(v - DIRECT_MAP_OFFSET)
    else None
  }

  /** Bits 47 (or 56) to 63 are equal. */
  ghost predicate Canonical(v: nat, levels: nat)
    requires 4 <= levels <= 5
  {
    v < U64 && (v < Span(levels + 1) / 2 || v >= U64 - Span(levels + 1) / 2)
  }

  ghost predicate Realises(mem: Memory, root: nat, levels: nat, image: nat, gb: nat) {
    && 4 <= levels <= 5
    && forall v: nat :: Canonical(v, levels) ==> Translate(mem, root, levels, Low(v, levels)) == Layout(image, gb, v)
  }

  // ---------------------------------------------- what the address space is good for

  /** Where a 64-bit address goes. */
  ghost function At(mem: Memory, root: nat, levels: nat, v: nat): Option<nat>
    requires 4 <= levels <= 5
  {
    Translate(mem, root, levels, Low(v, levels))
  }

  /** The bootstrap window, and the pages that hold a byte of the kernel. */
  ghost predicate KernelRange(kernelSize: nat, v: nat) {
    || KERNEL_WINDOW <= v < KERNEL_WINDOW + 0x20_0000
    || KERNEL_VIRT_ADDR <= v - v % PAGE_SIZE < KERNEL_VIRT_ADDR + kernelSize
  }

  /** The gigabytes that start below the end of memory, or below 4 GiB. */
  ghost predicate DirectRange(maxPhys: nat, v: nat) {
    && DIRECT_MAP_OFFSET <= v < VMALLOC_START
    && (v - DIRECT_MAP_OFFSET) / ONE_GIB * ONE_GIB < Max(maxPhys, 4 * ONE_GIB)
  }

  /** The kernel's half: image, bootstrap window, all memory that fits the direct map, and nothing else. */
  ghost predicate ServesKernel(mem: Memory, root: nat, levels: nat, kernelSize: nat, maxPhys: nat)
    requires 4 <= levels <= 5
  {
    && (forall v: nat :: KERNEL_VIRT_ADDR <= v < KERNEL_VIRT_ADDR + kernelSize ==>
          At(mem, root, levels, v) == Some(v - KERNEL_VIRT_ADDR + KERNEL_PHYS_ADDR))
    && (forall v: nat :: KERNEL_WINDOW <= v < KERNEL_WINDOW + 0x20_0000 ==>
          At(mem, root, levels, v) == Some(v - KERNEL_WINDOW))
    && (forall v: nat :: DIRECT_MAP_OFFSET <= v < VMALLOC_START && v - DIRECT_MAP_OFFSET < Max(maxPhys, 4 * ONE_GIB) ==>
          At(mem, root, levels, v) == Some(v - DIRECT_MAP_OFFSET))
    && (forall v: nat :: U64 - Span(5) / 2 <= v < U64 && At(mem, root, levels, v).Some? ==>
          KernelRange(kernelSize, v) || DirectRange(maxPhys, v))
  }

  /** The whole address space: the kernel's half, the low 4 GiB at themselves, and nothing else. */
  ghost predicate Serves(mem: Memory, root: nat, levels: nat, kernelSize: nat, maxPhys: nat)
    requires 4 <= levels <= 5
  {
    && ServesKernel(mem, root, levels, kernelSize, maxPhys)
    && (forall v: nat :: v < 4 * ONE_GIB ==> At(mem, root, levels, v) == Some(v))
    && (forall v: nat :: Canonical(v, levels) && At(mem, root, levels, v).Some? ==>
          v < 4 * ONE_GIB || KernelRange(kernelSize, v) || DirectRange(maxPhys, v))
  }

  /** The page counts reach to the last byte and not a page further. */
  lemma {:induction false} PagesCover(kernelSize: nat, maxPhys: nat)
    ensures 0x10_0000 + kernelSize <= ImagePages(kernelSize) * PAGE_SIZE && 512 <= ImagePages(kernelSize)
    ensures ImagePages(kernelSize) > 512 ==> ImagePages(kernelSize) * PAGE_SIZE < 0x10_0000 + kernelSize + PAGE_SIZE
    ensures Min(Max(maxPhys, 4 * ONE_GIB), VMALLOC_START - DIRECT_MAP_OFFSET) <= DirectPages(maxPhys) * ONE_GIB
    ensures DirectPages(maxPhys) * ONE_GIB <= VMALLOC_START - DIRECT_MAP_OFFSET
    ensures DirectPages(maxPhys) * ONE_GIB < Max(maxPhys, 4 * ONE_GIB) + ONE_GIB
  {
  }

  /** The layout, address by address. */
  lemma {:induction false} LayoutMeans(kernelSize: nat, maxPhys: nat, v: nat)
    requires ImagePages(kernelSize) * PAGE_SIZE < 0x4000_0000 && v < U64
    ensures var r := Layout(ImagePages(kernelSize), DirectPages(maxPhys), v);
      && (v < 4 * ONE_GIB ==> r == Some(v))
      && (KERNEL_WINDOW <= v < KERNEL_WINDOW + 0x20_0000 ==> r == Some(v - KERNEL_WINDOW))
      && (KERNEL_VIRT_ADDR <= v < KERNEL_VIRT_ADDR + kernelSize ==> r == Some(v - KERNEL_VIRT_ADDR + KERNEL_PHYS_ADDR))
      && (DIRECT_MAP_OFFSET <= v < VMALLOC_START && v - DIRECT_MAP_OFFSET < Max(maxPhys, 4 * ONE_GIB) ==>
          r == Some(v - DIRECT_MAP_OFFSET))
      && (r.Some? ==> v < 4 * ONE_GIB || KernelRange(kernelSize, v) || DirectRange(maxPhys, v))
  {
    hide ImagePages, DirectPages;
    PagesCover(kernelSize, maxPhys);
    assert v - v % PAGE_SIZE == v / PAGE_SIZE * PAGE_SIZE;
    assert KERNEL_WINDOW == 0xF_FFFF_FFF8_0000 * PAGE_SIZE;
  }

  lemma {:induction false} HalfServes(mem: Memory, root: nat, levels: nat, kernelSize: nat, maxPhys: nat)
    requires 4 <= levels <= 5 && ImagePages(kernelSize) * PAGE_SIZE < 0x4000_0000
    requires forall v: nat :: U64 - Span(5) / 2 <= v < U64 ==>
      At(mem, root, levels, v) == Layout(ImagePages(kernelSize), DirectPages(maxPhys), v)
    ensures ServesKernel(mem, root, levels, kernelSize, maxPhys)
  {
    hide At, Layout, ImagePages, DirectPages, KernelRange, DirectRange;
    PagesCover(kernelSize, maxPhys);
    forall v: nat | KERNEL_VIRT_ADDR <= v < KERNEL_VIRT_ADDR + kernelSize
      ensures At(mem, root, levels, v) == Some(v - KERNEL_VIRT_ADDR + KERNEL_PHYS_ADDR)
    {
      LayoutMeans(kernelSize, maxPhys, v);
    }
    forall v: nat | KERNEL_WINDOW <= v < KERNEL_WINDOW + 0x20_0000
      ensures At(mem, root, levels, v) == Some(v - KERNEL_WINDOW)
    {
      LayoutMeans(kernelSize, maxPhys, v);
    }
    forall v: nat | DIRECT_MAP_OFFSET <= v < VMALLOC_START && v - DIRECT_MAP_OFFSET < Max(maxPhys, 4 * ONE_GIB)
      ensures At(mem, root, levels, v) == Some(v - DIRECT_MAP_OFFSET)
    {
      LayoutMeans(kernelSize, maxPhys, v);
    }
    forall v: nat | U64 - Span(5) / 2 <= v < U64 && At(mem, root, levels, v).Some?
      ensures KernelRange(kernelSize, v) || DirectRange(maxPhys, v)
    {
      LayoutMeans(kernelSize, maxPhys, v);
    }
  }

  lemma {:induction false} RealisesServes(mem: Memory, root: nat, levels: nat, kernelSize: nat, maxPhys: nat)
    requires Realises(mem, root, levels, ImagePages(kernelSize), DirectPages(maxPhys))
    requires ImagePages(kernelSize) * PAGE_SIZE < 0x4000_0000
    ensures Serves(mem, root, levels, kernelSize, maxPhys)
  {
    hide Translate, Layout, Low, ImagePages, DirectPages, KernelRange, DirectRange;
    forall v: nat | U64 - Span(5) / 2 <= v < U64
      ensures At(mem, root, levels, v) == Layout(ImagePages(kernelSize), DirectPages(maxPhys), v)
    {
      assert Canonical(v, levels);
    }
    HalfServes(mem, root, levels, kernelSize, maxPhys);
    forall v: nat | v < 4 * ONE_GIB ensures At(mem, root, levels, v) == Some(v) {
      assert Canonical(v, levels);
      LayoutMeans(kernelSize, maxPhys, v);
    }
    forall v: nat | Canonical(v, levels) && At(mem, root, levels, v).Some?
      ensures v < 4 * ONE_GIB || KernelRange(kernelSize, v) || DirectRange(maxPhys, v)
    {
      LayoutMeans(kernelSize, maxPhys, v);
    }
  }

  // ------------------------------------------------- the layout on low address bits

  function KernelLow(levels: nat): nat { if levels == 4 then 0xFFFF_8000_0000 else 0x1FF_FFFF_8000_0000 }

  function DirectLow(levels: nat): nat { if levels == 4 then 0x8800_0000_0000 else 0x1FF_8800_0000_0000 }

  /** The mappings made so far: `low` identity gigabytes, `image` kernel pages and `gb` direct-map gigabytes. */
  ghost function Expected(levels: nat, low: nat, image: nat, gb: nat, w: nat): Option<nat> {
    if w < low * ONE_GIB then Some(w)
    else if KernelLow(levels) <= w < KernelLow(levels) + image * PAGE_SIZE then Some(w - KernelLow(levels))
    else if DirectLow(levels) <= w < DirectLow(levels) + gb * ONE_GIB then Some(w - DirectLow(levels))
    else None
  }

  ghost predicate Sofar(mem: Memory, root: nat, levels: nat, low: nat, image: nat, gb: nat)
    requires 4 <= levels <= 5
  {
    forall x: nat :: InReach(x, levels) ==> Translate(mem, root, levels, x) == Expected(levels, low, image, gb, x)
  }

  lemma {:induction false} LowParts(levels: nat, o: nat)
    requires 4 <= levels <= 5
    ensures o < 0x8000_0000 ==> Low(KERNEL_WINDOW + o, levels) == KernelLow(levels) + o
    ensures o < 66560 * ONE_GIB ==> Low(DIRECT_MAP_OFFSET + o, levels) == DirectLow(levels) + o
    ensures o < 4 * ONE_GIB ==> Low(o, levels) == o
  {
  }

  lemma {:induction false} LowLayout(levels: nat, image: nat, gb: nat, v: nat)
    requires 4 <= levels <= 5 && image * PAGE_SIZE < 0x8000_0000 && gb <= 66560 && Canonical(v, levels)
    ensures Expected(levels, 4, image, gb, Low(v, levels)) == Layout(image, gb, v)
  {
    hide Layout, Expected;
    HalfOfSpace(levels, v);
    SameOffset(levels, image, gb, v, Low(v, levels));
  }

  /** A canonical address lies in the lower half or mirrors its low bits in the upper half. */
  lemma {:induction false} HalfOfSpace(levels: nat, v: nat)
    requires 4 <= levels <= 5 && Canonical(v, levels)
    ensures Low(v, levels) == if v < Span(levels + 1) / 2 then v else v - (U64 - Span(levels + 1))
  {
    if v >= Span(levels + 1) / 2 {
      var w := v - (U64 - Span(levels + 1));
      if levels == 4 { assert v == 0xFFFF * Span(5) + w; } else { assert v == 0x7F * Span(6) + w; }
    }
  }

  lemma {:induction false} SameOffset(levels: nat, image: nat, gb: nat, v: nat, w: nat)
    requires 4 <= levels <= 5 && image * PAGE_SIZE < 0x8000_0000 && gb <= 66560 && Canonical(v, levels)
    requires w == if v < Span(levels + 1) / 2 then v else v - (U64 - Span(levels + 1))
    ensures Expected(levels, 4, image, gb, w) == Layout(image, gb, v)
  {
  }

  lemma {:induction false} SofarRealises(mem: Memory, root: nat, levels: nat, image: nat, gb: nat)
    requires 4 <= levels <= 5 && image * PAGE_SIZE < 0x8000_0000 && gb <= 66560
    requires Sofar(mem, root, levels, 4, image, gb)
    ensures Realises(mem, root, levels, image, gb)
  {
    hide Translate, Expected, Layout, Low, Canonical;
    forall v: nat | Canonical(v, levels)
      ensures Translate(mem, root, levels, Low(v, levels)) == Layout(image, gb, v)
    {
      LowLayout(levels, image, gb, v);
    }
  }

  // ------------------------------------------------------------ one more mapping

  lemma {:induction false} MoreLow(m: Memory, m': Memory, root: nat, levels: nat, i: nat)
    requires 4 <= levels <= 5 && i < 4 && Sofar(m, root, levels, i, 0, 0)
    requires Mapped(m, m', root, levels, 3, i * ONE_GIB, i * ONE_GIB)
    ensures Sofar(m', root, levels, i + 1, 0, 0)
  {
    hide Translate;
  }

  lemma {:induction false} MoreKernel(m: Memory, m': Memory, root: nat, levels: nat, n: nat, j: nat)
    requires 4 <= levels <= 5 && j <= n && n * PAGE_SIZE < 0x4000_0000 && Sofar(m, root, levels, 4, n, 0)
    requires Mapped(m, m', root, levels, 1, KernelLow(levels) + j * PAGE_SIZE, j * PAGE_SIZE)
    ensures Sofar(m', root, levels, 4, Max(n, j + 1), 0)
  {
    hide Translate, Expected, Slot, Span;
    var w := KernelLow(levels) + j * PAGE_SIZE;
    forall x: nat | InReach(x, levels)
      ensures Translate(m', root, levels, x) == Expected(levels, 4, Max(n, j + 1), 0, x)
    {
      KernelPage(levels, n, j, x);
    }
  }

  lemma {:induction false} KernelPage(levels: nat, n: nat, j: nat, x: nat)
    requires 4 <= levels <= 5 && j <= n && n * PAGE_SIZE < 0x4000_0000
    ensures Slot(x, 1) == Slot(KernelLow(levels) + j * PAGE_SIZE, 1) <==>
      KernelLow(levels) + j * PAGE_SIZE <= x < KernelLow(levels) + (j + 1) * PAGE_SIZE
    ensures Expected(levels, 4, Max(n, j + 1), 0, x) ==
      if Slot(x, 1) == Slot(KernelLow(levels) + j * PAGE_SIZE, 1) then Some(j * PAGE_SIZE + x % PAGE_SIZE)
      else Expected(levels, 4, n, 0, x)
    ensures Span(1) == PAGE_SIZE
  {
  }

  lemma {:induction false} MoreDirect(m: Memory, m': Memory, root: nat, levels: nat, image: nat, i: nat)
    requires 4 <= levels <= 5 && i < 66560 && image * PAGE_SIZE < 0x4000_0000 && Sofar(m, root, levels, 4, image, i)
    requires Mapped(m, m', root, levels, 3, DirectLow(levels) + i * ONE_GIB, i * ONE_GIB)
    ensures Sofar(m', root, levels, 4, image, i + 1)
  {
    hide Translate;
  }
}
