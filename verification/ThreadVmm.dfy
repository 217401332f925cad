/** The address space of a new thread: init_thread_vmm of src/kernel/scheduler/thread.c, with
    map_kernel_entries of src/kernel/mem/pmm.c, and map_heap and heap_add of src/kernel/mem/heap.c.  Two
    page-table trees live in one memory here: the kernel's, which is only read, and the thread's, being
    built. */
module ThreadVmm {
  import opened Bits
  import opened KernelH
  import opened PageTree
  import opened Pmm
  import opened Options
  import Draw
  import Mmu
  import Vmm
  import Frames
  import BlockIds
  import BlockBitmap

  /** A heap region: where its block bitmap starts, just after its header, and how long it is. */
  datatype Region = Region(bm: nat, size: nat)

  const HEAP_HEADER: nat := 48

  // ---- Two trees in one memory ----------------------------------------------------------------

  /** The kernel's address space in the memory of a. */
  ghost function KernelIn(a: Sys, kernel: Tree): Sys { a.(tree := kernel) }

  /** Extending one tree leaves another tree's tables and leaves alone. */
  lemma OtherKept(a: Sys, b: Sys, slots: set<Slot>, over: map<nat, nat>, other: Tree)
    requires Valid(a) && Extends(a, b, slots, over)
    requires Valid(KernelIn(a, other)) && other.Values !! Tables(a)
    ensures Valid(KernelIn(b, other)) && other.Values !! Tables(b)
    ensures forall q: nat :: Leaf(KernelIn(b, other), q) == Leaf(KernelIn(a, other), q)
  {
    forall s | s in other ensures other[s] !in Tables(b) && other[s] !in b.free {
      assert other[s] in other.Values;
    }
    SameWords(a, b, other);
  }

  lemma SameWords(a: Sys, b: Sys, other: Tree)
    requires Untouched(a, b) && b.limit == a.limit && b.link == a.link && b.free <= a.free
    requires Valid(KernelIn(a, other)) && forall s :: s in other ==> other[s] !in Tables(b)
    ensures Valid(KernelIn(b, other))
    ensures forall q: nat :: Leaf(KernelIn(b, other), q) == Leaf(KernelIn(a, other), q)
  {
    assert forall s, i: nat :: s in other ==> Entry(b.mem, other[s], i) == Entry(a.mem, other[s], i);
  }

  /** A stage of building the thread's space: n frames to spare, tables linked for user code and for
      writing, and the kernel's space as it was in k. */
  ghost predicate Stage(a: Sys, k: Sys, u: set<Slot>, n: nat) {
    && Valid(a) && Vmm.EnoughFor(a, u, n) && a.free <= k.free && a.limit == k.limit
    && a.link == USER_PT_ENTRY && Mmu.Linking(a, true)
    && Valid(KernelIn(a, k.tree)) && k.tree.Values !! Tables(a)
    && forall q: nat :: Leaf(KernelIn(a, k.tree), q) == Leaf(k, q)
  }

  /** What happened to the leaves between two stages: pages numbered like no free frame lead where `over`
      says or where they did; of the others, those not mapped lead where they did or to themselves. */
  ghost predicate Maps(a: Sys, b: Sys, over: map<nat, nat>) {
    && b.free <= a.free
    && (forall q: nat {:trigger Leaf(b, q)} :: q < PAGES && q !in a.free ==>
          Leaf(b, q) == if q in over then over[q] else Leaf(a, q))
    && (forall q: nat {:trigger Leaf(b, q)} :: q < PAGES && q in a.free && q !in over ==>
          Leaf(b, q) == Leaf(a, q) || Leaf(b, q) == q * PAGE_SIZE + KERNEL_PT_ENTRY)
  }

  lemma ExtendsMaps(a: Sys, b: Sys, slots: set<Slot>, over: map<nat, nat>)
    requires Extends(a, b, slots, over)
    ensures Maps(a, b, over)
  {}

  lemma MapsTrans(a: Sys, b: Sys, c: Sys, o1: map<nat, nat>, o2: map<nat, nat>)
    requires Maps(a, b, o1) && Maps(b, c, o2)
    ensures Maps(a, c, o1 + o2)
  {
    hide Leaf;
    forall q: nat {:trigger Leaf(c, q)} | q < PAGES && q !in a.free
      ensures Leaf(c, q) == if q in o1 + o2 then (o1 + o2)[q] else Leaf(a, q)
    {
      assert Leaf(b, q) == if q in o1 then o1[q] else Leaf(a, q);
    }
    forall q: nat {:trigger Leaf(c, q)} | q < PAGES && q in a.free && q !in o1 + o2
      ensures Leaf(c, q) == Leaf(a, q) || Leaf(c, q) == q * PAGE_SIZE + KERNEL_PT_ENTRY
    {
      assert Leaf(b, q) == Leaf(a, q) || Leaf(b, q) == q * PAGE_SIZE + KERNEL_PT_ENTRY;
    }
  }

  lemma MapsSelf(a: Sys)
    ensures Maps(a, a, map[])
  {}

  lemma StageStep(a: Sys, b: Sys, slots: set<Slot>, over: map<nat, nat>, k: Sys, u: set<Slot>, n: nat)
    requires Stage(a, k, u, n) && Extends(a, b, slots, over) && slots <= u
    ensures Stage(b, k, u, n) && Maps(a, b, over)
  {
    StageIs(a, k, u, n);
    hide *;
    ExtendsMaps(a, b, slots, over);
    OtherKept(a, b, slots, over, k.tree);
    Draw.ExtendsIs(a, b, slots, over);
    Vmm.EnoughForKept(a, b, slots, u, n);
    Vmm.UserBits();
    Mmu.LinkingKept(a, b, slots, over, true);
    GrowsSame(a, b, slots);
    MakeStage(a, b, k, u, n);
  }

  lemma StageIs(a: Sys, k: Sys, u: set<Slot>, n: nat)
    requires Stage(a, k, u, n)
    ensures Valid(a) && Vmm.EnoughFor(a, u, n) && a.free <= k.free && a.link == USER_PT_ENTRY && Mmu.Linking(a, true)
    ensures Valid(KernelIn(a, k.tree)) && k.tree.Values !! Tables(a) && a.limit == k.limit
    ensures forall q: nat :: Leaf(KernelIn(a, k.tree), q) == Leaf(k, q)
  {
    hide Valid, Vmm.EnoughFor, Mmu.Linking, Leaf, KernelIn, Tables;
  }

  lemma GrowsSame(a: Sys, b: Sys, slots: set<Slot>)
    requires Grows(a, b, slots)
    ensures b.free <= a.free && b.link == a.link && b.limit == a.limit
  {}

  /** A later state in which the kernel's space looks as it did. */
  lemma MakeStage(a: Sys, b: Sys, k: Sys, u: set<Slot>, n: nat)
    requires a.free <= k.free && b.free <= a.free && b.link == a.link == USER_PT_ENTRY && b.limit == a.limit == k.limit
    requires Valid(b) && Vmm.EnoughFor(b, u, n) && Mmu.Linking(b, true)
    requires Valid(KernelIn(b, k.tree)) && k.tree.Values !! Tables(b)
    requires forall q: nat :: Leaf(KernelIn(a, k.tree), q) == Leaf(k, q)
    requires forall q: nat :: Leaf(KernelIn(b, k.tree), q) == Leaf(KernelIn(a, k.tree), q)
    ensures Stage(b, k, u, n)
  {
    hide Valid, Vmm.EnoughFor, Mmu.Linking, Leaf, KernelIn, Tables;
    forall q: nat ensures Leaf(KernelIn(b, k.tree), q) == Leaf(k, q) {
      assert Leaf(KernelIn(b, k.tree), q) == Leaf(KernelIn(a, k.tree), q);
    }
  }

  /** A fresh root table. */
  lemma StageRoot(k: Sys, b: Sys, f: nat, u: set<Slot>, n: nat)
    requires Valid(k) && Paths(k.free) <= u && |u| + n + 1 <= |k.free| && f in k.free && k.link == USER_PT_ENTRY
    requires b == k.(mem := b.mem, free := k.free - {f}, tree := map[ROOT := f])
    requires forall g: nat, i: nat :: Entry(b.mem, g, i) == if g == f && i < 512 then 0 else Entry(k.mem, g, i)
    ensures Stage(b, k, u, n)
    ensures forall q: nat :: Leaf(b, q) == 0
  {
    RootValid(k, b, f);
    RootEnough(k, b, f, u, n);
    SameWords(k, KernelIn(b, map[ROOT := f]), k.tree) by {
      assert forall s :: s in k.tree ==> k.tree[s] != f;
    }
    assert KernelIn(k, k.tree) == k;
    assert Mmu.Linking(b, true);
    hide Valid, Leaf, Vmm.EnoughFor, Mmu.Linking;
    assert k.tree.Values !! Tables(b);
  }

  lemma RootValid(k: Sys, b: Sys, f: nat)
    requires Valid(k) && f in k.free
    requires b == k.(mem := b.mem, free := k.free - {f}, tree := map[ROOT := f])
    requires forall i: nat :: i < 512 ==> Entry(b.mem, f, i) == 0
    ensures Valid(b) && forall q: nat :: Leaf(b, q) == 0
    ensures Tables(b) == {f}
  {
    assert b.tree.Values == {f};
  }

  lemma RootEnough(k: Sys, b: Sys, f: nat, u: set<Slot>, n: nat)
    requires Paths(k.free) <= u && |u| + n + 1 <= |k.free| && f in k.free && b.free == k.free - {f}
    ensures Vmm.EnoughFor(b, u, n)
  {
    PathsSplit(k.free, b.free, {f});
    Subset(u - b.tree.Keys, u);
  }

  // ---- What is to be mapped -----------------------------------------------------------------------

  /** A range as the loader records it: a nonzero, non-wrapping range of virtual pages, whose tables
      are provided for and which are not numbered like free frames. */
  ghost predicate RangeFits(physical: nat, virtual: nat, n: nat, k: Sys, u: set<Slot>) {
    && 0 < physical && physical + n * PAGE_SIZE <= 0x10_0000_0000_0000
    && 0 < virtual < TWO_64 && virtual + n * PAGE_SIZE <= TWO_64 && Page(virtual) + n <= PAGES
    && Paths(Pages(Page(virtual), n)) <= u && Pages(Page(virtual), n) !! k.free
  }

  ghost predicate EntryFits(e: KernelEntry, k: Sys, u: set<Slot>) {
    RangeFits(e.paddr, e.vaddr, e.numPages, k, u)
  }

  /** The pages of the first n entries of the kernel image. */
  ghost function ImagePages(ke: seq<KernelEntry>, n: nat): (r: set<nat>)
    requires n <= |ke|
  {
    if n == 0 then {} else ImagePages(ke, n - 1) + EntryPages(ke[n - 1])
  }

  /** Their entries: later ones win. */
  ghost function ImageMap(ke: seq<KernelEntry>, n: nat): (r: map<nat, nat>)
    requires n <= |ke|
    ensures r.Keys == ImagePages(ke, n)
  {
    if n == 0 then map[]
    else ImageMap(ke, n - 1) + RangeMap(Page(ke[n - 1].vaddr), ke[n - 1].numPages, AlignAddr(ke[n - 1].paddr), 7)
  }

  // ---- The steps ----------------------------------------------------------------------------------

  /** The thread's space is under construction with root table p4. */
  ghost predicate Builds(kmem: Kmem, p4: nat, tree: Tree, k: Sys, u: set<Slot>, n: nat)
    reads kmem, kmem.bitmap
  {
    kmem.Valid() && Stage(kmem.System(tree), k, u, n) && ROOT in tree && p4 == tree[ROOT] * PAGE_SIZE
  }

  lemma BuildsReady(kmem: Kmem, p4: nat, tree: Tree, k: Sys, u: set<Slot>, n: nat)
    requires Builds(kmem, p4, tree, k, u, n)
    ensures kmem.Valid() && Stage(kmem.System(tree), k, u, n)
    ensures p4 % PAGE_SIZE == 0 && kmem.Space(p4, tree) && Enough(kmem.System(tree), u)
    ensures ROOT in tree && p4 == tree[ROOT] * PAGE_SIZE
    ensures kmem.free <= k.free
  {
    hide *;
    BuildsIs(kmem, p4, tree, k, u, n);
    StageIs(kmem.System(tree), k, u, n);
    EnoughIs(kmem.System(tree), u, n);
    SystemIs(kmem, tree);
    SpaceOf(kmem, p4, tree);
  }

  lemma BuildsIs(kmem: Kmem, p4: nat, tree: Tree, k: Sys, u: set<Slot>, n: nat)
    requires Builds(kmem, p4, tree, k, u, n)
    ensures kmem.Valid() && Stage(kmem.System(tree), k, u, n) && ROOT in tree && p4 == tree[ROOT] * PAGE_SIZE
  {
    hide Stage, Kmem.Valid;
  }

  lemma EnoughIs(a: Sys, u: set<Slot>, n: nat)
    requires Vmm.EnoughFor(a, u, n)
    ensures Enough(a, u)
  {
    hide Paths;
  }

  lemma SpaceOf(kmem: Kmem, p4: nat, tree: Tree)
    requires Valid(kmem.System(tree)) && ROOT in tree && p4 == tree[ROOT] * PAGE_SIZE
    ensures kmem.Space(p4, tree) && p4 % PAGE_SIZE == 0
  {
    hide PageTree.Valid;
  }

  lemma ReadyBuilds(kmem: Kmem, p4: nat, tree: Tree, k: Sys, u: set<Slot>, n: nat)
    requires kmem.Valid() && Stage(kmem.System(tree), k, u, n) && kmem.Space(p4, tree)
    ensures Builds(kmem, p4, tree, k, u, n)
  {
    hide Stage, Valid, Enough, Kmem.Valid;
  }

  lemma SystemIs(kmem: Kmem, tree: Tree)
    ensures kmem.System(tree) == Sys(kmem.mem, kmem.free, tree, kmem.memPages, USER_PT_ENTRY)
  {}

  /** map_addr on the thread's tree. */
  method MapAddr(kmem: Kmem, physical: nat, virtual: nat, flags: nat, p4: nat, ghost tree: Tree,
                 ghost k: Sys, ghost u: set<Slot>, ghost n: nat)
    returns (ghost tree': Tree)
    requires Builds(kmem, p4, tree, k, u, n) && physical < TWO_64 && virtual < TWO_64
    requires physical != 0 && virtual != 0 ==> Path(Page(virtual)) <= u
    modifies kmem`mem, kmem`free, kmem.bitmap
    ensures Builds(kmem, p4, tree', k, u, n)
    ensures Maps(old(kmem.System(tree)), kmem.System(tree'),
                 if physical == 0 || virtual == 0 then map[] else map[Page(virtual) := Or(AlignAddr(physical), flags)])
  {
    hide *;
    ghost var a := kmem.System(tree);
    SystemIs(kmem, tree);
    BuildsReady(kmem, p4, tree, k, u, n);
    ghost var depth;
    if physical != 0 && virtual != 0 { PathReady(kmem, p4, tree, Path(Page(virtual)), u); }
    tree', depth := kmem.MapAddr(physical, virtual, flags, p4, tree);
    SystemIs(kmem, tree');
    if physical == 0 || virtual == 0 {
      MapsSelf(a);
    } else {
      StageStep(a, kmem.System(tree'), Path(Page(virtual)), map[Page(virtual) := Or(AlignAddr(physical), flags)],
                k, u, n);
    }
    ReadyBuilds(kmem, p4, tree', k, u, n);
  }

  lemma PathReady(kmem: Kmem, p4: nat, tree: Tree, slots: set<Slot>, u: set<Slot>)
    requires kmem.Space(p4, tree) && Enough(kmem.System(tree), u) && slots <= u
    ensures kmem.Ready(p4, tree, slots)
  {
    Draw.EnoughSupplies(kmem.System(tree), slots, u);
    hide PageTree.Valid, Draw.Supplied;
  }

  /** map_range on the thread's tree. */
  method MapRange(kmem: Kmem, physical: nat, virtual: nat, numPages: nat, flags: nat, p4: nat, ghost tree: Tree,
                  ghost k: Sys, ghost u: set<Slot>, ghost n: nat)
    returns (ghost tree': Tree)
    requires Builds(kmem, p4, tree, k, u, n) && RangeFits(physical, virtual, numPages, k, u)
    modifies kmem`mem, kmem`free, kmem.bitmap
    ensures Builds(kmem, p4, tree', k, u, n)
    ensures Maps(old(kmem.System(tree)), kmem.System(tree'),
                 RangeMap(Page(virtual), numPages, AlignAddr(physical), flags))
    ensures old(kmem.free) - kmem.free == Taken(old(kmem.System(tree)), kmem.System(tree'))
  {
    hide *;
    ghost var a := kmem.System(tree);
    SystemIs(kmem, tree);
    BuildsReady(kmem, p4, tree, k, u, n);
    FitsReady(kmem, physical, virtual, numPages, p4, tree, k, u);
    tree' := kmem.MapRange(physical, virtual, numPages, flags, p4, tree);
    FramesGone(a, kmem.System(tree'), Paths(Pages(Page(virtual), numPages)),
               RangeMap(Page(virtual), numPages, AlignAddr(physical), flags));
    SystemIs(kmem, tree');
    StageStep(a, kmem.System(tree'), Paths(Pages(Page(virtual), numPages)),
              RangeMap(Page(virtual), numPages, AlignAddr(physical), flags), k, u, n);
    ReadyBuilds(kmem, p4, tree', k, u, n);
  }

  lemma FramesGone(a: Sys, b: Sys, slots: set<Slot>, over: map<nat, nat>)
    requires Extends(a, b, slots, over)
    ensures a.free - b.free == Taken(a, b)
  {
    Draw.ExtendsIs(a, b, slots, over);
    hide Extends, Taken;
  }

  lemma FitsReady(kmem: Kmem, physical: nat, virtual: nat, n: nat, p4: nat, tree: Tree, k: Sys, u: set<Slot>)
    requires kmem.Space(p4, tree) && Enough(kmem.System(tree), u) && RangeFits(physical, virtual, n, k, u)
    requires kmem.free <= k.free
    ensures kmem.RangeReady(physical, virtual, n, p4, tree)
    ensures Paths(Pages(Page(virtual), n)) <= u && physical < TWO_64 && virtual < TWO_64
  {
    PathReady(kmem, p4, tree, Paths(Pages(Page(virtual), n)), u);
    hide Paths, Page, Kmem.Ready, Pages;
  }

  lemma Flags()
    ensures KERNEL_PT_ENTRY == 3 && USER_PT_ENTRY == 7 && PAGE_SIZE == 4096 && PAGES == 0x10_0000_0000
  {}

  /** map_kernel_entries. */
  method MapKernelEntries(kmem: Kmem, ke: seq<KernelEntry>, p4: nat, ghost tree: Tree,
                          ghost k: Sys, ghost u: set<Slot>, ghost n: nat)
    returns (ghost tree': Tree)
    requires Builds(kmem, p4, tree, k, u, n)
    requires forall i :: 0 <= i < |ke| ==> EntryFits(ke[i], k, u)
    modifies kmem`mem, kmem`free, kmem.bitmap
    ensures Builds(kmem, p4, tree', k, u, n)
    ensures Maps(old(kmem.System(tree)), kmem.System(tree'), ImageMap(ke, |ke|))
  {
    hide *;
    Flags();
    ghost var a := kmem.System(tree);
    tree' := tree;
    MapsSelf(a);
    NoImage(ke);
    for i := 0 to |ke|
      invariant Builds(kmem, p4, tree', k, u, n)
      invariant Maps(a, kmem.System(tree'), ImageMap(ke, i))
    {
      ghost var b := kmem.System(tree');
      var e := ke[i];
      FitsIs(e, k, u);
      tree' := MapRange(kmem, e.paddr, e.vaddr, e.numPages, USER_PT_ENTRY, p4, tree', k, u, n);
      MapsTrans(a, b, kmem.System(tree'), ImageMap(ke, i), RangeMap(Page(e.vaddr), e.numPages, AlignAddr(e.paddr), 7));
      MoreImage(ke, i);
    }
  }

  lemma NoImage(ke: seq<KernelEntry>)
    ensures ImageMap(ke, 0) == map[]
  {}

  lemma MoreImage(ke: seq<KernelEntry>, i: nat)
    requires i < |ke|
    ensures ImageMap(ke, i + 1) ==
            ImageMap(ke, i) + RangeMap(Page(ke[i].vaddr), ke[i].numPages, AlignAddr(ke[i].paddr), 7)
    ensures ImagePages(ke, i + 1) == ImagePages(ke, i) + EntryPages(ke[i])
  {
    hide Or, AlignAddr, Page;
  }

  lemma FitsIs(e: KernelEntry, k: Sys, u: set<Slot>)
    requires EntryFits(e, k, u)
    ensures RangeFits(e.paddr, e.vaddr, e.numPages, k, u)
  {}

  // ---- The heap -----------------------------------------------------------------------------------

  function HeapStart(r: Region): nat { if r.bm >= HEAP_HEADER then r.bm - HEAP_HEADER else 0 }

  function HeapLength(r: Region): nat { DivCeil(r.size + HEAP_HEADER, PAGE_SIZE) }

  ghost function HeapPages(r: Region): set<nat>
  {
    Pages(Page(HeapStart(r)), HeapLength(r))
  }

  /** A region of the kernel's heap: a non-wrapping range whose pages the kernel's space maps. */
  ghost predicate HeapFits(r: Region, k: Sys, u: set<Slot>) {
    && 0 < HeapStart(r) && HeapStart(r) + HeapLength(r) * PAGE_SIZE <= TWO_64 && HeapStart(r) < TWO_64
    && Page(HeapStart(r)) + HeapLength(r) <= PAGES
    && Paths(HeapPages(r)) <= u
    && forall q :: q in HeapPages(r) ==> Translation(k, q) != 0
  }

  /** Those pages are the ones of the region's 48-byte header and of its bytes, when it starts at a page. */
  lemma HeapPagesAre(r: Region, addr: nat)
    requires r.bm >= 48 && (r.bm - 48) % 4096 == 0 && r.size + 48 + 4096 < TWO_64
    requires Page(r.bm - 48) + HeapLength(r) <= PAGES && r.bm - 48 <= addr < r.bm + r.size
    ensures HeapStart(r) == r.bm - 48 && addr / 4096 % 0x10_0000_0000 in HeapPages(r)
    ensures (HeapLength(r) - 1) * 4096 < r.size + 48
  {
    var start, j := r.bm - 48, (addr - (r.bm - 48)) / 4096;
    DivCeilIs(r.size + 48, 4096);
    assert HeapLength(r) == DivCeil(r.size + 48, 4096);
    hide DivCeil, Page;
    assert j * 4096 <= addr - start < r.size + 48 <= HeapLength(r) * 4096;
    assert j < HeapLength(r);
    PageWithin(start, j, addr);
  }

  lemma PageWithin(start: nat, j: nat, addr: nat)
    requires start % 4096 == 0 && addr >= start && j == (addr - start) / 4096 && Page(start) + j < PAGES
    ensures addr / 4096 % 0x10_0000_0000 == Page(start) + j
  {
    var q := start / 4096;
    assert addr / 4096 == q + j;
    assert q == q / PAGES * PAGES + q % PAGES;
  }

  /** The entry map_heap makes for a page: the frame the kernel has there, for the supervisor. */
  ghost function HeapEntry(k: Sys, q: nat): nat { Or(AlignAddr(Translation(k, q)), 3) }

  ghost function PagesMap(k: Sys, v: nat, n: nat): (r: map<nat, nat>)
    ensures r.Keys == Pages(v, n)
    ensures forall q :: q in r ==> r[q] == HeapEntry(k, q)
  {
    if n == 0 then map[] else PagesMap(k, v, n - 1)[v + n - 1 := HeapEntry(k, v + n - 1)]
  }

  ghost function HeapAll(heap: seq<Region>, n: nat): set<nat>
    requires n <= |heap|
  {
    if n == 0 then {} else HeapAll(heap, n - 1) + HeapPages(heap[n - 1])
  }

  ghost function HeapMap(heap: seq<Region>, k: Sys, n: nat): (r: map<nat, nat>)
    requires n <= |heap|
    ensures r.Keys == HeapAll(heap, n)
    ensures forall q :: q in r ==> r[q] == HeapEntry(k, q)
  {
    if n == 0 then map[]
    else HeapMap(heap, k, n - 1) + PagesMap(k, Page(HeapStart(heap[n - 1])), HeapLength(heap[n - 1]))
  }

  /** The body of map_heap's loop: the page of an address goes where the kernel has it. */
  method MapHeapPage(kmem: Kmem, virtual: nat, src: nat, p4: nat, ghost tree: Tree, ghost q: nat,
                     ghost k: Sys, ghost u: set<Slot>, ghost n: nat)
    returns (ghost tree': Tree)
    requires Builds(kmem, p4, tree, k, u, n)
    requires ROOT in k.tree && src == k.tree[ROOT] * PAGE_SIZE
    requires 0 < virtual < TWO_64 && q == Page(virtual) && Path(q) <= u && Translation(k, q) != 0
    modifies kmem`mem, kmem`free, kmem.bitmap
    ensures Builds(kmem, p4, tree', k, u, n)
    ensures Maps(old(kmem.System(tree)), kmem.System(tree'), map[q := HeapEntry(k, q)])
  {
    hide *;
    Flags();
    Small();
    BuildsReady(kmem, p4, tree, k, u, n);
    KernelReady(kmem, tree, k, u, n, src, q);
    var physical := kmem.TranslateAddr(virtual, src, k.tree);
    TranslationIs(k, q);
    tree' := MapAddr(kmem, physical, virtual, KERNEL_PT_ENTRY, p4, tree, k, u, n);
    HeapEntryIs(k, q);
  }

  lemma Small()
    ensures 0x10_0000_0000_0000 < TWO_64
  {}

  lemma HeapEntryIs(k: Sys, q: nat)
    ensures HeapEntry(k, q) == Or(AlignAddr(Translation(k, q)), 3)
  {}

  lemma TranslationIs(k: Sys, q: nat)
    ensures Translation(k, q) % PAGE_SIZE == 0 && Translation(k, q) < 0x10_0000_0000_0000
  {}

  lemma RootNonzero(tree: Tree, a: Sys)
    requires Valid(a) && a.tree == tree
    ensures ROOT in tree && tree[ROOT] > 0
  {}

  /** translate_addr on the kernel's tree still reports what the kernel's space held at the start. */
  lemma KernelReady(kmem: Kmem, tree: Tree, k: Sys, u: set<Slot>, n: nat, src: nat, q: nat)
    requires Stage(kmem.System(tree), k, u, n) && ROOT in k.tree && src == k.tree[ROOT] * PAGE_SIZE
    ensures src != 0 && kmem.Walkable(src, k.tree) && Translation(kmem.System(k.tree), q) == Translation(k, q)
  {
    StageIs(kmem.System(tree), k, u, n);
    hide Valid, Leaf, Mmu.Linking, Stage;
    SystemIs(kmem, tree);
    SystemIs(kmem, k.tree);
    assert kmem.System(k.tree) == KernelIn(kmem.System(tree), k.tree);
    kmem.SpaceWalks(src, k.tree);
    RootNonzero(k.tree, kmem.System(k.tree));
  }

  /** map_heap on one region. */
  method MapRegion(kmem: Kmem, r: Region, src: nat, p4: nat, ghost tree: Tree,
                   ghost k: Sys, ghost u: set<Slot>, ghost n: nat)
    returns (ghost tree': Tree)
    requires Builds(kmem, p4, tree, k, u, n) && HeapFits(r, k, u)
    requires ROOT in k.tree && src == k.tree[ROOT] * PAGE_SIZE
    modifies kmem`mem, kmem`free, kmem.bitmap
    ensures Builds(kmem, p4, tree', k, u, n)
    ensures Maps(old(kmem.System(tree)), kmem.System(tree'), PagesMap(k, Page(HeapStart(r)), HeapLength(r)))
  {
    hide *;
    ghost var a := kmem.System(tree);
    HeapIs(r, k, u);
    var start, numPages := HeapStart(r), HeapLength(r);
    ghost var v := Page(start);
    tree' := tree;
    MapsSelf(a);
    NoPages(k, v);
    for i := 0 to numPages
      invariant Builds(kmem, p4, tree', k, u, n)
      invariant Maps(a, kmem.System(tree'), PagesMap(k, v, i))
    {
      ghost var b := kmem.System(tree');
      HeapPageIs(r, k, u, i);
      tree' := MapHeapPage(kmem, start + i * PAGE_SIZE, src, p4, tree', v + i, k, u, n);
      MapsTrans(a, b, kmem.System(tree'), PagesMap(k, v, i), map[v + i := HeapEntry(k, v + i)]);
      MorePages(k, v, i);
    }
  }

  lemma NoPages(k: Sys, v: nat)
    ensures PagesMap(k, v, 0) == map[]
  {}

  lemma MorePages(k: Sys, v: nat, i: nat)
    ensures PagesMap(k, v, i + 1) == PagesMap(k, v, i) + map[v + i := HeapEntry(k, v + i)]
  {
    hide HeapEntry;
  }

  lemma HeapIs(r: Region, k: Sys, u: set<Slot>)
    requires HeapFits(r, k, u)
    ensures 0 < HeapStart(r) && HeapPages(r) == Pages(Page(HeapStart(r)), HeapLength(r))
  {}

  lemma HeapPageIs(r: Region, k: Sys, u: set<Slot>, i: nat)
    requires HeapFits(r, k, u) && i < HeapLength(r)
    ensures var a, q := HeapStart(r) + i * PAGE_SIZE, Page(HeapStart(r)) + i;
            0 < a < TWO_64 && Page(a) == q && Path(q) <= u && Translation(k, q) != 0
  {
    var start, n := HeapStart(r), HeapLength(r);
    hide Path, Paths, Translation, HeapLength, HeapStart, Page, Pages;
    var q := Page(start) + i;
    assert q in HeapPages(r);
    PathInPaths(q, HeapPages(r));
    assert start + (i + 1) * PAGE_SIZE <= start + n * PAGE_SIZE;
    PageOfRange(0, start, i);
  }

  /** map_heap. */
  method MapHeap(kmem: Kmem, heap: seq<Region>, src: nat, p4: nat, ghost tree: Tree,
                 ghost k: Sys, ghost u: set<Slot>, ghost n: nat)
    returns (ghost tree': Tree)
    requires Builds(kmem, p4, tree, k, u, n)
    requires forall i :: 0 <= i < |heap| ==> HeapFits(heap[i], k, u)
    requires ROOT in k.tree && src == k.tree[ROOT] * PAGE_SIZE
    modifies kmem`mem, kmem`free, kmem.bitmap
    ensures Builds(kmem, p4, tree', k, u, n)
    ensures Maps(old(kmem.System(tree)), kmem.System(tree'), HeapMap(heap, k, |heap|))
  {
    hide *;
    ghost var a := kmem.System(tree);
    tree' := tree;
    MapsSelf(a);
    NoHeap(heap, k);
    for i := 0 to |heap|
      invariant Builds(kmem, p4, tree', k, u, n)
      invariant Maps(a, kmem.System(tree'), HeapMap(heap, k, i))
    {
      ghost var b := kmem.System(tree');
      HeapIs(heap[i], k, u);
      tree' := MapRegion(kmem, heap[i], src, p4, tree', k, u, n);
      MapsTrans(a, b, kmem.System(tree'), HeapMap(heap, k, i),
                PagesMap(k, Page(HeapStart(heap[i])), HeapLength(heap[i])));
      MoreHeap(heap, k, i);
    }
  }

  lemma NoHeap(heap: seq<Region>, k: Sys)
    ensures HeapMap(heap, k, 0) == map[]
  {}

  lemma MoreHeap(heap: seq<Region>, k: Sys, i: nat)
    requires i < |heap|
    ensures HeapStart(heap[i]) >= 0
    ensures HeapMap(heap, k, i + 1) == HeapMap(heap, k, i) + PagesMap(k, Page(HeapStart(heap[i])), HeapLength(heap[i]))
  {
    hide Page, HeapLength, PagesMap;
  }

  // ---- Mappings of addresses to themselves --------------------------------------------------------

  /** The framebuffer and the frame bitmap are mapped to themselves. */
  method MapItself(kmem: Kmem, start: nat, pages: nat, flags: nat, p4: nat, ghost tree: Tree,
                   ghost k: Sys, ghost u: set<Slot>, ghost n: nat)
    returns (ghost tree': Tree)
    requires Builds(kmem, p4, tree, k, u, n) && RangeFits(start, start, pages, k, u)
    modifies kmem`mem, kmem`free, kmem.bitmap
    ensures Builds(kmem, p4, tree', k, u, n)
    ensures Maps(old(kmem.System(tree)), kmem.System(tree'), RangeMap(Page(start), pages, AlignAddr(start), flags))
    ensures old(kmem.free) - kmem.free == Taken(old(kmem.System(tree)), kmem.System(tree'))
  {
    hide *;
    tree' := MapRange(kmem, start, start, pages, flags, p4, tree, k, u, n);
  }

  /** pmm_set_area stays inside the frame bitmap: the one frame it could write past the end for is the
      one numbered like the end of memory, and only if the rows end there too. */
  ghost predicate InBitmap(kmem: Kmem, start: nat, pages: nat) {
    kmem.memPages < Frames.ROW_BITS * kmem.bitmap.Length || kmem.memPages !in Pages(start / PAGE_SIZE, pages)
  }

  lemma InBitmapIs(kmem: Kmem, start: nat, pages: nat)
    requires InBitmap(kmem, start, pages)
    ensures kmem.memPages < Frames.ROW_BITS * kmem.bitmap.Length || kmem.memPages !in Pages(start / PAGE_SIZE, pages)
  {}

  /** map_framebuffer also reserves the framebuffer's frames, which no thread is the first to do: no frame
      leaves the free set but those that become page tables. */
  method MapFramebuffer(kmem: Kmem, buffer: nat, pages: nat, flags: nat, p4: nat, ghost tree: Tree,
                        ghost k: Sys, ghost u: set<Slot>, ghost n: nat)
    returns (ghost tree': Tree)
    requires Builds(kmem, p4, tree, k, u, n) && RangeFits(buffer, buffer, pages, k, u)
    requires buffer % PAGE_SIZE == 0 && Pages(buffer / PAGE_SIZE, pages) !! k.free
    requires InBitmap(kmem, buffer, pages)
    modifies kmem`mem, kmem`free, kmem.bitmap
    ensures Builds(kmem, p4, tree', k, u, n)
    ensures Maps(old(kmem.System(tree)), kmem.System(tree'), RangeMap(Page(buffer), pages, AlignAddr(buffer), flags))
    ensures old(kmem.free) - kmem.free == Taken(old(kmem.System(tree)), kmem.System(tree'))
  {
    hide *;
    tree' := MapItself(kmem, buffer, pages, flags, p4, tree, k, u, n);
    ghost var b := kmem.System(tree');
    SystemIs(kmem, tree');
    BuildsReady(kmem, p4, tree', k, u, n);
    InBitmapIs(kmem, buffer, pages);
    kmem.PmmSetArea(buffer, pages);
    SystemIs(kmem, tree');
    assert kmem.System(tree') == b;
    ReadyBuilds(kmem, p4, tree', k, u, n);
  }

  /** map_lapic's mapping: none when the local APIC is in x2 mode; otherwise uncached, for the supervisor. */
  ghost function LapicMap(addr: nat, x2mode: bool): map<nat, nat> {
    if x2mode || addr == 0 then map[] else map[Page(addr) := Or(AlignAddr(addr), 0x13)]
  }

  /** map_lapic. */
  method MapLapic(kmem: Kmem, addr: nat, x2mode: bool, p4: nat, ghost tree: Tree,
                  ghost k: Sys, ghost u: set<Slot>, ghost n: nat)
    returns (ghost tree': Tree)
    requires Builds(kmem, p4, tree, k, u, n)
    requires addr < TWO_64 && Path(Page(addr)) <= u
    modifies kmem`mem, kmem`free, kmem.bitmap
    ensures Builds(kmem, p4, tree', k, u, n)
    ensures Maps(old(kmem.System(tree)), kmem.System(tree'), LapicMap(addr, x2mode))
    ensures !x2mode && 0 < addr < 0x1_0000_0000_0000 && addr / 4096 !in old(kmem.free) ==>
              Leaf(kmem.System(tree'), addr / 4096) == addr / 4096 * 4096 + 0x13
  {
    hide *;
    ghost var a := kmem.System(tree);
    SystemIs(kmem, tree);
    MapsSelf(a);
    LapicIs(addr, x2mode);
    tree' := tree;
    if !x2mode {
      var flags := Or(KERNEL_PT_ENTRY, 16);
      tree' := MapAddr(kmem, addr, addr, flags, p4, tree, k, u, n);
    }
    if !x2mode && 0 < addr < 0x1_0000_0000_0000 { LapicLeaf(a, kmem.System(tree'), addr); }
  }

  /** The local APIC's registers are present, writable and uncached. */
  lemma LapicLeaf(a: Sys, b: Sys, addr: nat)
    requires Maps(a, b, LapicMap(addr, false)) && 0 < addr < 0x1_0000_0000_0000
    ensures addr / 4096 !in a.free ==> Leaf(b, addr / 4096) == addr / 4096 * 4096 + 0x13
  {
    hide *;
    Flags();
    Small();
    LapicIs(addr, false);
    AlignAddrIs(addr);
    EntryIs(addr / 4096 * 4096, 0x13);
    LowPage(addr);
    if addr / 4096 !in a.free { MapsAt(a, b, LapicMap(addr, false), addr / 4096); }
  }

  lemma LowPage(addr: nat)
    requires addr < 0x1_0000_0000_0000
    ensures Page(addr) == addr / 4096 < PAGES && addr / 4096 * 4096 % 4096 == 0
  {}

  lemma MapsAt(a: Sys, b: Sys, over: map<nat, nat>, q: nat)
    requires Maps(a, b, over) && q < PAGES && q !in a.free
    ensures Leaf(b, q) == if q in over then over[q] else Leaf(a, q)
  {
    hide Leaf;
  }

  lemma LapicIs(addr: nat, x2mode: bool)
    ensures LapicMap(addr, x2mode) == if x2mode || addr == 0 then map[] else map[Page(addr) := Or(AlignAddr(addr), 0x13)]
    ensures Or(KERNEL_PT_ENTRY, 16) == 0x13
  {
    assert Or(0, 2) == 2 && Or(0, 4) == 4 && Or(1, 8) == 9;
  }

  // ---- init_thread_vmm ----------------------------------------------------------------------------

  /** What init_thread_vmm takes from the kernel's records: this CPU's stack, the kernel image, the
      framebuffer, the local APIC, the kernel's heap and root table, and the frame bitmap. */
  datatype Config = Config(
    stack: nat, ke: seq<KernelEntry>, fb: nat, fbPages: nat, lapic: nat, x2mode: bool,
    heap: seq<Region>, pml4: nat, bitmap: nat, bitmapSize: nat)

  const THREAD_STACK_PAGES: nat := 1
  const VMM_PAGES: nat := 32
  const HEAP_DEFAULT_BS: nat := 16

  // The pages of each group, by number.

  ghost function FbPages(c: Config): set<nat> { Pages(Page(c.fb), c.fbPages) }

  ghost function LapicPages(c: Config): set<nat> {
    if c.x2mode || c.lapic == 0 then {} else {Page(c.lapic)}
  }

  ghost function BitmapPages(c: Config): set<nat> { Pages(Page(c.bitmap), DivCeil(c.bitmapSize, PAGE_SIZE)) }

  ghost function StackPages(c: Config): set<nat> {
    if c.stack == 0 then {} else {Page(VAddr(c.stack))}
  }

  /** The pages of the kernel image and of the kernel's heap. */
  ghost function KernelPages(c: Config): set<nat>
  {
    ImagePages(c.ke, |c.ke|) + HeapAll(c.heap, |c.heap|)
  }

  /** The kernel's space k serves its image and heap, whose pages are not numbered like free frames; the
      ranges are in order; the pages of the thread's own region, 1 to 32, are in none of them; and there
      are tables to spare. */
  ghost predicate Fits(c: Config, k: Sys, u: set<Slot>) {
    && Valid(k) && k.link == USER_PT_ENTRY && c.pml4 == k.tree[ROOT] * PAGE_SIZE
    && Paths(k.free) <= u && Paths(Pages(0, k.limit)) <= u && Paths(Pages(1, 32)) <= u && |u| + 4 <= |k.free|
    && c.stack < TWO_64 && Path(Page(VAddr(c.stack))) <= u
    && (forall i :: 0 <= i < |c.ke| ==> EntryFits(c.ke[i], k, u) && Loaded(c.ke[i], k))
    && (forall i :: 0 <= i < |c.heap| ==> HeapFits(c.heap[i], k, u))
    && RangeFits(c.fb, c.fb, c.fbPages, k, u) && c.fb % PAGE_SIZE == 0
    && Pages(c.fb / PAGE_SIZE, c.fbPages) !! k.free
    && c.lapic < 0x1_0000_0000_0000 && Path(Page(c.lapic)) <= u
    && RangeFits(c.bitmap, c.bitmap, DivCeil(c.bitmapSize, PAGE_SIZE), k, u)
    && KernelPages(c) !! k.free
    && Pages(1, 32) !! StackPages(c) + KernelPages(c) + FbPages(c) + LapicPages(c) + BitmapPages(c)
  }

  /** Everything shared with the kernel, later mappings winning over earlier ones. */
  ghost function SideMap(c: Config, k: Sys): (r: map<nat, nat>)
  {
    ImageMap(c.ke, |c.ke|) + RangeMap(Page(c.fb), c.fbPages, AlignAddr(c.fb), 7) + LapicMap(c.lapic, c.x2mode)
    + HeapMap(c.heap, k, |c.heap|)
    + RangeMap(Page(c.bitmap), DivCeil(c.bitmapSize, PAGE_SIZE), AlignAddr(c.bitmap), 3)
  }

  ghost function StackMap(c: Config): map<nat, nat> {
    if c.stack == 0 then map[] else map[Page(VAddr(c.stack)) := Or(AlignAddr(c.stack), 3)]
  }

  /** And before it, the root table and this CPU's stack. */
  ghost function WholeMap(c: Config, k: Sys, p4: nat): map<nat, nat>
  {
    map[p4 / PAGE_SIZE := Or(AlignAddr(p4), 3)] + StackMap(c) + SideMap(c, k)
  }

  /** A new root table, cleared and mapped to itself; z is the state with the cleared table. */
  method InitRoot(kmem: Kmem, ghost k: Sys, ghost u: set<Slot>, ghost n: nat)
    returns (p4: nat, ghost tree: Tree, ghost z: Sys)
    requires kmem.Valid() && k == kmem.System(k.tree) && PageTree.Valid(k)
    requires Paths(k.free) <= u && |u| + n + 1 <= |k.free|
    modifies kmem`mem, kmem`free, kmem.bitmap
    ensures Builds(kmem, p4, tree, k, u, n)
    ensures p4 % PAGE_SIZE == 0 && p4 / PAGE_SIZE in k.free && z.free == k.free - {p4 / PAGE_SIZE}
    ensures (forall q: nat :: Leaf(z, q) == 0) && Maps(z, kmem.System(tree), map[p4 / PAGE_SIZE := Or(AlignAddr(p4), 3)])
  {
    hide *;
    Flags();
    SystemIs(kmem, k.tree);
    p4 := kmem.AllocFrame();
    ghost var f := p4 / PAGE_SIZE;
    RootFrame(k.free, kmem.free, p4);
    kmem.CleanTable(p4);
    tree := map[ROOT := f];
    SystemIs(kmem, tree);
    StageRoot(k, kmem.System(tree), f, u, n);
    RootBuilds(kmem, p4, tree, k, u, n);
    RootPath(f, p4, k, u);
    z := kmem.System(tree);
    tree := MapAddr(kmem, p4, p4, KERNEL_PT_ENTRY, p4, tree, k, u, n);
  }

  lemma RootFrame(was: set<nat>, now: set<nat>, address: nat)
    requires Allocated(was, now, address) && |was| > 0
    ensures var f := address / PAGE_SIZE;
            && address != 0 && address == f * PAGE_SIZE < TWO_64 && f in was && now == was - {f}
            && address % PAGE_SIZE == 0
  {}

  lemma RootBuilds(kmem: Kmem, p4: nat, tree: Tree, k: Sys, u: set<Slot>, n: nat)
    requires kmem.Valid() && Stage(kmem.System(tree), k, u, n) && ROOT in tree && p4 == tree[ROOT] * PAGE_SIZE
    ensures Builds(kmem, p4, tree, k, u, n)
  {
    hide Stage, Kmem.Valid;
  }

  lemma RootPath(f: nat, p4: nat, k: Sys, u: set<Slot>)
    requires PageTree.Valid(k) && f in k.free && p4 == f * PAGE_SIZE && Paths(k.free) <= u
    ensures Path(Page(p4)) <= u && Page(p4) == f
  {
    PathInPaths(f, k.free);
    FrameAddress(f);
  }

  lemma HigherHalf(a: nat)
    requires a < TWO_64
    ensures 0 < VAddr(a) < TWO_64
  {
    Pow2Values();
    OrBound(a, HIGHER_HALF_OFFSET, 64);
    OrNotBelow(a, HIGHER_HALF_OFFSET);
  }

  lemma {:induction false} OrNotBelow(a: nat, b: nat)
    ensures Or(a, b) >= b
  {
    if b > 0 { OrNotBelow(a / 2, b / 2); }
  }

  /** What Fits says, clause by clause. */
  lemma FitsAll(c: Config, k: Sys, u: set<Slot>)
    requires Fits(c, k, u)
    ensures PageTree.Valid(k) && ROOT in k.tree && c.pml4 == k.tree[ROOT] * PAGE_SIZE && k.link == USER_PT_ENTRY
    ensures Paths(k.free) <= u && Paths(Pages(0, k.limit)) <= u && Paths(Pages(1, 32)) <= u && |u| + 4 <= |k.free|
    ensures c.stack < TWO_64 && 0 < VAddr(c.stack) < TWO_64 && Path(Page(VAddr(c.stack))) <= u
    ensures forall i :: 0 <= i < |c.ke| ==> EntryFits(c.ke[i], k, u) && Loaded(c.ke[i], k)
    ensures forall i :: 0 <= i < |c.heap| ==> HeapFits(c.heap[i], k, u)
    ensures RangeFits(c.fb, c.fb, c.fbPages, k, u) && c.fb % PAGE_SIZE == 0
    ensures Pages(c.fb / PAGE_SIZE, c.fbPages) !! k.free
    ensures c.lapic < 0x1_0000_0000_0000 < TWO_64 && Path(Page(c.lapic)) <= u
    ensures RangeFits(c.bitmap, c.bitmap, DivCeil(c.bitmapSize, PAGE_SIZE), k, u)
    ensures KernelPages(c) !! k.free
    ensures Pages(1, 32) !! StackPages(c) + KernelPages(c) + FbPages(c) + LapicPages(c) + BitmapPages(c)
  {
    HigherHalf(c.stack);
    hide PageTree.Valid, Paths, Path, Page, VAddr, EntryFits, Loaded, HeapFits, RangeFits, DivCeil;
    hide StackPages, KernelPages, FbPages, LapicPages, BitmapPages;
  }

  /** What the thread shares with the kernel: the image, the framebuffer, the local APIC, the heap and
      the frame bitmap. */
  method MapKernelSide(kmem: Kmem, c: Config, p4: nat, ghost tree: Tree, ghost k: Sys, ghost u: set<Slot>, ghost n: nat)
    returns (ghost tree': Tree)
    requires Builds(kmem, p4, tree, k, u, n) && Fits(c, k, u)
    requires InBitmap(kmem, c.fb, c.fbPages)
    modifies kmem`mem, kmem`free, kmem.bitmap
    ensures Builds(kmem, p4, tree', k, u, n)
    ensures Maps(old(kmem.System(tree)), kmem.System(tree'), SideMap(c, k))
  {
    hide *;
    Flags();
    FitsAll(c, k, u);
    ghost var a := kmem.System(tree);
    ghost var over := ImageMap(c.ke, |c.ke|);
    tree' := MapKernelEntries(kmem, c.ke, p4, tree, k, u, n);
    ghost var b := kmem.System(tree');
    tree' := MapFramebuffer(kmem, c.fb, c.fbPages, USER_PT_ENTRY, p4, tree', k, u, n);
    MapsTrans(a, b, kmem.System(tree'), over, RangeMap(Page(c.fb), c.fbPages, AlignAddr(c.fb), 7));
    over, b := over + RangeMap(Page(c.fb), c.fbPages, AlignAddr(c.fb), 7), kmem.System(tree');
    tree' := MapLapic(kmem, c.lapic, c.x2mode, p4, tree', k, u, n);
    MapsTrans(a, b, kmem.System(tree'), over, LapicMap(c.lapic, c.x2mode));
    over, b := over + LapicMap(c.lapic, c.x2mode), kmem.System(tree');
    tree' := MapHeap(kmem, c.heap, c.pml4, p4, tree', k, u, n);
    MapsTrans(a, b, kmem.System(tree'), over, HeapMap(c.heap, k, |c.heap|));
    over, b := over + HeapMap(c.heap, k, |c.heap|), kmem.System(tree');
    tree' := MapItself(kmem, c.bitmap, DivCeil(c.bitmapSize, PAGE_SIZE), KERNEL_PT_ENTRY, p4, tree', k, u, n);
    MapsTrans(a, b, kmem.System(tree'), over,
              RangeMap(Page(c.bitmap), DivCeil(c.bitmapSize, PAGE_SIZE), AlignAddr(c.bitmap), 3));
    SideIs(c, k);
  }

  lemma SideIs(c: Config, k: Sys)
    ensures SideMap(c, k) ==
              ImageMap(c.ke, |c.ke|) + RangeMap(Page(c.fb), c.fbPages, AlignAddr(c.fb), 7) + LapicMap(c.lapic, c.x2mode)
              + HeapMap(c.heap, k, |c.heap|)
              + RangeMap(Page(c.bitmap), DivCeil(c.bitmapSize, PAGE_SIZE), AlignAddr(c.bitmap), 3)
  {
    hide ImageMap, RangeMap, HeapMap, LapicMap, DivCeil, AlignAddr, Page, HeapFits;
  }

  // ---- What the processor finds -------------------------------------------------------------------

  /** What is to be found at page q of the finished space, the latest mapping first: the frame bitmap and the
      kernel's heap for the supervisor, the local APIC for the supervisor unless it is in x2 mode, the
      framebuffer and the kernel image for user code too, this CPU's stack and the root table for the
      supervisor. */
  ghost function Wanted(c: Config, k: Sys, p4: nat, q: nat): Mmu.Access
  {
    if q in BitmapPages(c) then Mmu.Access(Nth(c.bitmap, q), true, false)
    else if q in HeapAll(c.heap, |c.heap|) then Mmu.Access(Translation(k, q) / 4096, true, false)
    else if q in LapicPages(c) then Mmu.Access(c.lapic / 4096, true, false)
    else if q in FbPages(c) then Mmu.Access(Nth(c.fb, q), true, true)
    else if q in ImagePages(c.ke, |c.ke|) then Mmu.Access(Translation(k, q) / 4096, true, true)
    else if q in StackPages(c) then Mmu.Access(c.stack / 4096 % 0x100_0000_0000, true, false)
    else if q == p4 / 4096 then Mmu.Access(q, true, false)
    else Mmu.Fault
  }

  /** The frame of page q in a range at `start` that is mapped to itself. */
  function Nth(start: nat, q: nat): nat {
    if q >= Page(start) then start / 4096 + (q - Page(start)) else 0
  }

  lemma RangeGrants(physical: nat, virtual: nat, n: nat, flags: nat, q: nat)
    requires physical + n * PAGE_SIZE <= 0x10_0000_0000_0000 && q in Pages(Page(virtual), n) && (flags == 3 || flags == 7)
    ensures Mmu.Grants(RangeMap(Page(virtual), n, AlignAddr(physical), flags)[q], true) ==
            Mmu.Access(physical / 4096 + (q - Page(virtual)), true, flags == 7)
  {
    hide *;
    Flags();
    Small();
    var i := InRange(Page(virtual), n, q);
    RangeAt(Page(virtual), n, AlignAddr(physical), flags, q);
    AlignedNext(physical, i, n);
    Mmu.EntryGrants(physical + i * PAGE_SIZE, flags, true);
    FrameNext(physical, i, n);
    assert flags / 2 % 2 == 1 && (flags / 4 % 2 == 1 <==> flags == 7);
  }

  lemma InRange(v: nat, n: nat, q: nat) returns (i: nat)
    requires q in Pages(v, n)
    ensures i < n && q == v + i
  {
    i := q - v;
  }

  lemma RangeAt(v: nat, n: nat, p: nat, flags: nat, q: nat)
    requires q in Pages(v, n)
    ensures q >= v && q in RangeMap(v, n, p, flags) && RangeMap(v, n, p, flags)[q] == Or(p + (q - v) * PAGE_SIZE, flags)
  {
    hide Or;
  }

  lemma AlignedNext(physical: nat, i: nat, n: nat)
    requires i < n && physical + n * PAGE_SIZE <= 0x10_0000_0000_0000
    ensures AlignAddr(physical + i * PAGE_SIZE) == AlignAddr(physical) + i * PAGE_SIZE
    ensures physical + i * PAGE_SIZE < TWO_64
  {
    hide *;
    Flags();
    Small();
    PagesUpTo(i, n);
    PagesOn(physical, i);
    AlignAddrIs(physical);
    AlignAddrIs(physical + i * PAGE_SIZE);
  }

  lemma PagesUpTo(i: nat, n: nat)
    requires i < n
    ensures i * PAGE_SIZE + PAGE_SIZE <= n * PAGE_SIZE
  {}

  lemma PagesOn(physical: nat, i: nat)
    ensures (physical + i * PAGE_SIZE) / PAGE_SIZE * PAGE_SIZE == physical / PAGE_SIZE * PAGE_SIZE + i * PAGE_SIZE
  {}

  lemma FrameNext(physical: nat, i: nat, n: nat)
    requires i < n && physical + n * PAGE_SIZE <= 0x10_0000_0000_0000
    ensures (physical + i * PAGE_SIZE) / 4096 % 0x100_0000_0000 == physical / 4096 + i
  {
    assert (i + 1) * PAGE_SIZE <= n * PAGE_SIZE;
    assert (physical + i * PAGE_SIZE) / 4096 == physical / 4096 + i;
  }

  lemma {:induction false} ImageGrants(ke: seq<KernelEntry>, n: nat, k: Sys, u: set<Slot>, q: nat)
    requires n <= |ke| && q in ImagePages(ke, n)
    requires forall i :: 0 <= i < |ke| ==> EntryFits(ke[i], k, u) && Loaded(ke[i], k)
    ensures q in ImageMap(ke, n)
    ensures Mmu.Grants(ImageMap(ke, n)[q], true) == Mmu.Access(Translation(k, q) / 4096, true, true)
  {
    hide *;
    if n == 0 {
      NoPage(ke);
    } else {
      MoreImage(ke, n - 1);
      ImageKeys(ke, n);
      ImageKeys(ke, n - 1);
      var e := ke[n - 1];
      if q in EntryPages(e) {
        FitsIs(e, k, u);
        RangeFitsIs(e.paddr, e.vaddr, e.numPages, k, u);
        EntryIsRange(e);
        RangeGrants(e.paddr, e.vaddr, e.numPages, 7, q);
        RangeAt(Page(e.vaddr), e.numPages, AlignAddr(e.paddr), 7, q);
        LoadedFrame(e, k, q);
      } else {
        RangeKeys(e);
        ImageGrants(ke, n - 1, k, u, q);
      }
    }
  }

  lemma NoPage(ke: seq<KernelEntry>)
    ensures ImagePages(ke, 0) == {}
  {}

  lemma ImageKeys(ke: seq<KernelEntry>, n: nat)
    requires n <= |ke|
    ensures ImageMap(ke, n).Keys == ImagePages(ke, n)
  {}

  lemma EntryIsRange(e: KernelEntry)
    ensures EntryPages(e) == Pages(Page(e.vaddr), e.numPages)
  {}

  lemma RangeKeys(e: KernelEntry)
    ensures RangeMap(Page(e.vaddr), e.numPages, AlignAddr(e.paddr), 7).Keys == EntryPages(e)
  {}

  lemma RangeFitsIs(physical: nat, virtual: nat, n: nat, k: Sys, u: set<Slot>)
    requires RangeFits(physical, virtual, n, k, u)
    ensures physical + n * PAGE_SIZE <= 0x10_0000_0000_0000 && Pages(Page(virtual), n) !! k.free
  {}

  lemma LoadedFrame(e: KernelEntry, k: Sys, q: nat)
    requires Loaded(e, k) && q in EntryPages(e) && e.paddr + e.numPages * PAGE_SIZE <= 0x10_0000_0000_0000
    ensures q >= Page(e.vaddr) && Translation(k, q) / 4096 == e.paddr / 4096 + (q - Page(e.vaddr))
  {
    hide AlignAddr, Page, Translation;
    AlignAddrIs(e.paddr);
    assert Translation(k, q) == AlignAddr(e.paddr) + (q - Page(e.vaddr)) * PAGE_SIZE;
  }

  lemma HeapGrants(k: Sys, q: nat)
    ensures Mmu.Grants(HeapEntry(k, q), true) == Mmu.Access(Translation(k, q) / 4096, true, false)
  {
    hide *;
    Flags();
    Small();
    HeapEntryIs(k, q);
    TranslationIs(k, q);
    Mmu.EntryGrants(Translation(k, q), 3, true);
    FrameNext(Translation(k, q), 0, 1);
  }

  lemma LapicGrants(addr: nat)
    requires addr < 0x1_0000_0000_0000
    ensures Mmu.Grants(Or(AlignAddr(addr), 0x13), true) == Mmu.Access(addr / 4096, true, false)
  {
    hide Or, AlignAddr, Mmu.Grants;
    Small();
    Mmu.EntryGrants(addr, 0x13, true);
  }

  lemma FirstGrants(addr: nat)
    requires addr < TWO_64
    ensures Mmu.Grants(Or(AlignAddr(addr), 3), true) == Mmu.Access(addr / 4096 % 0x100_0000_0000, true, false)
    ensures Mmu.Grants(0, true) == Mmu.Fault
  {
    hide Or, AlignAddr;
    Mmu.EntryGrants(addr, 3, true);
  }

  /** The entries of everything mapped give what is wanted. */
  lemma WholeGrants(c: Config, k: Sys, u: set<Slot>, p4: nat, q: nat)
    requires Fits(c, k, u) && p4 / PAGE_SIZE < PAGES && p4 % PAGE_SIZE == 0
    ensures Mmu.Grants(if q in WholeMap(c, k, p4) then WholeMap(c, k, p4)[q] else 0, true) == Wanted(c, k, p4, q)
  {
    hide *;
    Flags();
    Small();
    FitsAll(c, k, u);
    WholeIs(c, k, p4, q);
    LatestIs(c, k, p4, q, HeapAll(c.heap, |c.heap|));
    WantedIs(c, k, p4, q);
    FirstGrants(c.stack);
    RootGrants(p4);
    if q in BitmapPages(c) {
      BitmapIs(c);
      RangeFitsIs(c.bitmap, c.bitmap, DivCeil(c.bitmapSize, PAGE_SIZE), k, u);
      RangeGrants(c.bitmap, c.bitmap, DivCeil(c.bitmapSize, PAGE_SIZE), 3, q);
      NthIs(c.bitmap, DivCeil(c.bitmapSize, PAGE_SIZE), q);
    } else if q in HeapAll(c.heap, |c.heap|) {
      HeapGrants(k, q);
    } else if q in LapicPages(c) {
      LapicGrants(c.lapic);
    } else if q in FbPages(c) {
      FbIs(c);
      RangeFitsIs(c.fb, c.fb, c.fbPages, k, u);
      RangeGrants(c.fb, c.fb, c.fbPages, 7, q);
      NthIs(c.fb, c.fbPages, q);
    } else if q in ImagePages(c.ke, |c.ke|) {
      ImageGrants(c.ke, |c.ke|, k, u, q);
    }
  }

  lemma NthIs(start: nat, n: nat, q: nat)
    requires q in Pages(Page(start), n)
    ensures q >= Page(start) && Nth(start, q) == start / 4096 + (q - Page(start))
  {
    hide Page;
  }

  lemma BitmapIs(c: Config)
    ensures BitmapPages(c) == Pages(Page(c.bitmap), DivCeil(c.bitmapSize, PAGE_SIZE))
  {}

  lemma FbIs(c: Config)
    ensures FbPages(c) == Pages(Page(c.fb), c.fbPages)
  {}

  lemma RootGrants(p4: nat)
    requires p4 / PAGE_SIZE < PAGES && p4 % PAGE_SIZE == 0
    ensures Mmu.Grants(Or(AlignAddr(p4), 3), true) == Mmu.Access(p4 / 4096, true, false)
  {
    hide Or, AlignAddr, Mmu.Grants;
    FirstGrants(p4);
  }

  lemma WantedIs(c: Config, k: Sys, p4: nat, q: nat)
    ensures Wanted(c, k, p4, q) ==
            if q in BitmapPages(c) then Mmu.Access(Nth(c.bitmap, q), true, false)
            else if q in HeapAll(c.heap, |c.heap|) then Mmu.Access(Translation(k, q) / 4096, true, false)
            else if q in LapicPages(c) then Mmu.Access(c.lapic / 4096, true, false)
            else if q in FbPages(c) then Mmu.Access(Nth(c.fb, q), true, true)
            else if q in ImagePages(c.ke, |c.ke|) then Mmu.Access(Translation(k, q) / 4096, true, true)
            else if q in StackPages(c) then Mmu.Access(c.stack / 4096 % 0x100_0000_0000, true, false)
            else if q == p4 / 4096 then Mmu.Access(q, true, false)
            else Mmu.Fault
  {
    hide BitmapPages, HeapAll, LapicPages, FbPages, ImagePages, StackPages, Nth, Translation;
  }

  ghost function Latest(c: Config, k: Sys, p4: nat, q: nat, heap: set<nat>): nat {
    if q in BitmapPages(c) then RangeMap(Page(c.bitmap), DivCeil(c.bitmapSize, PAGE_SIZE), AlignAddr(c.bitmap), 3)[q]
    else if q in heap then HeapEntry(k, q)
    else if q in LapicPages(c) then Or(AlignAddr(c.lapic), 0x13)
    else if q in FbPages(c) then RangeMap(Page(c.fb), c.fbPages, AlignAddr(c.fb), 7)[q]
    else if q in ImagePages(c.ke, |c.ke|) then ImageMap(c.ke, |c.ke|)[q]
    else if q in StackPages(c) then Or(AlignAddr(c.stack), 3)
    else Or(AlignAddr(p4), 3)
  }

  lemma LatestIs(c: Config, k: Sys, p4: nat, q: nat, heap: set<nat>)
    ensures Latest(c, k, p4, q, heap) ==
            if q in BitmapPages(c)
            then RangeMap(Page(c.bitmap), DivCeil(c.bitmapSize, PAGE_SIZE), AlignAddr(c.bitmap), 3)[q]
            else if q in heap then HeapEntry(k, q)
            else if q in LapicPages(c) then Or(AlignAddr(c.lapic), 0x13)
            else if q in FbPages(c) then RangeMap(Page(c.fb), c.fbPages, AlignAddr(c.fb), 7)[q]
            else if q in ImagePages(c.ke, |c.ke|) then ImageMap(c.ke, |c.ke|)[q]
            else if q in StackPages(c) then Or(AlignAddr(c.stack), 3)
            else Or(AlignAddr(p4), 3)
  {
    hide AlignAddr, Or, HeapEntry, VAddr;
  }

  /** The latest mapping of a page wins. */
  lemma WholeIs(c: Config, k: Sys, p4: nat, q: nat)
    ensures (q in WholeMap(c, k, p4) <==>
              || q in BitmapPages(c) || q in HeapAll(c.heap, |c.heap|) || q in LapicPages(c) || q in FbPages(c)
              || q in ImagePages(c.ke, |c.ke|) || q in StackPages(c) || q == p4 / PAGE_SIZE)
    ensures q in WholeMap(c, k, p4) ==> WholeMap(c, k, p4)[q] == Latest(c, k, p4, q, HeapAll(c.heap, |c.heap|))
  {
    hide *;
    WholeMapIs(c, k, p4);
    SideIs(c, k);
    LatestIs(c, k, p4, q, HeapAll(c.heap, |c.heap|));
    ImageKeys(c.ke, |c.ke|);
    RangesKeys(c, k);
    LapicIs(c.lapic, c.x2mode);
    HeapKeys(c, k);
  }

  lemma RangesKeys(c: Config, k: Sys)
    ensures RangeMap(Page(c.bitmap), DivCeil(c.bitmapSize, PAGE_SIZE), AlignAddr(c.bitmap), 3).Keys == BitmapPages(c)
    ensures RangeMap(Page(c.fb), c.fbPages, AlignAddr(c.fb), 7).Keys == FbPages(c)
    ensures LapicPages(c) == (if c.x2mode || c.lapic == 0 then {} else {Page(c.lapic)})
  {
    hide Page, DivCeil, AlignAddr, Or;
  }

  lemma HeapKeys(c: Config, k: Sys)
    ensures HeapMap(c.heap, k, |c.heap|).Keys == HeapAll(c.heap, |c.heap|)
    ensures forall q :: q in HeapAll(c.heap, |c.heap|) ==> HeapMap(c.heap, k, |c.heap|)[q] == HeapEntry(k, q)
    ensures StackMap(c).Keys == StackPages(c)
    ensures forall q :: q in StackPages(c) ==> StackMap(c)[q] == Or(AlignAddr(c.stack), 3)
  {
    hide Page, VAddr, AlignAddr, Or, HeapEntry;
  }

  /** A page that is not numbered like a free frame leads where it was mapped, or nowhere. */
  lemma MappedLeaf(z: Sys, a: Sys, b: Sys, over: map<nat, nat>, own: set<nat>, q: nat)
    requires Maps(z, a, over) && (forall q: nat :: Leaf(z, q) == 0) && Vmm.Gave(a, b, 1, {}, own)
    requires q < PAGES && q !in z.free && q !in Vmm.PagesOf(1, own)
    ensures Leaf(b, q) == if q in over then over[q] else 0
  {
    hide Leaf, Vmm.FrameOf, Vmm.LinksStay, Vmm.Unmoved, Tables, Vmm.PagesOf;
    assert a.free <= z.free;
    assert Leaf(b, q) == Leaf(a, q);
  }

  // ---- The thread's own region --------------------------------------------------------------------

  /** heap_add on a region in which the pages fit: they hold the heap's 48-byte header and then the bytes
      that its block allocator hands out. */
  method HeapAdd(space: Vmm.AddressSpace, pages: nat, bsize: nat, ghost u: set<Slot>, ghost m: nat)
    returns (heap: BlockBitmap.Bitmap, addr: nat, ghost i: nat)
    requires space.Valid() && space.Secure() && space.Universe(u) && Vmm.EnoughFor(space.Now(), u, pages + m)
    requires 0 < pages && !BlockIds.NoFit(space.bm.Ids(), pages) && 0 < bsize < TWO_64 / 2
    modifies space`tree, space.kmem`mem, space.kmem`free, space.kmem.bitmap, space.bm`used, space.bm`ffa, space.bm.bm
    ensures space.Valid() && space.Secure() && Vmm.EnoughFor(space.Now(), u, m)
    ensures addr == space.bm.Address(i) && i == Vmm.FirstFit(old(space.bm.Ids()), pages, 0)
    ensures Vmm.Live(space.bm.Ids()) == old(Vmm.Live(space.bm.Ids())) + Pages(i, pages)
    ensures space.bm.Ids() == Vmm.AfterAlloc(old(space.bm.Ids()), pages)
    ensures Vmm.Gave(old(space.Now()), space.Now(), space.First(), old(Vmm.Live(space.bm.Ids())), Pages(i, pages))
    ensures fresh(heap) && fresh(heap.bm) && heap.version == BlockIds.Repaired && heap.Valid() && heap.Sized()
    ensures heap.base == addr + 48 && heap.size == pages * 4096 - 48 && heap.bsize == bsize
    ensures heap.used == heap.ffa == heap.Meta()
    ensures forall j: nat :: j < heap.Blocks() ==> heap.Ids()[j] == if j < heap.Meta() then 1 else 0
  {
    hide *;
    addr, i := space.VallocFits(pages, u, m);
    HeapInside(space, i, pages);
    heap := NewHeap(addr, pages * PAGE_SIZE - HEAP_HEADER, bsize);
  }

  /** The header's bitmap_t, whose bytes follow the header. */
  method NewHeap(addr: nat, size: nat, bsize: nat) returns (heap: BlockBitmap.Bitmap)
    requires size < TWO_64 / 2 && addr + 48 + size < TWO_64 && 0 < bsize < TWO_64 / 2
    ensures fresh(heap) && fresh(heap.bm) && heap.version == BlockIds.Repaired && heap.Valid() && heap.Sized()
    ensures heap.base == addr + 48 && heap.size == size && heap.bsize == bsize && heap.used == heap.ffa == heap.Meta()
    ensures forall j: nat :: j < heap.Blocks() ==> heap.Ids()[j] == if j < heap.Meta() then 1 else 0
  {
    hide *;
    HeaderIs();
    var bytes := new bv8[size];
    heap := new BlockBitmap.Bitmap(BlockIds.Repaired, bytes, addr + HEAP_HEADER);
    ghost var was := bytes[..];
    heap.InitBitmap(size, bsize);
    InitialisedFresh(heap, BlockIds.Decode(was, heap.Blocks()));
  }

  lemma HeaderIs()
    ensures HEAP_HEADER == 48
  {}

  lemma HeapInside(space: Vmm.AddressSpace, i: nat, pages: nat)
    requires space.Valid() && i + pages <= space.bm.Blocks() && 0 < pages
    ensures space.bm.Address(i) + pages * 4096 < TWO_64 && 48 < pages * 4096 < TWO_64 / 2
    ensures PAGE_SIZE == 4096 && HEAP_HEADER == 48
  {
    space.ValidIs();
    RegionBytes(space, i + pages);
    hide Vmm.AddressSpace.Valid, Vmm.AddressSpace.Region;
  }

  lemma RegionBytes(space: Vmm.AddressSpace, n: nat)
    requires space.Region() && n <= space.bm.Blocks()
    ensures space.bm.bsize == 4096 && space.bm.base + n * 4096 < TWO_64 && n * 4096 < TWO_64 / 2
  {
    space.bm.Sizes();
    assert n * 4096 <= space.bm.Blocks() * 4096;
    hide BlockBitmap.Bitmap.Valid;
  }

  lemma InitialisedFresh(heap: BlockBitmap.Bitmap, was: BlockIds.Ids)
    requires heap.Sized() && BlockBitmap.Initialised(BlockIds.Repaired, was, heap.Ids(), heap.Meta())
    ensures forall j: nat :: j < heap.Blocks() ==> heap.Ids()[j] == if j < heap.Meta() then 1 else 0
  {
    hide BlockBitmap.BmBlocks;
  }

  /** The thread's region, of 32 pages from address 4096 on: its ids in the first page, the thread's heap of
      one page with blocks of 16 bytes in the second, its stack of one page in the third. */
  method ThreadRegion(kmem: Kmem, p4: nat, ghost tree: Tree, ghost k: Sys, ghost u: set<Slot>)
    returns (space: Vmm.AddressSpace, heap: BlockBitmap.Bitmap, stack: nat)
    requires Builds(kmem, p4, tree, k, u, 3) && Vmm.Tame(kmem.System(tree), 1, 32)
    requires Paths(Pages(0, k.limit)) <= u && Paths(Pages(1, 32)) <= u
    modifies kmem`mem, kmem`free, kmem.bitmap
    ensures fresh(space) && space.kmem == kmem && space.p4 == p4 && space.Valid() && space.Secure()
    ensures space.flags == 7 && space.First() == 1 && Vmm.Live(space.bm.Ids()) == Pages(0, 3)
    ensures Vmm.Gave(old(kmem.System(tree)), space.Now(), 1, {}, Pages(0, 3)) && Vmm.EnoughFor(space.Now(), u, 0)
    ensures fresh(heap) && HeapMade(heap) && stack == 12288
  {
    hide *;
    Flags();
    RegionSizes();
    ghost var a := kmem.System(tree);
    BuildsReady(kmem, p4, tree, k, u, 3);
    StageIs(a, k, u, 3);
    SystemIs(kmem, tree);
    var bytes := new bv8[VMM_PAGES * PAGE_SIZE];
    var bm := new BlockBitmap.Bitmap(BlockIds.Repaired, bytes, 4096);
    space := new Vmm.AddressSpace(kmem, bm, p4, Vmm.User, tree);
    NewSpace(space, tree);
    space.InitVmm(VMM_PAGES, u, 2);
    ghost var b := space.Now();
    IdsPage(space, a);
    SpaceIs(space, 1);
    UniverseIs(space, u);
    var addr;
    ghost var i, j;
    heap, addr, i := HeapAdd(space, 1, HEAP_DEFAULT_BS, u, 1);
    ghost var c := space.Now();
    SpaceIs(space, 2);
    HeapIsMade(heap);
    OneMore(a, b, c, 1);
    stack, j := space.VallocFits(THREAD_STACK_PAGES, u, 0);
    OneMore(a, c, space.Now(), 2);
    SpaceIs(space, 3);
  }

  lemma RegionSizes()
    ensures VMM_PAGES == 32 && THREAD_STACK_PAGES == 1 && HEAP_DEFAULT_BS == 16 && DivCeil(32, 4096) == 1
    ensures Page(4096) == 1 && TWO_64 == 0x1_0000_0000_0000_0000
  {}

  /** An address space about to be set up. */
  lemma NewSpace(space: Vmm.AddressSpace, tree: Tree)
    requires space.kmem.Valid() && space.kmem.Space(space.p4, tree) && space.tree == tree && space.p4 % PAGE_SIZE == 0
    requires space.flags == 7 && space.bm.base == 4096
    ensures space.Mapped() && space.First() == 1 && space.Now() == space.kmem.System(tree)
  {
    hide Kmem.Valid, Kmem.Space;
  }

  lemma UniverseIs(space: Vmm.AddressSpace, u: set<Slot>)
    requires space.bm.bsize > 0 && space.bm.Blocks() == 32 && space.First() == 1
    requires Paths(Pages(0, space.kmem.memPages)) <= u && Paths(Pages(1, 32)) <= u
    ensures space.Universe(u)
  {
    hide Paths, Pages;
  }

  /** The ids of the region are in its first page, through a frame that was free. */
  lemma IdsPage(space: Vmm.AddressSpace, a: Sys)
    requires space.Valid() && space.First() == 1 && space.bm.Blocks() == 32 == |space.bm.Ids()| && space.flags == 7
    requires forall j: nat :: j < 32 ==> space.bm.Ids()[j] == if j < space.bm.Meta() then 1 else 0
    requires Vmm.TookPages(a, space.Now(), 1, {}, true, 0, 1) && Vmm.Wrote(a, space.Now(), 1, {}, true, 0, 1, 7)
    ensures Vmm.Gave(a, space.Now(), 1, {}, Pages(0, 1)) && Vmm.Live(space.bm.Ids()) == Pages(0, 1)
  {
    hide *;
    RegionSizes();
    space.ValidIs();
    MetaIs(space);
    Vmm.LiveAtStart(space.bm.Ids(), 1);
    NothingMoved(a, space.Now());
    Flags();
    Vmm.TookGave(a, space.Now(), 1, {}, 0, 1, 7);
  }

  lemma MetaIs(space: Vmm.AddressSpace)
    requires space.Region() && space.bm.Blocks() == 32
    ensures space.bm.bsize > 0 && space.bm.Meta() == 1
  {
    RegionSizes();
    assert space.bm.size / 4096 == 32;
    hide BlockBitmap.Bitmap.Valid;
    assert DivCeil(32, 4) == 8 && DivCeil(8, 4096) == 1;
  }

  lemma NothingMoved(a: Sys, b: Sys)
    ensures Vmm.Unmoved(a, b, 1, {})
  {}

  /** The first n blocks of the region are taken: the next is the first fit for one page. */
  lemma SpaceIs(space: Vmm.AddressSpace, n: nat)
    requires space.Valid() && Vmm.Live(space.bm.Ids()) == Pages(0, n) && n < 32 && space.bm.Blocks() == 32
    requires space.bm.base == 4096
    ensures !BlockIds.NoFit(space.bm.Ids(), 1) && Vmm.FirstFit(space.bm.Ids(), 1, 0) == n
    ensures space.bm.Address(n) == 4096 + n * 4096 && space.bm.bsize > 0
    ensures Pages(0, n) + Pages(n, 1) == Pages(0, n + 1)
  {
    hide *;
    space.ValidIs();
    space.RegionIs();
    Flags();
    NextFits(space.bm.Ids(), n);
    AddressIs(space, n);
    PagesNext(n);
  }

  lemma PagesNext(n: nat)
    ensures Pages(0, n) + Pages(n, 1) == Pages(0, n + 1)
  {}

  lemma AddressIs(space: Vmm.AddressSpace, n: nat)
    requires space.bm.bsize == 4096 && space.bm.base == 4096
    ensures space.bm.Address(n) == 4096 + n * 4096
  {}

  lemma NextFits(ids: BlockIds.Ids, n: nat)
    requires Vmm.Live(ids) == Pages(0, n) && n < |ids|
    ensures !BlockIds.NoFit(ids, 1) && Vmm.FirstFit(ids, 1, 0) == n
  {
    assert n !in Vmm.Live(ids);
    assert BlockIds.Fits(ids, n, 1);
    forall j: nat | j < n ensures !BlockIds.Fits(ids, j, 1) {
      assert j in Pages(0, n);
      assert j in Vmm.Live(ids);
    }
  }

  lemma OneMore(a: Sys, b: Sys, c: Sys, n: nat)
    requires Vmm.Gave(a, b, 1, {}, Pages(0, n)) && Vmm.Gave(b, c, 1, Pages(0, n), Pages(n, 1))
    ensures Vmm.Gave(a, c, 1, {}, Pages(0, n + 1))
  {
    hide Vmm.Gave;
    assert {} + Pages(0, n) == Pages(0, n);
    Vmm.GaveTrans(a, b, c, 1, {}, Pages(0, n), Pages(n, 1));
    PagesNext(n);
  }

  /** The heap of a new thread: 4048 bytes after the header at address 8192, in 253 blocks of 16 bytes, of
      which the first four hold the ids. */
  ghost predicate HeapMade(heap: BlockBitmap.Bitmap)
    reads heap, heap.bm
  {
    && heap.Valid() && heap.version == BlockIds.Repaired
    && heap.base == 8240 && heap.size == 4048 && heap.bsize == 16 && heap.used == heap.ffa == 4
    && heap.Blocks() == 253 && forall j: nat :: j < 253 ==> heap.Ids()[j] == if j < 4 then 1 else 0
  }

  lemma HeapIsMade(heap: BlockBitmap.Bitmap)
    requires heap.Valid() && heap.version == BlockIds.Repaired && heap.Sized()
    requires heap.base == 8240 && heap.size == 4048 && heap.bsize == 16 && heap.used == heap.ffa == heap.Meta()
    requires forall j: nat :: j < heap.Blocks() ==> heap.Ids()[j] == if j < heap.Meta() then 1 else 0
    ensures HeapMade(heap)
  {
    RegionSizes();
    assert DivCeil(253, 4) == 64 && DivCeil(64, 16) == 4;
    hide BlockBitmap.Bitmap.Valid;
  }

  // ---- init_thread_vmm as a whole -----------------------------------------------------------------

  /** Everything but the thread's own region; z is the state with the empty root table. */
  method BuildSpace(kmem: Kmem, c: Config, ghost k: Sys, ghost u: set<Slot>)
    returns (p4: nat, ghost tree: Tree, ghost z: Sys)
    requires kmem.Valid() && k == kmem.System(k.tree) && Fits(c, k, u) && InBitmap(kmem, c.fb, c.fbPages)
    modifies kmem`mem, kmem`free, kmem.bitmap
    ensures Builds(kmem, p4, tree, k, u, 3)
    ensures p4 % PAGE_SIZE == 0 && p4 / PAGE_SIZE in k.free && z.free == k.free - {p4 / PAGE_SIZE}
    ensures forall q: nat :: Leaf(z, q) == 0
    ensures Maps(z, kmem.System(tree), WholeMap(c, k, p4))
  {
    hide *;
    Flags();
    FitsAll(c, k, u);
    p4, tree, z := InitRoot(kmem, k, u, 3);
    StackMapped(c);
    ghost var a := kmem.System(tree);
    tree := MapAddr(kmem, c.stack, VAddr(c.stack), KERNEL_PT_ENTRY, p4, tree, k, u, 3);
    MapsTrans(z, a, kmem.System(tree), map[p4 / PAGE_SIZE := Or(AlignAddr(p4), 3)], StackMap(c));
    a := kmem.System(tree);
    tree := MapKernelSide(kmem, c, p4, tree, k, u, 3);
    MapsTrans(z, a, kmem.System(tree), map[p4 / PAGE_SIZE := Or(AlignAddr(p4), 3)] + StackMap(c), SideMap(c, k));
    WholeMapIs(c, k, p4);
  }

  /** The stack's mapping in map_addr's words. */
  lemma StackMapped(c: Config)
    requires c.stack < TWO_64
    ensures StackMap(c) ==
            if c.stack == 0 || VAddr(c.stack) == 0 then map[] else map[Page(VAddr(c.stack)) := Or(AlignAddr(c.stack), 3)]
  {
    HigherHalf(c.stack);
    hide VAddr, AlignAddr, Or;
  }

  /** The page of a physical address in the higher half. */
  lemma StackPageIs(c: Config)
    requires 0 < c.stack < 0x8000_0000_0000
    ensures StackPages(c) == {c.stack / 4096 + 0x8_0000_0000}
  {
    PAddrUndoesVAddr(c.stack);
    HigherPage(c.stack);
    hide VAddr, Page;
  }

  lemma HigherPage(a: nat)
    requires a < 0x8000_0000_0000
    ensures Page(a + HIGHER_HALF_OFFSET) == a / 4096 + 0x8_0000_0000
  {
    var n := a / 4096;
    assert (a + 0xFFFF_8000_0000_0000) / 4096 == n + 0xF_FFF8_0000_0000;
    assert n + 0xF_FFF8_0000_0000 == (n + 0x8_0000_0000) + 0xFFFF * 0x10_0000_0000;
  }

  lemma WholeMapIs(c: Config, k: Sys, p4: nat)
    ensures WholeMap(c, k, p4) == map[p4 / PAGE_SIZE := Or(AlignAddr(p4), 3)] + StackMap(c) + SideMap(c, k)
  {
    hide AlignAddr, Or, StackMap, SideMap, HeapFits;
  }

  /** Before the region is set up, its pages name no frame past the end of memory. */
  lemma RegionTame(z: Sys, a: Sys, c: Config, k: Sys, u: set<Slot>, p4: nat)
    requires Fits(c, k, u)
    requires Maps(z, a, WholeMap(c, k, p4)) && (forall q: nat :: Leaf(z, q) == 0) && a.limit == k.limit
    requires p4 % PAGE_SIZE == 0 && p4 / PAGE_SIZE in k.free && z.free == k.free - {p4 / PAGE_SIZE}
    ensures Vmm.Tame(a, 1, 32)
  {
    hide *;
    Flags();
    FitsAll(c, k, u);
    forall j: nat | j < 32 ensures Vmm.FrameOf(a, 1, j) < a.limit {
      var q := 1 + j;
      WholeIs(c, k, p4, q);
      LatestIs(c, k, p4, q, HeapAll(c.heap, |c.heap|));
      OutsideAll(c, k, u, q);
      RegionLeaf(z, a, WholeMap(c, k, p4), q);
      SmallFrames(k, a, q, p4);
      FrameIs(a, j);
    }
    MakeTame(a);
  }

  lemma FrameIs(a: Sys, j: nat)
    ensures Vmm.FrameOf(a, 1, j) == Frame(Leaf(a, 1 + j))
  {}

  lemma MakeTame(a: Sys)
    requires forall j: nat :: j < 32 ==> Vmm.FrameOf(a, 1, j) < a.limit
    ensures Vmm.Tame(a, 1, 32)
  {
    hide Vmm.FrameOf;
  }

  lemma RegionLeaf(z: Sys, a: Sys, over: map<nat, nat>, q: nat)
    requires Maps(z, a, over) && (forall q: nat :: Leaf(z, q) == 0) && q < PAGES
    ensures q !in z.free ==> Leaf(a, q) == if q in over then over[q] else 0
    ensures q in z.free && q !in over ==> Leaf(a, q) == 0 || Leaf(a, q) == q * PAGE_SIZE + KERNEL_PT_ENTRY
  {
    hide Leaf;
  }

  lemma OutsideAll(c: Config, k: Sys, u: set<Slot>, q: nat)
    requires Fits(c, k, u)
    requires 1 <= q < 33
    ensures q !in BitmapPages(c) && q !in HeapAll(c.heap, |c.heap|) && q !in LapicPages(c) && q !in FbPages(c)
    ensures q !in ImagePages(c.ke, |c.ke|) && q !in StackPages(c) && q < PAGES
  {
    FitsAll(c, k, u);
    hide Fits, BitmapPages, HeapAll, LapicPages, FbPages, ImagePages, StackPages, HeapFits, EntryFits, Loaded;
    assert q in Pages(1, 32);
    assert q !in KernelPages(c);
  }

  lemma SmallFrames(k: Sys, a: Sys, q: nat, p4: nat)
    requires PageTree.Valid(k) && p4 % PAGE_SIZE == 0 && p4 / PAGE_SIZE in k.free && q < PAGES && a.limit == k.limit
    ensures Frame(0) < a.limit && Frame(Or(AlignAddr(p4), 3)) < a.limit
    ensures q in k.free ==> Frame(q * PAGE_SIZE + KERNEL_PT_ENTRY) < a.limit
  {
    hide *;
    Flags();
    FreeSmall(k, p4 / PAGE_SIZE);
    FrameAddress(p4 / PAGE_SIZE);
    EntryFrame(p4 / PAGE_SIZE);
    EntryFrame(q);
  }

  lemma EntryFrame(f: nat)
    requires f < PAGES
    ensures Frame(f * PAGE_SIZE + KERNEL_PT_ENTRY) == f && Frame(0) == 0
  {
    Mmu.FrameBits(f, 3);
  }

  /** The pages 1, 2 and 3 of the thread lead to three frames of their own, which were free and are not page
      tables, to be read and written by user code. */
  ghost predicate OwnPages(m: Memory, root: nat, frames: seq<nat>, was: set<nat>, now: set<nat>, tables: set<nat>) {
    && |frames| == 3 && frames[0] != frames[1] && frames[0] != frames[2] && frames[1] != frames[2]
    && (forall i: nat :: i < 3 ==> Mmu.Walk(m, root, 1 + i) == Mmu.Access(frames[i], true, true))
    && (forall i: nat :: i < 3 ==> frames[i] in was && frames[i] !in now && frames[i] !in tables)
  }

  /** Every other page that is not numbered like a free frame. */
  ghost predicate OtherPages(m: Memory, c: Config, k: Sys, p4: nat)
  {
    forall q: nat :: q < 0x10_0000_0000 && (q !in k.free || q == p4 / 4096) && !(1 <= q <= 3) ==>
      Mmu.Walk(m, p4 / 4096, q) == Wanted(c, k, p4, q)
  }

  lemma MakeOwn(space: Vmm.AddressSpace, a: Sys, k: Sys) returns (frames: seq<nat>)
    requires space.Valid() && space.flags == 7 && space.First() == 1 && Vmm.Live(space.bm.Ids()) == Pages(0, 3)
    requires Vmm.Gave(a, space.Now(), 1, {}, Pages(0, 3)) && a.free <= k.free && Mmu.Linking(space.Now(), true)
    ensures OwnPages(space.kmem.mem, space.p4 / 4096, frames, k.free, space.kmem.free, Tables(space.Now()))
  {
    hide *;
    var b := space.Now();
    space.ValidIs();
    frames := [Vmm.FrameOf(b, 1, 0), Vmm.FrameOf(b, 1, 1), Vmm.FrameOf(b, 1, 2)];
    ThreeBlocks(a, b);
    SystemIs(space.kmem, space.tree);
    NowIs(space);
    forall i: nat | i < 3
      ensures Mmu.Walk(space.kmem.mem, space.p4 / 4096, 1 + i) == Mmu.Access(frames[i], true, true)
    {
      InThree(i);
      space.PagesReached(i);
    }
    IsOwn(space.kmem.mem, space.p4 / 4096, frames, k.free, space.kmem.free, Tables(b));
  }

  lemma NowIs(space: Vmm.AddressSpace)
    ensures space.Now() == space.kmem.System(space.tree)
  {}

  lemma InThree(i: nat)
    ensures i < 3 <==> i in Pages(0, 3)
  {}

  lemma ThreeBlocks(a: Sys, b: Sys)
    requires Vmm.Gave(a, b, 1, {}, Pages(0, 3)) && Vmm.Backed(b, 1, Pages(0, 3))
    ensures forall i: nat :: i < 3 ==>
              var f := Vmm.FrameOf(b, 1, i); f in a.free && f !in b.free && f !in Tables(b)
    ensures forall i: nat, j: nat :: i < j < 3 ==> Vmm.FrameOf(b, 1, i) != Vmm.FrameOf(b, 1, j)
  {
    hide Vmm.FrameOf, Leaf, Vmm.LinksStay, Vmm.Unmoved, Tables, Vmm.PagesOf;
  }

  lemma IsOwn(m: Memory, root: nat, frames: seq<nat>, was: set<nat>, now: set<nat>, tables: set<nat>)
    requires |frames| == 3 && frames[0] != frames[1] && frames[0] != frames[2] && frames[1] != frames[2]
    requires forall i: nat :: i < 3 ==> Mmu.Walk(m, root, 1 + i) == Mmu.Access(frames[i], true, true)
    requires forall i: nat :: i < 3 ==> frames[i] in was && frames[i] !in now && frames[i] !in tables
    ensures OwnPages(m, root, frames, was, now, tables)
  {
    hide Mmu.Walk;
  }

  lemma MakeOthers(space: Vmm.AddressSpace, z: Sys, a: Sys, c: Config, k: Sys, u: set<Slot>)
    requires Fits(c, k, u)
    requires space.Valid() && Mmu.Linking(space.Now(), true) && Vmm.Gave(a, space.Now(), 1, {}, Pages(0, 3))
    requires Maps(z, a, WholeMap(c, k, space.p4)) && (forall q: nat :: Leaf(z, q) == 0)
    requires space.p4 % PAGE_SIZE == 0 && space.p4 / PAGE_SIZE in k.free && z.free == k.free - {space.p4 / PAGE_SIZE}
    ensures OtherPages(space.kmem.mem, c, k, space.p4)
  {
    hide *;
    var b, p4 := space.Now(), space.p4;
    Flags();
    FitsAll(c, k, u);
    space.ValidIs();
    space.RootIs();
    space.MappedFirst();
    FreeSmall(k, p4 / PAGE_SIZE);
    forall q: nat | q < 0x10_0000_0000 && (q !in k.free || q == p4 / 4096) && !(1 <= q <= 3)
      ensures Mmu.Walk(space.kmem.mem, p4 / 4096, q) == Wanted(c, k, p4, q)
    {
      NotOwn(q);
      MappedLeaf(z, a, b, WholeMap(c, k, p4), Pages(0, 3), q);
      WholeGrants(c, k, u, p4, q);
      Mmu.WalkIs(b, q, true);
    }
    AreOthers(space.kmem.mem, c, k, p4);
  }

  lemma FreeSmall(k: Sys, f: nat)
    requires PageTree.Valid(k) && f in k.free
    ensures f < PAGES && forall g :: g in k.free ==> 0 < g < k.limit
  {}

  lemma NotOwn(q: nat)
    requires !(1 <= q <= 3)
    ensures q !in Vmm.PagesOf(1, Pages(0, 3))
  {}

  lemma AreOthers(m: Memory, c: Config, k: Sys, p4: nat)
    requires forall q: nat :: q < 0x10_0000_0000 && (q !in k.free || q == p4 / 4096) && !(1 <= q <= 3) ==>
               Mmu.Walk(m, p4 / 4096, q) == Wanted(c, k, p4, q)
    ensures OtherPages(m, c, k, p4)
  {
    hide Mmu.Walk, Wanted, HeapFits;
  }

  /** Setting up the region leaves the kernel's space alone. */
  lemma KernelKept(a: Sys, b: Sys, k: Sys, u: set<Slot>)
    requires Stage(a, k, u, 3) && Vmm.Gave(a, b, 1, {}, Pages(0, 3))
    ensures Mmu.Linking(b, true) && a.free <= k.free
    ensures Valid(KernelIn(b, k.tree)) && forall q: nat :: Leaf(KernelIn(b, k.tree), q) == Leaf(k, q)
  {
    hide *;
    StageIs(a, k, u, 3);
    GaveIs(a, b, Pages(0, 3));
    KernelApart(a, b, k);
    SameWords(a, b, k.tree);
    forall q: nat ensures Leaf(KernelIn(b, k.tree), q) == Leaf(k, q) {
      assert Leaf(KernelIn(b, k.tree), q) == Leaf(KernelIn(a, k.tree), q);
    }
  }

  lemma GaveIs(a: Sys, b: Sys, own: set<nat>)
    requires Vmm.Gave(a, b, 1, {}, own)
    ensures Untouched(a, b) && b.limit == a.limit && b.link == a.link && b.free <= a.free
    ensures Tables(b) <= Tables(a) + a.free && (Mmu.Linking(a, true) ==> Mmu.Linking(b, true))
  {
    hide Leaf, Tables, Untouched, Mmu.Linking, Mmu.Writing, Vmm.Unmoved;
  }

  lemma KernelApart(a: Sys, b: Sys, k: Sys)
    requires Valid(KernelIn(a, k.tree)) && k.tree.Values !! Tables(a) && Tables(b) <= Tables(a) + a.free
    ensures forall s :: s in k.tree ==> k.tree[s] !in Tables(b)
  {
    hide Tables;
    forall s | s in k.tree ensures k.tree[s] !in Tables(b) {
      assert k.tree[s] in k.tree.Values;
      assert KernelIn(a, k.tree).tree[s] == k.tree[s];
    }
  }

  /** The whole construction, as the processor sees it: the thread's ids, heap and stack pages are backed by
      fresh frames of their own; everything shared with the kernel is where the kernel has it, with the
      rights it should have; nothing else is mapped; and the kernel's space is unchanged. */
  method InitThreadVmm(kmem: Kmem, c: Config, ghost k: Sys, ghost u: set<Slot>)
    returns (space: Vmm.AddressSpace, heap: BlockBitmap.Bitmap, stack: nat, ghost frames: seq<nat>)
    requires kmem.Valid() && k == kmem.System(k.tree) && Fits(c, k, u) && InBitmap(kmem, c.fb, c.fbPages)
    modifies kmem`mem, kmem`free, kmem.bitmap
    ensures fresh(space) && space.kmem == kmem && space.Valid() && space.Secure() && Vmm.EnoughFor(space.Now(), u, 0)
    ensures fresh(heap) && HeapMade(heap) && stack == 12288
    ensures OwnPages(kmem.mem, space.p4 / 4096, frames, old(kmem.free), kmem.free, Tables(space.Now()))
    ensures OtherPages(kmem.mem, c, k, space.p4)
    ensures PageTree.Valid(kmem.System(k.tree)) && forall q: nat :: Leaf(kmem.System(k.tree), q) == Leaf(k, q)
  {
    hide *;
    FitsAll(c, k, u);
    SystemIs(kmem, k.tree);
    var p4;
    ghost var tree, z;
    p4, tree, z := BuildSpace(kmem, c, k, u);
    ghost var a := kmem.System(tree);
    BuildsReady(kmem, p4, tree, k, u, 3);
    StageIs(a, k, u, 3);
    RegionTame(z, a, c, k, u, p4);
    space, heap, stack := ThreadRegion(kmem, p4, tree, k, u);
    KernelKept(a, space.Now(), k, u);
    frames := MakeOwn(space, a, k);
    MakeOthers(space, z, a, c, k, u);
    NowIs(space);
    KernelSystem(kmem, space.tree, k.tree);
  }

  lemma KernelSystem(kmem: Kmem, tree: Tree, kernel: Tree)
    ensures KernelIn(kmem.System(tree), kernel) == kmem.System(kernel)
  {}
}
