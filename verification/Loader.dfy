/** src/boot/loader.c: where the segments of the kernel image go.  The file's contents are not
    modelled; the pages that AllocatePages returns for a segment are given. */
module Loader {
  import opened Bits
  import opened KernelH
  import opened PageTree
  import Boot
  import Mmu

  const PT_LOAD: nat := 1

  datatype ProgramHeader = ProgramHeader(kind: nat, vaddr: nat, memsz: nat)

  /** EFI_SIZE_TO_PAGES. */
  function SizeToPages(size: nat): nat {
    size / PAGE_SIZE + if size % PAGE_SIZE != 0 then 1 else 0
  }

  function SegmentPages(vaddr: nat, memsz: nat): nat {
    SizeToPages(vaddr % PAGE_SIZE + memsz)
  }

  /** The pages of a segment are exactly those its bytes lie in: byte i lies in one of them, and the
      last byte in the last. */
  lemma PagesAreThoseOfBytes(vaddr: nat, memsz: nat, i: nat)
    requires i < memsz
    ensures var j := (vaddr + i) / PAGE_SIZE - vaddr / PAGE_SIZE;
            && 0 <= j < SegmentPages(vaddr, memsz)
            && (i == memsz - 1 ==> j == SegmentPages(vaddr, memsz) - 1)
  {
    var o := vaddr % PAGE_SIZE;
    assert (vaddr + i) / PAGE_SIZE == vaddr / PAGE_SIZE + (o + i) / PAGE_SIZE;
    var size := o + memsz;
    assert o + i <= size - 1;
  }

  /** A segment of n pages that does not wrap, whose pages are not numbered like pages the firmware
      still has. */
  ghost predicate SegmentFits(a: Sys, u: set<Slot>, vaddr: nat, n: nat, segment: nat) {
    && segment % PAGE_SIZE == 0 && segment + n * PAGE_SIZE <= 0x10_0000_0000_0000
    && vaddr + n * PAGE_SIZE <= TWO_64 && Page(vaddr) + n <= PAGES
    && Paths(Pages(Page(vaddr), n)) <= u && Pages(Page(vaddr), n) !! a.free
  }

  ghost predicate Ready(boot: Boot.Loader, p4: nat, tree: Tree, u: set<Slot>)
    reads boot
  {
    boot.Space(p4, tree) && Enough(boot.System(tree), u)
  }

  /** Each page of a segment has the entry of its own page of memory, for the supervisor. */
  ghost predicate Placed(e: KernelEntry, a: Sys) {
    forall q {:trigger Leaf(a, q)} :: q in EntryPages(e) ==>
      Leaf(a, q) == e.paddr + (q - Page(e.vaddr)) * PAGE_SIZE + KERNEL_PT_ENTRY
  }

  /** The processor finds byte i of a segment at vaddr + i, on the page that holds it, writable and for the
      supervisor. */
  lemma BytesFound(a: Sys, u: set<Slot>, vaddr: nat, memsz: nat, segment: nat, i: nat)
    requires SegmentFits(a, u, vaddr, SegmentPages(vaddr, memsz), segment) && i < memsz
    requires Valid(a) && Mmu.Linking(a, false) && Placed(KernelEntry(vaddr, segment, SegmentPages(vaddr, memsz)), a)
    ensures ROOT in a.tree && Mmu.Walk(a.mem, a.tree[ROOT], (vaddr + i) / 4096 % 0x10_0000_0000) ==
                              Mmu.Access((segment + vaddr % 4096 + i) / 4096, true, false)
    ensures (segment + vaddr % 4096 + i) % 4096 == (vaddr + i) % 4096
  {
    hide *;
    PagesAreThoseOfBytes(vaddr, memsz, i);
    FitsAre(a, u, vaddr, SegmentPages(vaddr, memsz), segment);
    var n, j := SegmentPages(vaddr, memsz), (vaddr + i) / PAGE_SIZE - vaddr / PAGE_SIZE;
    PageAt(vaddr, i, j, n);
    ByteAt(vaddr, segment, i, j);
    PlacedAt(KernelEntry(vaddr, segment, n), a, j);
    Mmu.WalkIs(a, Page(vaddr) + j, false);
    PlacedGrants(segment, j, n);
    PageIs(vaddr + i);
  }

  lemma FitsAre(a: Sys, u: set<Slot>, vaddr: nat, n: nat, segment: nat)
    requires SegmentFits(a, u, vaddr, n, segment)
    ensures segment % PAGE_SIZE == 0 && segment + n * PAGE_SIZE <= 0x10_0000_0000_0000 && Page(vaddr) + n <= PAGES
    ensures PAGE_SIZE == 4096
  {}

  lemma PageIs(a: nat)
    ensures Page(a) == a / 4096 % 0x10_0000_0000
  {}

  lemma ByteAt(vaddr: nat, segment: nat, i: nat, j: nat)
    requires segment % 4096 == 0 && j == (vaddr + i) / 4096 - vaddr / 4096
    ensures (segment + vaddr % 4096 + i) / 4096 == segment / 4096 + j
    ensures (segment + vaddr % 4096 + i) % 4096 == (vaddr + i) % 4096
  {}

  lemma PlacedAt(e: KernelEntry, a: Sys, j: nat)
    requires Placed(e, a) && j < e.numPages
    ensures Leaf(a, Page(e.vaddr) + j) == e.paddr + j * PAGE_SIZE + KERNEL_PT_ENTRY
  {
    hide Leaf, Page;
    assert Page(e.vaddr) + j in EntryPages(e);
  }

  lemma PlacedGrants(segment: nat, j: nat, n: nat)
    requires segment % PAGE_SIZE == 0 && j < n && segment + n * PAGE_SIZE <= 0x10_0000_0000_0000
    ensures Mmu.Grants(segment + j * PAGE_SIZE + KERNEL_PT_ENTRY, false) == Mmu.Access(segment / 4096 + j, true, false)
  {
    var f := segment / 4096 + j;
    assert segment + j * PAGE_SIZE == f * PAGE_SIZE;
    assert (j + 1) * PAGE_SIZE <= n * PAGE_SIZE;
    hide Mmu.Grants;
    Mmu.FlagBits(f, 3);
    Mmu.FrameBits(f, 3);
    GrantsIs(f);
  }

  lemma GrantsIs(f: nat)
    requires f < 0x100_0000_0000
    requires (f * PAGE_SIZE + 3) % 2 == 1 && (f * PAGE_SIZE + 3) / 2 % 2 == 1 && (f * PAGE_SIZE + 3) / 4096 == f
    ensures Mmu.Grants(f * PAGE_SIZE + 3, false) == Mmu.Access(f, true, false)
  {}

  lemma PageAt(vaddr: nat, i: nat, j: nat, n: nat)
    requires j == (vaddr + i) / PAGE_SIZE - vaddr / PAGE_SIZE && j < n && Page(vaddr) + n <= PAGES
    ensures Page(vaddr + i) == Page(vaddr) + j
  {
    var q := vaddr / PAGE_SIZE;
    assert q == q / PAGES * PAGES + q % PAGES;
    assert (q + j) / PAGES == q / PAGES;
  }

  lemma RangeLoads(a: Sys, b: Sys, slots: set<Slot>, e: KernelEntry)
    requires Extends(a, b, slots, RangeMap(Page(e.vaddr), e.numPages, e.paddr, KERNEL_PT_ENTRY))
    requires e.paddr % PAGE_SIZE == 0 && e.paddr + e.numPages * PAGE_SIZE <= 0x10_0000_0000_0000
    requires Page(e.vaddr) + e.numPages <= PAGES
    ensures Placed(e, b)
  {
    hide Extends, Or, AlignAddr, Frame, Leaf, Page;
    var v, over := Page(e.vaddr), RangeMap(Page(e.vaddr), e.numPages, e.paddr, KERNEL_PT_ENTRY);
    forall q | q in EntryPages(e) ensures Leaf(b, q) == e.paddr + (q - v) * PAGE_SIZE + KERNEL_PT_ENTRY {
      var p := e.paddr + (q - v) * PAGE_SIZE;
      assert q in over && over[q] == Or(p, KERNEL_PT_ENTRY);
      LeafAfter(a, b, slots, over, q);
      EntryIs(p, KERNEL_PT_ENTRY);
    }
  }

  /** Mapping elsewhere keeps a segment in place. */
  lemma StaysPlaced(a: Sys, b: Sys, slots: set<Slot>, over: map<nat, nat>, e: KernelEntry)
    requires Extends(a, b, slots, over) && Placed(e, a) && Page(e.vaddr) + e.numPages <= PAGES
    requires EntryPages(e) !! a.free && EntryPages(e) !! over.Keys
    ensures Placed(e, b)
  {
    assert Taken(a, b) <= a.free;
    hide Extends, AlignAddr, Leaf, Page, Frame, Taken;
    forall q | q in EntryPages(e) ensures Leaf(b, q) == Leaf(a, q) {
      LeafAfter(a, b, slots, over, q);
    }
  }

  /** So the entry's pages translate as its record says. */
  lemma PlacedLoads(e: KernelEntry, a: Sys)
    requires Placed(e, a) && e.paddr % PAGE_SIZE == 0 && e.paddr + e.numPages * PAGE_SIZE <= 0x10_0000_0000_0000
    ensures Loaded(e, a)
  {
    hide AlignAddr, Leaf, Page;
    Small();
    AlignAddrIs(e.paddr);
    forall q | q in EntryPages(e) ensures Translation(a, q) == AlignAddr(e.paddr) + (q - Page(e.vaddr)) * PAGE_SIZE {
      var j := q - Page(e.vaddr);
      FrameFound(e.paddr, j, e.numPages);
      assert Leaf(a, q) == e.paddr + j * PAGE_SIZE + KERNEL_PT_ENTRY;
    }
  }

  lemma Small()
    ensures 0x10_0000_0000_0000 < TWO_64
  {}

  lemma FrameFound(paddr: nat, j: nat, n: nat)
    requires paddr % PAGE_SIZE == 0 && j < n && paddr + n * PAGE_SIZE <= 0x10_0000_0000_0000
    ensures Frame(paddr + j * PAGE_SIZE + KERNEL_PT_ENTRY) * PAGE_SIZE == paddr + j * PAGE_SIZE
  {
    var f := paddr / PAGE_SIZE + j;
    assert paddr + j * PAGE_SIZE == f * PAGE_SIZE;
    assert (j + 1) * PAGE_SIZE <= n * PAGE_SIZE;
    Mmu.FrameBits(f, KERNEL_PT_ENTRY);
  }

  lemma PageGiven(a: Sys, u: set<Slot>, vaddr: nat, n: nat, segment: nat, i: nat)
    requires SegmentFits(a, u, vaddr, n, segment) && i < n
    ensures AlignAddr(segment + PAGE_SIZE * i) == segment + i * PAGE_SIZE
    ensures Page(AlignAddr(vaddr + PAGE_SIZE * i)) == Page(vaddr) + i
    ensures Path(Page(vaddr) + i) <= u && Pages(Page(vaddr), i) !! a.free
  {
    hide Path, Paths, Page, AlignAddr;
    var v := Page(vaddr);
    assert v + i in Pages(v, n) && Pages(v, i) <= Pages(v, n);
    PathInPaths(v + i, Pages(v, n));
    assert segment + (i + 1) * PAGE_SIZE <= segment + n * PAGE_SIZE;
    assert vaddr + (i + 1) * PAGE_SIZE <= vaddr + n * PAGE_SIZE;
    PageOfRange(segment, vaddr, i);
    AlignAddrIs(segment);
    AlignedPage(vaddr + PAGE_SIZE * i);
  }

  lemma AlignedPage(a: nat)
    requires a < TWO_64
    ensures Page(AlignAddr(a)) == Page(a)
  {
    AlignAddrIs(a);
  }

  lemma ReadyIs(boot: Boot.Loader, p4: nat, tree: Tree, u: set<Slot>)
    ensures Ready(boot, p4, tree, u) <==> boot.Space(p4, tree) && Enough(boot.System(tree), u)
    ensures boot.Space(p4, tree) ==> Valid(boot.System(tree))
    ensures boot.System(tree).link == KERNEL_PT_ENTRY
  {
    hide Valid, Enough;
  }

  lemma StepDone(a: Sys, b: Sys, slots: set<Slot>, over: map<nat, nat>, status: Boot.Status)
    requires Boot.Done(a, b, slots, over, status) && status == Boot.Success
    ensures Extends(a, b, slots, over)
  {}

  /** LoadSegment: the record it leaves, and the mapping of the segment's pages to the allocated ones.
      The statuses of the single mappings are ignored. */
  method LoadSegment(boot: Boot.Loader, vaddr: nat, memsz: nat, segment: nat, p4: nat, ghost tree: Tree,
                     ghost u: set<Slot>)
    returns (entry: KernelEntry, ghost tree': Tree)
    requires p4 % PAGE_SIZE == 0 && vaddr < TWO_64 && segment < TWO_64
    modifies boot`mem, boot`supply
    ensures entry == KernelEntry(vaddr, segment, SegmentPages(vaddr, memsz))
    ensures old(Ready(boot, p4, tree, u) && SegmentFits(boot.System(tree), u, vaddr, entry.numPages, segment)) ==>
              && Ready(boot, p4, tree', u)
              && Extends(old(boot.System(tree)), boot.System(tree'), Paths(Pages(Page(vaddr), entry.numPages)),
                         RangeMap(Page(vaddr), entry.numPages, segment, KERNEL_PT_ENTRY))
  {
    var numPages := SegmentPages(vaddr, memsz);
    entry := KernelEntry(vaddr, segment, numPages);
    hide *;
    ghost var a, v := boot.System(tree), Page(vaddr);
    ghost var ready := Ready(boot, p4, tree, u) && SegmentFits(a, u, vaddr, numPages, segment);
    tree' := tree;
    ReadyIs(boot, p4, tree, u);
    if ready {
      ExtendsSelf(a, {});
      RangeNone(v, segment, KERNEL_PT_ENTRY);
    }
    for i := 0 to numPages
      invariant ready ==> Ready(boot, p4, tree', u)
      invariant ready ==> Extends(a, boot.System(tree'), Paths(Pages(v, i)), RangeMap(v, i, segment, KERNEL_PT_ENTRY))
    {
      ghost var b := boot.System(tree');
      ReadyIs(boot, p4, tree', u);
      if ready { PageGiven(a, u, vaddr, numPages, segment, i); }
      var from, to := AlignAddr(segment + PAGE_SIZE * i), AlignAddr(vaddr + PAGE_SIZE * i);
      var status;
      status, tree' := boot.MapAddr(from, to, p4, tree', u);
      ReadyIs(boot, p4, tree', u);
      if ready {
        ghost var e := Or(from, KERNEL_PT_ENTRY);
        StepDone(b, boot.System(tree'), Path(v + i), map[v + i := e], status);
        RangeStep(a, b, boot.System(tree'), v, i, segment, KERNEL_PT_ENTRY, v + i, e);
      }
    }
  }

  // ---- All segments -------------------------------------------------------------------------------

  /** The records of the loadable headers among the first n, when AllocatePages returned segments[k]
      for the k-th of them. */
  function Entries(headers: seq<ProgramHeader>, segments: seq<nat>, n: nat): (r: seq<KernelEntry>)
    requires n <= |headers| <= |segments|
    ensures |r| <= n
  {
    if n == 0 then []
    else
      var r := Entries(headers, segments, n - 1);
      var h := headers[n - 1];
      if h.kind != PT_LOAD then r
      else r + [KernelEntry(h.vaddr, segments[|r|], SegmentPages(h.vaddr, h.memsz))]
  }

  ghost predicate AllPlaced(entries: seq<KernelEntry>, a: Sys) {
    forall e :: e in entries ==> Placed(e, a)
  }

  /** Every segment fits, and no two share a page. */
  ghost predicate ImageFits(entries: seq<KernelEntry>, a: Sys, u: set<Slot>) {
    && (forall i :: 0 <= i < |entries| ==>
          SegmentFits(a, u, entries[i].vaddr, entries[i].numPages, entries[i].paddr) && entries[i].vaddr < TWO_64)
    && forall i, j :: 0 <= i < j < |entries| ==> EntryPages(entries[i]) !! EntryPages(entries[j])
  }

  lemma {:induction false} EntriesPrefix(headers: seq<ProgramHeader>, segments: seq<nat>, m: nat, n: nat)
    requires m <= n <= |headers| <= |segments|
    ensures Entries(headers, segments, m) <= Entries(headers, segments, n)
  {
    if m < n { EntriesPrefix(headers, segments, m, n - 1); }
  }

  /** Program headers of type 1 are loadable. */
  lemma EntriesStep(headers: seq<ProgramHeader>, segments: seq<nat>, p: nat)
    requires p < |headers| <= |segments|
    ensures var r, h := Entries(headers, segments, p), headers[p];
            Entries(headers, segments, p + 1) ==
              if h.kind == 1 then r + [KernelEntry(h.vaddr, segments[|r|], SegmentPages(h.vaddr, h.memsz))] else r
    ensures Entries(headers, segments, 0) == []
  {}

  lemma LaterFits(entries: seq<KernelEntry>, i: nat, a: Sys, b: Sys, u: set<Slot>)
    requires i < |entries| && ImageFits(entries, a, u) && b.free <= a.free
    ensures var e := entries[i]; SegmentFits(b, u, e.vaddr, e.numPages, e.paddr)
    ensures var e := entries[i]; Pages(Page(e.vaddr), e.numPages) == EntryPages(e)
  {
    FitsLater(a, b, u, entries[i].vaddr, entries[i].numPages, entries[i].paddr);
  }

  /** One more segment of an image that fits. */
  lemma OneMore(entries: seq<KernelEntry>, i: nat, a: Sys, b: Sys, c: Sys, slots: set<Slot>, u: set<Slot>)
    requires i < |entries| && ImageFits(entries, a, u) && AllPlaced(entries[..i], b) && b.free <= a.free
    requires Extends(b, c, slots, RangeMap(Page(entries[i].vaddr), entries[i].numPages,
                                           entries[i].paddr, KERNEL_PT_ENTRY))
    ensures AllPlaced(entries[..i + 1], c) && c.free <= a.free
  {
    hide Placed, Extends, SegmentFits, EntryPages, Page;
    var e := entries[i];
    var over := RangeMap(Page(e.vaddr), e.numPages, e.paddr, KERNEL_PT_ENTRY);
    FitsOne(a, u, e);
    RangeLoads(b, c, slots, e);
    forall x | x in entries[..i] ensures Placed(x, c) {
      var j :| 0 <= j < i && entries[j] == x;
      FitsOne(a, u, x);
      StaysPlaced(b, c, slots, over, x);
    }
    assert c.free <= b.free by { FreeShrinks(b, c, slots, over); }
  }

  lemma FreeShrinks(a: Sys, b: Sys, slots: set<Slot>, over: map<nat, nat>)
    requires Extends(a, b, slots, over)
    ensures b.free <= a.free
  {}

  lemma FitsOne(a: Sys, u: set<Slot>, e: KernelEntry)
    requires SegmentFits(a, u, e.vaddr, e.numPages, e.paddr)
    ensures e.paddr % PAGE_SIZE == 0 && e.paddr + e.numPages * PAGE_SIZE <= 0x10_0000_0000_0000
    ensures Page(e.vaddr) + e.numPages <= PAGES && EntryPages(e) !! a.free
    ensures EntryPages(e) == RangeMap(Page(e.vaddr), e.numPages, e.paddr, KERNEL_PT_ENTRY).Keys
  {}

  lemma FitsLater(a: Sys, b: Sys, u: set<Slot>, vaddr: nat, n: nat, segment: nat)
    requires SegmentFits(a, u, vaddr, n, segment) && b.free <= a.free
    ensures SegmentFits(b, u, vaddr, n, segment)
  {}

  /** The loop of LoadKernel over the program headers: the kernel entries it leaves are those of the
      loadable headers, in order, and the page table maps every page of every one of them. */
  method LoadSegments(boot: Boot.Loader, headers: seq<ProgramHeader>, segments: seq<nat>, p4: nat,
                      ghost tree: Tree, ghost u: set<Slot>)
    returns (ke: seq<KernelEntry>, ghost tree': Tree)
    requires p4 % PAGE_SIZE == 0 && |headers| <= |segments|
    requires (forall h :: h in headers ==> h.vaddr < TWO_64) && forall x :: x in segments ==> x < TWO_64
    modifies boot`mem, boot`supply
    ensures ke == Entries(headers, segments, |headers|)
    ensures old(Ready(boot, p4, tree, u) && ImageFits(ke, boot.System(tree), u)) ==>
              && Ready(boot, p4, tree', u) && AllPlaced(ke, boot.System(tree'))
              && (old(Mmu.Linking(boot.System(tree), false)) ==> Mmu.Linking(boot.System(tree'), false))
  {
    hide *;
    ghost var a, all := boot.System(tree), Entries(headers, segments, |headers|);
    ghost var ready := Ready(boot, p4, tree, u) && ImageFits(all, a, u);
    tree', ke := tree, [];
    NothingPlaced(a);
    NoEntries(headers, segments);
    for p := 0 to |headers|
      invariant ke == Entries(headers, segments, p)
      invariant ready ==> Ready(boot, p4, tree', u) && AllPlaced(ke, boot.System(tree'))
      invariant ready ==> boot.System(tree').free <= a.free
      invariant ready && Mmu.Linking(a, false) ==> Mmu.Linking(boot.System(tree'), false)
    {
      EntriesStep(headers, segments, p);
      Kinds();
      if headers[p].kind != PT_LOAD {
        continue;
      }
      assert headers[p] in headers && segments[|ke|] in segments;
      ghost var b := boot.System(tree');
      var entry;
      ReadyIs(boot, p4, tree', u);
      if ready {
        EntriesPrefix(headers, segments, p + 1, |headers|);
        SegmentOf(headers, segments, p, all, a, b, u);
      }
      entry, tree' := LoadSegment(boot, headers[p].vaddr, headers[p].memsz, segments[|ke|], p4, tree', u);
      if ready {
        OneMore(all, |ke|, a, b, boot.System(tree'), Paths(EntryPages(entry)), u);
        Supervises(b, boot.System(tree'), Paths(EntryPages(entry)),
                   RangeMap(Page(entry.vaddr), entry.numPages, entry.paddr, KERNEL_PT_ENTRY));
        assert all[..|ke| + 1] == ke + [entry];
      }
      ke := ke + [entry];
    }
  }

  lemma NoEntries(headers: seq<ProgramHeader>, segments: seq<nat>)
    requires |headers| <= |segments|
    ensures Entries(headers, segments, 0) == []
  {}

  lemma NothingPlaced(a: Sys)
    ensures AllPlaced([], a)
  {}

  lemma Kinds()
    ensures PT_LOAD == 1
  {}

  /** The next entry, and that it fits. */
  lemma SegmentOf(headers: seq<ProgramHeader>, segments: seq<nat>, p: nat, all: seq<KernelEntry>, a: Sys, b: Sys,
                  u: set<Slot>)
    requires p < |headers| <= |segments| && headers[p].kind == 1 && ImageFits(all, a, u) && b.free <= a.free
    requires Entries(headers, segments, p + 1) <= all
    ensures var ke, h := Entries(headers, segments, p), headers[p];
            && |ke| < |all| && all[..|ke|] == ke
            && all[|ke|] == KernelEntry(h.vaddr, segments[|ke|], SegmentPages(h.vaddr, h.memsz))
            && SegmentFits(b, u, h.vaddr, SegmentPages(h.vaddr, h.memsz), segments[|ke|])
            && Pages(Page(all[|ke|].vaddr), all[|ke|].numPages) == EntryPages(all[|ke|])
  {
    hide ImageFits, SegmentFits, SegmentPages, EntryPages, Page;
    EntriesStep(headers, segments, p);
    var ke := Entries(headers, segments, p);
    assert all[|ke|] == Entries(headers, segments, p + 1)[|ke|];
    LaterFits(all, |ke|, a, b, u);
  }

  lemma Supervises(a: Sys, b: Sys, slots: set<Slot>, over: map<nat, nat>)
    requires Valid(a) && a.link == KERNEL_PT_ENTRY && Extends(a, b, slots, over)
    ensures Mmu.Linking(a, false) ==> Mmu.Linking(b, false)
  {
    hide Valid, Extends, Mmu.Linking;
    if Mmu.Linking(a, false) { Mmu.LinkingKept(a, b, slots, over, false); }
  }
}
