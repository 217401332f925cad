/** The firmware's memory map: which frames each descriptor covers, and what the loader and the
    kernel do with the descriptors of each type. */
module MemoryMap {
  import opened Bits
  import opened KernelH
  import opened PageTree

  /** One descriptor: a 32-bit type, a page-aligned start address, and a number of pages
      (section 7.2 of the UEFI Specification). */
  datatype Descriptor = Descriptor(type_: nat, physicalStart: nat, count: nat)

  ghost predicate WellFormed(d: Descriptor) {
    && d.physicalStart % PAGE_SIZE == 0
    && d.count > 0
    && End(d) < TWO_64
  }

  function End(d: Descriptor): nat { d.physicalStart + d.count * PAGE_SIZE }

  /** The test in init_pmm, on the type cut to 8 bits. */
  predicate Usable(d: Descriptor) {
    var t := d.type_ % 256;
    t == 3 || t == 4 || t == 7
  }

  /** Frame f is in boot-services or conventional memory, types 3, 4 and 7 after the cut to 8 bits. */
  ghost predicate Released(mmap: seq<Descriptor>, f: nat) {
    exists i :: 0 <= i < |mmap| && mmap[i].type_ % 256 in {3, 4, 7}
      && mmap[i].physicalStart <= f * 4096 < mmap[i].physicalStart + mmap[i].count * 4096
  }

  /** The test in ParseMMAP, on the whole type. */
  predicate IdentityMapped(d: Descriptor) {
    d.type_ == 1 || d.type_ == 2 || d.type_ == 3 || d.type_ == 4 || d.type_ == 7 || d.type_ == 9
  }

  ghost predicate Covers(d: Descriptor, f: nat) {
    d.physicalStart / PAGE_SIZE <= f < d.physicalStart / PAGE_SIZE + d.count
  }

  /** The frames init_pmm clears for a descriptor; pmm_clear_bit ignores address 0. */
  function Area(d: Descriptor): (r: set<nat>)
    ensures forall f :: f in r <==> Covers(d, f) && f != 0
  {
    Pages(d.physicalStart / PAGE_SIZE, d.count) - {0}
  }

  /** The frames the first n descriptors free. */
  function FreedBy(mmap: seq<Descriptor>, n: nat): (r: set<nat>)
    requires n <= |mmap|
    ensures forall f: nat :: f in r <==> f != 0 && exists i :: 0 <= i < n && Usable(mmap[i]) && Covers(mmap[i], f)
  {
    if n == 0 then {}
    else if Usable(mmap[n - 1]) then FreedBy(mmap, n - 1) + Area(mmap[n - 1])
    else FreedBy(mmap, n - 1)
  }

  /** The number of frames up to the end of the highest descriptor. */
  function MemPages(mmap: seq<Descriptor>): nat {
    MaxEnd(mmap) / PAGE_SIZE
  }

  function MaxEnd(mmap: seq<Descriptor>): (m: nat)
    ensures forall i :: 0 <= i < |mmap| ==> End(mmap[i]) <= m
    ensures m == 0 || exists i :: 0 <= i < |mmap| && End(mmap[i]) == m
  {
    if mmap == [] then 0
    else
      var m := MaxEnd(mmap[..|mmap| - 1]);
      var e := End(mmap[|mmap| - 1]);
      if e > m then e else m
  }

  lemma MaxEndNone(mmap: seq<Descriptor>)
    ensures MaxEnd(mmap[..0]) == 0
  {}

  lemma MaxEndStep(mmap: seq<Descriptor>, i: nat)
    requires i < |mmap|
    ensures MaxEnd(mmap[..i + 1]) == if End(mmap[i]) > MaxEnd(mmap[..i]) then End(mmap[i]) else MaxEnd(mmap[..i])
  {
    assert mmap[..i + 1][..i] == mmap[..i];
  }

  /** The 8-byte rows of the bitmap that the loader allocates. */
  function BitmapRows(mmap: seq<Descriptor>): nat {
    DivCeil(MemPages(mmap), 64) * 8 / 8
  }

  /** Every frame of every descriptor has its bit inside that bitmap. */
  lemma BitmapCovers(mmap: seq<Descriptor>, i: nat, f: nat)
    requires i < |mmap| && Covers(mmap[i], f) && WellFormed(mmap[i]) && MaxEnd(mmap) < TWO_64
    ensures f < MemPages(mmap) <= 64 * BitmapRows(mmap)
  {
    var d := mmap[i];
    assert End(d) <= MaxEnd(mmap);
    assert f * PAGE_SIZE + PAGE_SIZE <= End(d);
    RowsCover(mmap);
  }

  lemma AreaInside(mmap: seq<Descriptor>, i: nat)
    requires i < |mmap| && WellFormed(mmap[i])
    ensures mmap[i].physicalStart / PAGE_SIZE + mmap[i].count <= MemPages(mmap)
  {
    assert End(mmap[i]) <= MaxEnd(mmap);
  }

  lemma RowsCover(mmap: seq<Descriptor>)
    requires MaxEnd(mmap) < TWO_64
    ensures MemPages(mmap) <= 64 * BitmapRows(mmap) < MemPages(mmap) + 64
  {
    DivCeilIs(MemPages(mmap), 64);
  }

  /** The row pmm_set_bit writes for a frame it does not turn away, one up to and including the number
      of frames, lies past the bitmap's end exactly for that last number when it is a multiple of 64. */
  lemma PastTheBitmap(mmap: seq<Descriptor>, f: nat)
    requires MaxEnd(mmap) < TWO_64 && f <= MemPages(mmap)
    ensures f / 64 >= BitmapRows(mmap) <==> f == MemPages(mmap) && MemPages(mmap) % 64 == 0
  {
    RowsCover(mmap);
  }

  /** 128 pages of memory are such a case. */
  lemma OnePastTheBitmap()
    ensures var mmap := [Descriptor(7, 0, 128)];
            MemPages(mmap) == 128 && BitmapRows(mmap) == 2 && 128 / 64 >= BitmapRows(mmap)
  {
    var mmap := [Descriptor(7, 0, 128)];
    assert mmap[..0] == [];
    assert MaxEnd(mmap[..0]) == 0;
  }

  /** A type that init_pmm means to free. */
  predicate MeantUsable(d: Descriptor) {
    d.type_ == 3 || d.type_ == 4 || d.type_ == 7
  }

  /** Cutting the type to 8 bits changes the answer exactly for types of 256 and more whose low 8 bits are
      one of the three usable types; 0x103 is one, and the loader does not map it. */
  lemma TypeCut(d: Descriptor)
    ensures Usable(d) != MeantUsable(d) <==> d.type_ >= 256 && d.type_ % 256 in {3, 4, 7}
    ensures Usable(Descriptor(0x103, 0, 1)) && !IdentityMapped(Descriptor(0x103, 0, 1))
  {}
}
