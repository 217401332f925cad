/** src/kernel/mem/bitmap.c: the block allocator behind the kernel heap and the virtual memory
    manager.  Its ids live in the first blocks of the byte region it hands out. */
module BlockBitmap {
  import opened Bits
  import opened KernelH
  import opened BlockIds
  import opened Options

  const BLOCKS_PER_INT: nat := 4

  /** BM_BLOCKS: the blocks taken by the ids of a region. */
  function BmBlocks(size: nat, bsize: nat): nat
    requires bsize > 0
  {
    DivCeil(DivCeil(size / bsize, BLOCKS_PER_INT), bsize)
  }

  /** The blocks set aside are the fewest whose bytes hold every id, four to a byte, and they fit in the
      region. */
  lemma MetadataCovers(size: nat, bsize: nat)
    requires 0 < bsize < TWO_64 / 2 && size < TWO_64 / 2
    ensures size / bsize <= 4 * (BmBlocks(size, bsize) * bsize)
    ensures BmBlocks(size, bsize) > 0 ==> 4 * ((BmBlocks(size, bsize) - 1) * bsize) < size / bsize
    ensures BmBlocks(size, bsize) <= size / bsize
    ensures size / bsize <= size && size / bsize * bsize <= size
  {
    hide DivCeil;
    var blocks := size / bsize;
    assert blocks * bsize <= size;
    AtLeast(blocks, bsize);
    DivCeilIs(blocks, 4);
    var rows := DivCeil(blocks, 4);
    DivCeilIs(rows, bsize);
    var m := DivCeil(rows, bsize);
    FewEnough(m, blocks, bsize, rows);
    assert (m - 1) * bsize == m * bsize - bsize;
  }

  /** m is the least number of blocks of `bsize` bytes that hold the ids of `blocks` blocks, four to a byte. */
  ghost predicate LeastIds(m: nat, blocks: nat, bsize: nat) {
    blocks <= 4 * (m * bsize) && (m > 0 ==> 4 * ((m - 1) * bsize) < blocks)
  }

  lemma AtLeast(n: nat, d: nat)
    requires d > 0
    ensures n <= n * d
  {
    assert n * (d - 1) >= 0;
  }

  lemma FewEnough(m: nat, n: nat, d: nat, rows: nat)
    requires d > 0 && m * d < rows + d && rows <= n
    ensures m <= n
  {
    AtLeast(n, d);
    if m > n {
      MulStep(m, n, d);
      assert false;
    }
  }

  lemma MulStep(m: nat, n: nat, d: nat)
    requires m > n
    ensures m * d >= n * d + d
  {
    var e := m - n - 1;
    assert m == e + n + 1;
    assert (e + n + 1) * d == e * d + n * d + d;
    assert e * d >= 0;
  }

  /** A run that stops short at a taken block or at the end holds no fit. */
  lemma NotThrough(ids: Ids, k: nat, f: nat, n: nat)
    requires f < n && k + f <= |ids| && (k + f < |ids| ==> ids[k + f] != 0)
    ensures forall j: nat :: k <= j <= k + f && j < |ids| ==> !Fits(ids, j, n)
  {}

  /** What an allocation of n blocks does to the ids: the lowest fit, painted with the chosen id. */
  ghost predicate AllocatedAt(version: Version, was: Ids, now: Ids, n: nat, i: nat, c: bv8) {
    && Lowest(was, i, n)
    && 1 <= c <= 3 && c == ChosenId(version, was, i, n)
    && now == Paint(was, i, n, c)
  }

  /** A successful bm_alloc is a step of an allocation run, and so is followed by no overlap. */
  lemma AllocatedIsStep(version: Version, was: Ids, now: Ids, n: nat, i: nat, c: bv8)
    requires AllocatedAt(version, was, now, n, i, c)
    ensures AllocStep(was, now, i, n)
  {
    hide ChosenId, Paint;
  }

  /** The id of the blocks k to k + n - 1 differs from both neighbours' ids. */
  ghost predicate Apart(ids: Ids, k: nat, n: nat, c: bv8)
    requires k + n <= |ids|
  {
    (k > 0 ==> ids[k - 1] != c) && (k + n < |ids| ==> ids[k + n] != c)
  }

  /** The bytes past the ids are as they were. */
  ghost predicate PayloadKept(was: seq<bv8>, now: seq<bv8>, blocks: nat) {
    |now| == |was| && forall k: nat :: k < |was| && blocks <= 4 * k ==> now[k] == was[k]
  }

  lemma PayloadSame(bytes: seq<bv8>, blocks: nat)
    ensures PayloadKept(bytes, bytes, blocks)
  {}

  /** The recorded range of n blocks at s, and no other, is gone. */
  ghost predicate RangeFreed(was: Ids, now: Ids, s: nat, n: nat) {
    s in Ranges(was) && Ranges(was)[s] == n && Ranges(now) == Ranges(was) - {s}
  }

  /** The bookkeeping is exact, nothing below `ffa` is free, and the ids' own blocks are reserved;
      with the repaired accessors they are a range of their own. */
  ghost predicate Books(version: Version, ids: Ids, used: nat, ffa: nat, meta: nat) {
    && used == Count(ids)
    && ffa <= |ids| && (forall j: nat :: j < ffa ==> ids[j] != 0)
    && meta <= |ids| && (forall j: nat :: j < meta ==> ids[j] != 0)
    && (version == Repaired && meta > 0 ==> 0 in Ranges(ids) && Ranges(ids)[0] == meta)
  }

  /** Allocating keeps the books, in both versions. */
  lemma BooksAlloc(version: Version, ids: Ids, used: nat, ffa: nat, meta: nat, k: nat, n: nat, c: bv8)
    requires Books(version, ids, used, ffa, meta) && Fits(ids, k, n) && 1 <= c <= 3
    requires version == Repaired ==> Apart(ids, k, n, c)
    ensures Books(version, Paint(ids, k, n, c), used + n, if k == ffa then k + n else ffa, meta)
    ensures version == Repaired && n > 0 ==> Ranges(Paint(ids, k, n, c)) == Ranges(ids)[k := n]
  {
    hide Paint, Count, Ranges;
    CountPaint(ids, k, n, c);
    if n == 0 {
      PaintNone(ids, k, c);
    } else if version == Repaired {
      PaintAdds(ids, k, n, c);
    }
  }

  /** What freeing from block s does to the ids, and how many blocks it counts.  The repaired version
      clears the run of equal ids that starts there.  The source's own clears nothing, and since
      neighbouring columns never compare equal it counts a single allocated block. */
  ghost predicate FreedAt(version: Version, was: Ids, now: Ids, s: nat, n: nat)
    requires s < |was|
  {
    match version
    case Repaired => n == RunLength(was, s) && now == Paint(was, s, n, 0)
    case Written => n == (if was[s] == 0 then RunLength(was, s) else 1) && now == was
  }

  /** Freeing keeps the books; `used` falls by the blocks cleared. */
  lemma BooksFree(was: Ids, used: nat, ffa: nat, meta: nat, s: nat, n: nat)
    requires Books(Repaired, was, used, ffa, meta) && meta <= s < |was| && n == RunLength(was, s) && was[s] != 0
    ensures n <= used
    ensures Books(Repaired, Paint(was, s, n, 0), used - n, if s < ffa then s else ffa, meta)
  {
    hide Count, Paint, RunLength, Ranges;
    CountClear(was, s, n);
    MetaKept(was, meta, s);
  }

  lemma NothingCleared(version: Version, was: Ids, now: Ids, s: nat, n: nat)
    requires s < |was| && FreedAt(version, was, now, s, n) && (version == Written || was[s] == 0)
    ensures now == was
  {}

  /** The state of the clearing loop after n blocks. */
  ghost predicate Clearing(version: Version, was: Ids, now: Ids, s: nat, n: nat) {
    && s + n <= |was|
    && (forall j :: s <= j < s + n ==> was[j] == was[s])
    && (version == Repaired ==> now == Paint(was, s, n, 0))
    && (version == Written ==> now == was && (s < |was| && was[s] != 0 ==> n <= 1))
  }

  /** The loop's test on block s + n. */
  predicate ShowsSame(version: Version, was: Ids, now: Ids, s: nat, n: nat)
    requires s < |was| && s + n < |now|
  {
    Shown(version, now[s + n], (s + n) % 4) == Shown(version, was[s], s % 4)
  }

  lemma ClearingStart(version: Version, was: Ids, s: nat)
    requires s < |was|
    ensures Clearing(version, was, was, s, 0)
  {
    PaintNone(was, s, 0);
  }

  lemma ClearingStep(version: Version, was: Ids, now: Ids, s: nat, n: nat)
    requires Clearing(version, was, now, s, n) && s + n < |was| == |now| && was[s] <= 3 && now[s + n] <= 3
    requires ShowsSame(version, was, now, s, n)
    ensures Clearing(version, was, now[s + n := Stored(version, now[s + n], 0)], s, n + 1)
  {
    hide Paint, Stored, Shown;
    StoredZero(version, now[s + n]);
    ShownEqual(version, now[s + n], (s + n) % 4, was[s], s % 4);
    ShownEqual(version, was[s], s % 4, now[s + n], (s + n) % 4);
    PaintStep(was, s, n, 0);
  }

  lemma ClearingDone(version: Version, was: Ids, now: Ids, s: nat, n: nat)
    requires Clearing(version, was, now, s, n) && s < |was| == |now| && was[s] <= 3
    requires s + n < |was| ==> now[s + n] <= 3 && !ShowsSame(version, was, now, s, n)
    ensures FreedAt(version, was, now, s, n)
  {
    hide Paint, Shown, RunLength;
    if s + n < |was| { ShownEqual(version, was[s], s % 4, now[s + n], (s + n) % 4); }
    if version == Repaired || was[s] == 0 { RunLengthUnique(was, s, n); }
  }

  /** A byte count rounded up to blocks, when the addition inside DIV_CEIL does not wrap. */
  lemma Rounded(bytes: nat, bsize: nat)
    requires 0 < bytes && 0 < bsize && bytes + bsize - 1 < TWO_64
    ensures bytes <= DivCeil(bytes, bsize) * bsize < bytes + bsize && DivCeil(bytes, bsize) > 0
    ensures DivCeil(bytes, bsize) * bsize % bsize == 0
  {
    DivCeilIs(bytes, bsize);
    hide DivCeil;
    var n := DivCeil(bytes, bsize);
    assert n > 0 by { if n == 0 { Nothing(bsize); assert false; } }
    DivUnique(n * bsize, bsize, n, 0);
  }

  lemma Nothing(d: nat)
    ensures 0 * d == 0
  {}

  /** Where the free blocks are all behind block m. */
  lemma FreshFit(ids: Ids, m: nat, n: nat)
    requires m <= |ids| && n > 0 && forall j: nat :: j < |ids| ==> (ids[j] == 0 <==> m <= j)
    ensures NoFit(ids, n) <==> m + n > |ids|
    ensures forall i: nat :: Lowest(ids, i, n) ==> i == m
  {
    if m + n <= |ids| { assert Fits(ids, m, n); }
  }

  lemma FitsInBytes(m: nat, n: nat, blocks: nat, bytes: nat, d: nat)
    requires bytes <= n * d < bytes + d
    ensures m * d + bytes <= blocks * d <==> m + n <= blocks
  {
    assert (m + n) * d == m * d + n * d;
    if m + n <= blocks { MulMonotone(m + n, blocks, d); } else { MulStep(m + n, blocks, d); }
  }

  lemma InitialZero(was: Ids, now: Ids, m: nat)
    requires Initialised(Repaired, was, now, m)
    ensures forall j: nat :: j < |now| ==> (now[j] == 0 <==> m <= j)
  {}

  /** The range an allocation made. */
  lemma NewRange(was: Ids, now: Ids, n: nat, i: nat, c: bv8)
    requires AllocatedAt(Repaired, was, now, n, i, c) && n > 0 && Ranges(now) == Ranges(was)[i := n]
    ensures i < |was| == |now| && was[i] == 0 && Starts(now, i) && RunLength(now, i) == n
  {
    hide RunLength, ChosenId;
    assert i in Ranges(now);
    RangesAt(now, i);
  }

  lemma TookLowest(was: Ids, now: Ids, n: nat, i: nat, c: bv8)
    requires AllocatedAt(Repaired, was, now, n, i, c)
    ensures Lowest(was, i, n)
  {
    hide ChosenId, Lowest, Paint;
  }

  lemma RangeGone(was: Ids, mid: Ids, now: Ids, i: nat, n: nat)
    requires i < |was| && was[i] == 0 && Ranges(mid) == Ranges(was)[i := n] && RangeFreed(mid, now, i, n)
    ensures Ranges(now) == Ranges(was)
  {
    hide RunLength;
    RangesAt(was, i);
    hide Ranges;
    assert Ranges(was)[i := n] - {i} == Ranges(was);
  }

  lemma FreedIs(was: Ids, now: Ids, s: nat, n: nat)
    requires s < |was| && FreedAt(Repaired, was, now, s, n)
    ensures n == RunLength(was, s)
  {
    hide RunLength;
  }

  lemma PayloadTrans(a: seq<bv8>, b: seq<bv8>, c: seq<bv8>, blocks: nat)
    requires PayloadKept(a, b, blocks) && PayloadKept(b, c, blocks)
    ensures PayloadKept(a, c, blocks)
  {}

  /** The ids after init_bitmap: the repaired accessors clear every block first, the source's own
      leave what was there. */
  ghost predicate Initialised(version: Version, was: Ids, now: Ids, meta: nat) {
    |now| == |was| && forall j: nat :: j < |was| ==>
      now[j] == match version
                case Repaired => if j < meta then 1 else 0
                case Written => if j < meta then was[j] | 1 else was[j]
  }

  ghost predicate AllZeroFrom(ids: Ids, m: nat) {
    forall j: nat :: m <= j < |ids| ==> ids[j] == 0
  }

  lemma OrOne(f: bv8)
    ensures f | 1 != 0
  {}

  lemma InitialisedIs(version: Version, was: Ids, zeroed: Ids, now: Ids, meta: nat)
    requires |was| == |zeroed| == |now|
    requires forall j: nat :: j < |was| ==> zeroed[j] == if version == Repaired then 0 else was[j]
    requires forall j: nat :: j < |was| ==> now[j] == if j < meta then Stored(version, zeroed[j], 1) else zeroed[j]
    ensures Initialised(version, was, now, meta)
  {}

  /** A fresh region's books are right exactly when, with the source's accessors, no block past the
      ids' own was nonzero before. */
  lemma BooksInitialised(version: Version, was: Ids, now: Ids, meta: nat)
    requires Initialised(version, was, now, meta) && meta <= |was|
    ensures Books(version, now, meta, meta, meta) <==>
              (version == Repaired || AllZeroFrom(was, meta))
  {
    hide Count, Ranges;
    forall j: nat | j < meta ensures now[j] != 0 { OrOne(was[j]); }
    CountExact(now, meta);
    assert forall j: nat :: meta <= j < |was| ==> now[j] == if version == Repaired then 0 else was[j];
    if version == Repaired {
      if meta > 0 { FirstRange(now, meta); }
    } else if AllZeroFrom(was, meta) {
    } else {
      var j: nat :| meta <= j < |was| && was[j] != 0;
      assert now[j] != 0;
    }
  }

  /** The blocks by which `used` falls. */
  function Cleared(version: Version, id: bv8, n: nat): nat {
    if version == Repaired && id != 0 then n else 0
  }

  lemma FreeStep(version: Version, was: Ids, now: Ids, used: nat, ffa: nat, meta: nat, s: nat, n: nat)
    requires Books(version, was, used, ffa, meta) && meta <= s < |was| && FreedAt(version, was, now, s, n)
    ensures Cleared(version, was[s], n) <= used
    ensures Books(version, now, used - Cleared(version, was[s], n), if s < ffa then s else ffa, meta)
    ensures version == Repaired && Starts(was, s) ==> RangeFreed(was, now, s, n) && Cleared(version, was[s], n) == n
  {
    hide Books, Paint, Ranges, RunLength;
    if version == Repaired && was[s] != 0 {
      BooksFree(was, used, ffa, meta, s, n);
      if Starts(was, s) {
        ClearRemoves(was, s);
        RangesAt(was, s);
      }
    } else {
      NothingCleared(version, was, now, s, n);
      BooksSame(version, was, used, ffa, meta, s);
    }
  }

  lemma BooksSame(version: Version, ids: Ids, used: nat, ffa: nat, meta: nat, s: nat)
    requires Books(version, ids, used, ffa, meta)
    ensures Books(version, ids, used, if s < ffa then s else ffa, meta)
  {}

  /** Freeing at or after block `meta` leaves the range of the first `meta` blocks. */
  lemma MetaKept(was: Ids, meta: nat, s: nat)
    requires meta <= s < |was| && was[s] != 0 && (meta > 0 ==> 0 in Ranges(was) && Ranges(was)[0] == meta)
    ensures meta > 0 ==>
              var now := Paint(was, s, RunLength(was, s), 0);
              0 in Ranges(now) && Ranges(now)[0] == meta
  {
    hide Paint, RunLength;
    if meta > 0 {
      var now := Paint(was, s, RunLength(was, s), 0);
      RangesAt(was, 0);
      RangesAt(now, 0);
      RunLengthUnique(now, 0, meta);
    }
  }

  lemma DivAtLeast(x: nat, d: nat, m: nat)
    requires d > 0 && m * d <= x
    ensures m <= x / d
  {
    if x / d < m {
      MulStep(m, x / d, d);
      assert false;
    }
  }

  lemma DivMonotone(x: nat, y: nat, d: nat)
    requires d > 0 && x <= y
    ensures x / d <= y / d
  {
    assert x / d * d <= x;
    DivAtLeast(y, d, x / d);
  }

  lemma MulMonotone(x: nat, y: nat, d: nat)
    requires x <= y
    ensures x * d <= y * d
  {
    if x < y { MulStep(y, x, d); }
  }

  /** The bytes with n of them copied from one offset to another. */
  function Copied(bytes: seq<bv8>, to: nat, from: nat, n: nat): (r: seq<bv8>)
    requires from + n <= |bytes| && to + n <= |bytes|
    ensures |r| == |bytes|
    ensures forall k :: 0 <= k < |bytes| ==> r[k] == if to <= k < to + n then bytes[from + (k - to)] else bytes[k]
  {
    bytes[..to] + bytes[from..from + n] + bytes[to + n..]
  }

  lemma CopiedNone(bytes: seq<bv8>, to: nat, from: nat)
    requires from <= |bytes| && to <= |bytes|
    ensures Copied(bytes, to, from, 0) == bytes
  {}

  lemma CopiedStep(bytes: seq<bv8>, to: nat, from: nat, k: nat)
    requires from + k < |bytes| && to + k < |bytes|
    requires from + k < to || to + k <= from
    ensures var b := Copied(bytes, to, from, k);
            b[to + k := b[from + k]] == Copied(bytes, to, from, k + 1)
  {}

  /** An allocation elsewhere leaves a range as it is. */
  lemma OldRangeStays(was: Ids, now: Ids, s: nat, i: nat, n: nat)
    requires Starts(was, s) && Fits(was, i, n) && Ranges(now) == Ranges(was)[i := n]
    ensures Starts(now, s) && RunLength(now, s) == RunLength(was, s)
    ensures s + RunLength(was, s) <= i || i + n <= s
  {
    hide Ranges, RunLength;
    RangesAt(was, s);
    RangesAt(now, s);
    var len, x := RunLength(was, s), if i < s then s else i;
    assert s <= x < s + len ==> was[x] == was[s];
    assert i <= x < i + n ==> was[x] == 0;
  }

  /** The ranges after an allocation; one of no blocks adds none. */
  function WithRange(live: map<nat, nat>, i: nat, n: nat): map<nat, nat> {
    if n == 0 then live else live[i := n]
  }

  lemma OldRangeKept(was: Ids, now: Ids, s: nat, i: nat, n: nat, c: bv8)
    requires Starts(was, s) && Fits(was, i, n) && now == Paint(was, i, n, c)
    requires n > 0 ==> Ranges(now) == Ranges(was)[i := n]
    ensures Ranges(now) == WithRange(Ranges(was), i, n)
    ensures Starts(now, s) && RunLength(now, s) == RunLength(was, s)
  {
    hide Ranges, RunLength, Paint, Starts, WithRange;
    if n > 0 { OldRangeStays(was, now, s, i, n); } else { NothingPainted(was, i, c); }
    WithRangeIs(Ranges(was), i, n);
  }

  lemma WithRangeIs(live: map<nat, nat>, i: nat, n: nat)
    ensures WithRange(live, i, n) == if n == 0 then live else live[i := n]
  {}

  lemma NothingPainted(ids: Ids, i: nat, c: bv8)
    requires i < |ids|
    ensures Paint(ids, i, 0, c) == ids
  {}

  /** The payload after n of its bytes were copied from one offset to another. */
  ghost predicate PayloadMoved(was: seq<bv8>, now: seq<bv8>, blocks: nat, to: nat, from: nat, n: nat) {
    && |now| == |was| && from + n <= |was| && to + n <= |was|
    && forall k: nat :: k < |was| && blocks <= 4 * k ==>
         now[k] == if to <= k < to + n then was[from + (k - to)] else was[k]
  }

  /** Changing ids before or after the copy does not matter when what is copied lies past the ids. */
  lemma PayloadSteps(b0: seq<bv8>, b1: seq<bv8>, b2: seq<bv8>, blocks: nat, to: nat, from: nat, n: nat)
    requires PayloadKept(b0, b1, blocks) && from + n <= |b1| && to + n <= |b1| && blocks <= 4 * from
    requires b2 == Copied(b1, to, from, n)
    ensures PayloadMoved(b0, b2, blocks, to, from, n)
  {
    forall k: nat | k < |b0| && blocks <= 4 * k
      ensures b2[k] == if to <= k < to + n then b0[from + (k - to)] else b0[k]
    {
      assert b1[k] == b0[k];
      if to <= k < to + n {
        var x := from + (k - to);
        assert b1[x] == b0[x];
      }
    }
  }

  lemma PayloadThen(b0: seq<bv8>, b1: seq<bv8>, b2: seq<bv8>, blocks: nat, to: nat, from: nat, n: nat)
    requires PayloadMoved(b0, b1, blocks, to, from, n) && PayloadKept(b1, b2, blocks)
    ensures PayloadMoved(b0, b2, blocks, to, from, n)
  {}

  class Bitmap {
    const version: Version
    const bm: array<bv8>
    const base: nat
    var size: nat
    var bsize: nat
    var used: nat
    var ffa: nat

    constructor (version: Version, bm: array<bv8>, base: nat)
      ensures this.version == version && this.bm == bm && this.base == base
    {
      this.version := version;
      this.bm := bm;
      this.base := base;
    }

    /** The region described by size and bsize is the byte array, at addresses that do not wrap. */
    ghost predicate Sized()
      reads `size, `bsize
    {
      0 < bsize < TWO_64 / 2 && size == bm.Length < TWO_64 / 2 && base + size < TWO_64
    }

    function Blocks(): nat
      reads `size, `bsize
      requires bsize > 0
    {
      size / bsize
    }

    function BytesOf(n: nat): nat
      reads `bsize
    {
      n * bsize
    }

    /** The address of block i. */
    function Address(i: nat): nat
      reads `size, `bsize
    {
      base + BytesOf(i)
    }

    function Meta(): nat
      reads `size, `bsize
      requires bsize > 0
    {
      BmBlocks(size, bsize)
    }

    lemma Sizes()
      requires Sized()
      ensures Meta() <= Blocks() <= size && Blocks() * bsize <= size && Blocks() <= 4 * (Meta() * bsize)
    {
      MetadataCovers(size, bsize);
    }

    ghost function Ids(): (ids: Ids)
      reads `size, `bsize, bm
      requires Sized()
      ensures |ids| == Blocks()
    {
      Sizes();
      Decode(bm[..], Blocks())
    }

    ghost predicate Valid()
      reads this, bm
    {
      Sized() && Books(version, Ids(), used, ffa, Meta())
    }

    /** Also readable one block past the last: the byte is still inside the region. */
    function GetBm(block: nat): bv8
      reads `size, `bsize, bm
      requires Sized() && block <= Blocks() && 0 < size
    {
      Sizes();
      Get(version, bm[block / BLOCKS_PER_INT], block % BLOCKS_PER_INT * 2)
    }

    lemma GetBmIs(block: nat)
      requires Sized() && block < Blocks()
      ensures 0 < size
      ensures GetBm(block) == Shown(version, Ids()[block], block % 4)
      ensures GetBm(block) == 0 <==> Ids()[block] == 0
    {
      Sizes();
      GetField(version, bm[block / 4], block % 4);
    }

    method SetBm(block: nat, id: bv8)
      requires Sized() && block < Blocks()
      modifies bm
      ensures Ids() == old(Ids())[block := Stored(version, old(Ids())[block], id)]
      ensures PayloadKept(old(bm[..]), bm[..], Blocks())
    {
      Sizes();
      var row, col := block / BLOCKS_PER_INT, block % BLOCKS_PER_INT * 2;
      ghost var was := bm[..];
      DecodeSet(version, was, Blocks(), block, id);
      bm[row] := Set(version, bm[row], col, id);
      assert bm[..] == was[row := Set(version, was[row], col, id)];
    }

    /** The least id from 1 that is neither a nor b; three ids suffice. */
    static method BmUniqueId(a: bv8, b: bv8) returns (c: bv8)
      ensures 1 <= c <= 3 && c != a && c != b && (c > 1 ==> 1 in {a, b}) && (c > 2 ==> 2 in {a, b})
      ensures c == UniqueId(a, b)
    {
      c := 1;
      while c == a || c == b
        invariant 1 <= c <= 3
        invariant c > 1 ==> 1 in {a, b}
        invariant c > 2 ==> 2 in {a, b}
        decreases 3 - c
      {
        c := c + 1;
      }
    }

    /** The number of free blocks from k on, up to n. */
    method RunOfFree(k: nat, n: nat) returns (f: nat)
      requires Valid() && k < Blocks()
      ensures f <= n && k + f <= Blocks()
      ensures forall j: nat :: k <= j < k + f ==> Ids()[j] == 0
      ensures f < n && k + f < Blocks() ==> Ids()[k + f] != 0
    {
      hide Blocks, Count, Get, Decode, Ranges;
      f := 0;
      GetBmIs(k);
      while f < n && k + f < Blocks() && GetBm(k + f) == 0
        invariant f <= n && k + f <= Blocks()
        invariant forall j: nat :: k <= j < k + f ==> Ids()[j] == 0
      {
        GetBmIs(k + f);
        f := f + 1;
      }
      if f < n && k + f < Blocks() { GetBmIs(k + f); }
    }

    /** The bound below which the right neighbour's id is looked at: the source stops one block early,
        so it ignores the last block of the region. */
    function RightEnd(): nat
      reads `size, `bsize
      requires bsize > 0 && Blocks() > 0
    {
      match version
      case Written => Blocks() - 1
      case Repaired => Blocks()
    }

    // ---- Setting up -----------------------------------------------------------------------------

    /** Describes the region and reserves the ids' own blocks.  Valid() holds afterwards exactly when
        the region had no other nonzero block, or the accessors are the repaired ones. */
    method InitBitmap(newSize: nat, newBsize: nat)
      requires 0 < newBsize < TWO_64 / 2 && newSize == bm.Length < TWO_64 / 2 && base + newSize < TWO_64
      modifies this, bm
      ensures Sized() && size == newSize && bsize == newBsize
      ensures Blocks() <= 4 * bm.Length && Initialised(version, Decode(old(bm[..]), Blocks()), Ids(), Meta())
      ensures used == ffa == Meta()
      ensures Valid() <==>
                (version == Repaired || AllZeroFrom(Decode(old(bm[..]), Blocks()), Meta()))
    {
      bsize := newBsize;
      size := newSize;
      Sizes();
      ghost var was := Ids();
      ClearAll();
      ghost var zeroed := Ids();
      ReserveIds();
      ffa := Meta();
      used := Meta();
      hide Decode, Books, Initialised, Meta, Blocks;
      InitialisedIs(version, was, zeroed, Ids(), Meta());
      BooksInitialised(version, was, Ids(), Meta());
    }

    /** Stores id 0 in every block. */
    method ClearAll()
      requires Sized()
      modifies bm
      ensures forall j: nat :: j < Blocks() ==> Ids()[j] == if version == Repaired then 0 else old(Ids())[j]
      ensures PayloadKept(old(bm[..]), bm[..], Blocks())
    {
      hide Decode, Stored, Blocks, PayloadKept;
      ghost var was := Ids();
      PayloadSame(bm[..], Blocks());
      for i := 0 to Blocks()
        invariant forall j: nat :: j < Blocks() ==> Ids()[j] == if version == Repaired && j < i then 0 else was[j]
        invariant PayloadKept(old(bm[..]), bm[..], Blocks())
      {
        ghost var bytes := bm[..];
        StoredZero(version, Ids()[i]);
        SetBm(i, 0);
        PayloadTrans(old(bm[..]), bytes, bm[..], Blocks());
      }
    }

    /** Stores id 1 in the ids' own blocks. */
    method ReserveIds()
      requires Sized()
      modifies bm
      ensures forall j: nat :: j < Blocks() ==>
                Ids()[j] == if j < Meta() then Stored(version, old(Ids())[j], 1) else old(Ids())[j]
      ensures PayloadKept(old(bm[..]), bm[..], Blocks())
    {
      hide Decode, Stored, PayloadKept;
      Sizes();
      hide Meta, Blocks;
      ghost var was := Ids();
      PayloadSame(bm[..], Blocks());
      for i := 0 to Meta()
        invariant forall j: nat :: j < Blocks() ==> Ids()[j] == if j < i then Stored(version, was[j], 1) else was[j]
        invariant PayloadKept(old(bm[..]), bm[..], Blocks())
      {
        ghost var bytes := bm[..];
        SetBm(i, 1);
        PayloadTrans(old(bm[..]), bytes, bm[..], Blocks());
      }
    }

    /** An id that neither neighbour shows. */
    method ChooseId(k: nat, n: nat) returns (c: bv8)
      requires Sized() && Fits(Ids(), k, n)
      ensures 1 <= c <= 3 && c == ChosenId(version, Ids(), k, n)
      ensures version == Repaired ==> Apart(Ids(), k, n, c)
    {
      hide Blocks, Get, Decode;
      var left: bv8, right: bv8 := 0, 0;
      if k > 0 {
        GetBmIs(k - 1);
        left := GetBm(k - 1);
      }
      if k + n < RightEnd() {
        GetBmIs(k + n);
        right := GetBm(k + n);
      }
      c := BmUniqueId(left, right);
    }

    /** Stores id c in n free blocks from k. */
    method StoreIds(k: nat, n: nat, c: bv8)
      requires Sized() && c <= 3 && k + n <= Blocks()
      requires version == Repaired || forall j :: k <= j < k + n ==> Ids()[j] == 0
      modifies bm
      ensures Ids() == Paint(old(Ids()), k, n, c)
      ensures PayloadKept(old(bm[..]), bm[..], Blocks())
    {
      hide Blocks, Decode, Stored, Paint;
      ghost var was := Ids();
      PaintNone(was, k, c);
      for j := 0 to n
        invariant Ids() == Paint(was, k, j, c)
        invariant PayloadKept(old(bm[..]), bm[..], Blocks())
      {
        StoredIs(version, was[k + j], c);
        SetBm(k + j, c);
        PaintStep(was, k, j, c);
      }
    }

    /** Paints n free blocks from k with an id no neighbour shows, and updates the bookkeeping. */
    method Reserve(k: nat, n: nat) returns (c: bv8)
      requires Valid() && Fits(Ids(), k, n)
      modifies `used, `ffa, bm
      ensures Valid()
      ensures 1 <= c <= 3 && c == ChosenId(version, old(Ids()), k, n) && Ids() == Paint(old(Ids()), k, n, c)
      ensures used == old(used) + n
      ensures version == Repaired && n > 0 ==> Ranges(Ids()) == old(Ranges(Ids()))[k := n]
      ensures PayloadKept(old(bm[..]), bm[..], Blocks())
    {
      hide Blocks, Decode, Stored, Paint, Books, Ranges, Apart, Meta, PayloadKept, ChosenId;
      ghost var was := Ids();
      c := ChooseId(k, n);
      StoreIds(k, n, c);
      BooksAlloc(version, was, used, ffa, Meta(), k, n, c);
      if k == ffa {
        ffa := k + n;
      }
      used := used + n;
    }

    // ---- Allocating -----------------------------------------------------------------------------

    /** The lowest run of free blocks that fits, or NULL exactly when there is none.  i and c report
        the start block and the id used. */
    method BmAlloc(bytes: nat) returns (p: Option<nat>, ghost i: nat, ghost c: bv8)
      requires Valid()
      modifies `used, `ffa, bm
      ensures Valid()
      ensures p == None <==> NoFit(old(Ids()), DivCeil(bytes, bsize))
      ensures p == None ==> bm[..] == old(bm[..]) && used == old(used) && ffa == old(ffa)
      ensures p != None ==> AllocatedAt(version, old(Ids()), Ids(), DivCeil(bytes, bsize), i, c) && p == Some(Address(i))
      ensures p != None ==> used == old(used) + DivCeil(bytes, bsize)
      ensures p != None && version == Repaired && DivCeil(bytes, bsize) > 0 ==>
                Ranges(Ids()) == old(Ranges(Ids()))[i := DivCeil(bytes, bsize)]
      ensures PayloadKept(old(bm[..]), bm[..], Blocks())
    {
      hide Blocks, Count, Get, Decode, Ranges, DivCeil, Address, ChosenId;
      ghost var was := Ids();
      i, c := 0, 0;
      p := None;
      var tblocks := Blocks();
      var nblocks := DivCeil(bytes, bsize);
      CountBound(was);
      if tblocks - used < nblocks {
        TooFull(was, nblocks);
        return;
      }
      var k := ffa;
      while k < tblocks
        invariant ffa <= k <= tblocks + 1
        invariant forall j: nat :: j < k && j < tblocks ==> !Fits(was, j, nblocks)
        invariant bm[..] == old(bm[..]) && used == old(used) && ffa == old(ffa)
        decreases tblocks - k
      {
        GetBmIs(k);
        if GetBm(k) != 0 {
          k := k + 1;
          continue;
        }
        var fblocks := RunOfFree(k, nblocks);
        if fblocks == nblocks {
          i := k;
          c := Reserve(k, nblocks);
          p := Some(Address(k));
          return;
        }
        NotThrough(was, k, fblocks, nblocks);
        k := k + fblocks + 1;
      }
    }

    // ---- Freeing --------------------------------------------------------------------------------

    lemma NoneFreed()
      requires Valid()
      ensures ffa <= Blocks() && BytesOf(0) == 0
    {}

    lemma IdZero(s: nat)
      requires Sized() && s < Blocks()
      ensures 0 < size
      ensures forall n: nat :: Cleared(version, GetBm(s), n) == Cleared(version, Ids()[s], n)
    {
      GetBmIs(s);
    }

    /** The blocks counted from s on: those that show the same id as s.  Each is set to 0 on the way. */
    method ClearRun(s: nat) returns (n: nat)
      requires Sized() && s <= Blocks() && 0 < size
      modifies bm
      ensures s < Blocks() ==> FreedAt(version, old(Ids()), Ids(), s, n)
      ensures s == Blocks() ==> n == 0 && Ids() == old(Ids())
      ensures PayloadKept(old(bm[..]), bm[..], Blocks())
    {
      hide Blocks, Decode, Paint, RunLength, Shown, Get, Stored, FreedAt, PayloadKept, Clearing;
      ghost var was := Ids();
      PayloadSame(bm[..], Blocks());
      var id := GetBm(s);
      n := 0;
      if s == Blocks() {
        return;
      }
      GetBmIs(s);
      ClearingStart(version, was, s);
      while GetBm(s + n) == id && s + n < Blocks()
        invariant s + n <= Blocks()
        invariant Clearing(version, was, Ids(), s, n)
        invariant PayloadKept(old(bm[..]), bm[..], Blocks())
        decreases Blocks() - n
      {
        GetBmIs(s + n);
        ghost var before, bytes := Ids(), bm[..];
        SetBm(s + n, 0);
        ClearingStep(version, was, before, s, n);
        PayloadTrans(old(bm[..]), bytes, bm[..], Blocks());
        n := n + 1;
      }
      if s + n < Blocks() { GetBmIs(s + n); }
      ClearingDone(version, was, Ids(), s, n);
    }

    /** The addresses bm_free accepts: past the ids' own blocks and inside the region. */
    predicate InRegion(ptr: nat)
      reads `size, `bsize
      requires bsize > 0
    {
      Address(Meta()) <= ptr < base + size
    }

    predicate InBlocks(ptr: nat)
      reads `size, `bsize
      requires bsize > 0
    {
      InRegion(ptr) && base <= ptr && BlockOf(ptr) < Blocks()
    }

    function BlockOf(ptr: nat): nat
      reads `bsize
      requires bsize > 0 && base <= ptr
    {
      (ptr - base) / bsize
    }

    /** bm_free ignores an address before the end of the ids' blocks, one past the region and one in the
        bytes left over behind the last block. */
    lemma Accepts(ptr: nat)
      requires Sized()
      ensures InRegion(ptr) <==> base + Meta() * bsize <= ptr < base + size
      ensures InBlocks(ptr) <==> base + Meta() * bsize <= ptr < base + size && (ptr - base) / bsize < size / bsize
      ensures InBlocks(ptr) ==> InRegion(ptr) && base <= ptr && BlockOf(ptr) == (ptr - base) / bsize < Blocks()
      ensures InRegion(ptr) && base <= ptr && BlockOf(ptr) < Blocks() ==> InBlocks(ptr)
      ensures forall n: nat :: BytesOf(n) == n * bsize
    {
      hide Meta;
    }

    /** Every accepted address lies at or after the ids' blocks; an address in the bytes left over
        behind the last block gives the block number Blocks(). */
    lemma BlockOfIs(ptr: nat)
      requires Sized() && InRegion(ptr)
      ensures base <= ptr && Meta() <= BlockOf(ptr) <= Blocks() && 0 < size
    {
      assert Meta() * bsize <= ptr - base;
      DivAtLeast(ptr - base, bsize, Meta());
      DivMonotone(ptr - base, size, bsize);
    }

    /** Frees the run of equal ids that starts at the block of ptr and returns its bytes; n reports
        its blocks.  The repaired version lowers `used` by the blocks cleared, which the source does
        not do. */
    method BmFree(ptr: nat) returns (freed: nat, ghost n: nat)
      requires Valid()
      modifies `used, `ffa, bm
      ensures Valid()
      ensures InBlocks(ptr) <==>
                base + Meta() * bsize <= ptr < base + size && (ptr - base) / bsize < size / bsize
      ensures !InBlocks(ptr) ==> freed == 0 && Ids() == old(Ids()) && used == old(used) && ffa == old(ffa)
      ensures InBlocks(ptr) ==> BlockOf(ptr) == (ptr - base) / bsize && freed == n * bsize
      ensures InBlocks(ptr) ==> FreedAt(version, old(Ids()), Ids(), BlockOf(ptr), n)
      ensures InBlocks(ptr) && version == Repaired && Starts(old(Ids()), BlockOf(ptr)) ==>
                RangeFreed(old(Ids()), Ids(), BlockOf(ptr), n) && used == old(used) - n
      ensures PayloadKept(old(bm[..]), bm[..], Blocks())
    {
      hide Blocks, Decode, Meta, Books, Ranges, PayloadKept, Address, BlockOf, RunLength, Paint, BytesOf, FreedAt,
        Cleared, RangeFreed, Starts, GetBm, InRegion, InBlocks;
      freed, n := 0, 0;
      Accepts(ptr);
      PayloadSame(bm[..], Blocks());
      if !InRegion(ptr) {
        return;
      }
      BlockOfIs(ptr);
      var s := BlockOf(ptr);
      ghost var was := Ids();
      var id := GetBm(s);
      if s < Blocks() { IdZero(s); } else { NoneFreed(); }
      var i := ClearRun(s);
      n := i;
      if s < Blocks() {
        FreeStep(version, was, Ids(), used, ffa, Meta(), s, i);
        used := used - Cleared(version, id, i);
      }
      if s < ffa {
        ffa := s;
      }
      freed := BytesOf(i);
    }

    /** The address of an allocated range's first block, given to bm_free: the range and no other is gone,
        and its bytes come back. */
    method FreeRange(ptr: nat, ghost s: nat) returns (freed: nat)
      requires Valid() && version == Repaired && Meta() <= s < Blocks() && Starts(Ids(), s) && ptr == base + s * bsize
      modifies `used, `ffa, bm
      ensures Valid() && freed == RunLength(old(Ids()), s) * bsize
      ensures RangeFreed(old(Ids()), Ids(), s, RunLength(old(Ids()), s)) && used == old(used) - RunLength(old(Ids()), s)
    {
      hide *;
      AtBlock(s);
      Accepts(ptr);
      ghost var n, was := 0, Ids();
      freed, n := BmFree(ptr);
      FreedIs(was, Ids(), s, n);
    }

    lemma AtBlock(s: nat)
      requires Valid() && Meta() <= s < Blocks()
      ensures Sized() && base + Meta() * bsize <= base + s * bsize < base + size
      ensures (base + s * bsize - base) / bsize == s < size / bsize
      ensures base + s * bsize == Address(s)
    {
      Sizes();
      hide Meta, Books, Decode;
      MulMonotone(Meta(), s, bsize);
      MulMonotone(s + 1, Blocks(), bsize);
      assert (s + 1) * bsize == s * bsize + bsize;
      DivUnique(s * bsize, bsize, s, 0);
    }

    /** bm_alloc and then bm_free of its answer: the ranges and the count are as before, and the bytes
        reported are those asked for, rounded up to blocks. */
    method AllocThenFree(bytes: nat) returns (p: Option<nat>, freed: nat)
      requires Valid() && version == Repaired && 0 < bytes && bytes + bsize - 1 < TWO_64
      modifies `used, `ffa, bm
      ensures Valid() && Ranges(Ids()) == old(Ranges(Ids())) && used == old(used)
      ensures p == None ==> freed == 0
      ensures p != None ==> bytes <= freed < bytes + bsize && freed % bsize == 0
    {
      hide *;
      SizedIs();
      AllIds();
      IdsAre(bm[..]);
      FreePastMeta();
      Rounded(bytes, bsize);
      ghost var i, c, was := 0, 0 as bv8, Ids();
      p, i, c := BmAlloc(bytes);
      freed := 0;
      if p != None {
        ghost var ids := Ids();
        NewRange(was, ids, DivCeil(bytes, bsize), i, c);
        AllIds();
        SizedIs();
        AddressIs(i);
        freed := FreeRange(p.value, i);
        RangeGone(was, ids, Ids(), i, DivCeil(bytes, bsize));
      } else {
        SizedIs();
        IdsAre(bm[..]);
      }
    }

    /** The first bm_alloc of a fresh region: it succeeds exactly when its bytes fit behind the ids, and gives
        the first address there. */
    method FirstAlloc(newSize: nat, newBsize: nat, bytes: nat) returns (p: Option<nat>, ghost m: nat)
      requires 0 < newBsize < TWO_64 / 2 && newSize == bm.Length < TWO_64 / 2 && base + newSize < TWO_64
      requires version == Repaired && 0 < bytes && bytes + newBsize - 1 < TWO_64
      modifies this, bm
      ensures Valid() && bsize == newBsize && Blocks() == newSize / newBsize && LeastIds(m, Blocks(), newBsize)
      ensures p != None <==> m * newBsize + bytes <= Blocks() * newBsize
      ensures p != None ==> p.value == base + m * newBsize
    {
      hide *;
      ghost var i, c, bytes_ := 0, 0 as bv8, bm[..];
      InitBitmap(newSize, newBsize);
      m := Meta();
      MetaIs();
      AllIds();
      InitialZero(Decode(bytes_, Blocks()), Ids(), m);
      Rounded(bytes, bsize);
      FreshFit(Ids(), m, DivCeil(bytes, bsize));
      FitsInBytes(m, DivCeil(bytes, bsize), Blocks(), bytes, bsize);
      ghost var was := Ids();
      p, i, c := BmAlloc(bytes);
      if p != None {
        TookLowest(was, Ids(), DivCeil(bytes, bsize), i, c);
        AddressIs(i);
      }
    }

    lemma MetaIs()
      requires Sized()
      ensures LeastIds(Meta(), Blocks(), bsize) && Meta() <= Blocks() == size / bsize
    {
      MetadataCovers(size, bsize);
      hide BmBlocks, Decode;
    }

    lemma AddressIs(i: nat)
      ensures Address(i) == base + i * bsize
    {}

    lemma AllIds()
      requires Sized()
      ensures |Ids()| == Blocks() <= 4 * bm.Length
    {
      Sizes();
      hide Meta, Decode;
    }

    lemma IdsAre(bytes: seq<bv8>)
      requires Sized() && bm[..] == bytes && Blocks() <= 4 * |bytes|
      ensures Ids() == Decode(bytes, Blocks())
    {
      hide Decode, Blocks;
    }

    lemma SizedIs()
      requires Valid()
      ensures Sized() && 0 < bsize < TWO_64
    {
      hide Books, Decode;
    }

    // ---- Moving ---------------------------------------------------------------------------------

    /** The length of the run from s, counted without changing it. */
    method CountRun(s: nat) returns (n: nat)
      requires Sized() && s < Blocks() && version == Repaired
      ensures n == RunLength(Ids(), s)
    {
      hide Blocks, Decode, RunLength, Get;
      GetBmIs(s);
      var id := GetBm(s);
      n := 0;
      while GetBm(s + n) == id && s + n < Blocks()
        invariant s + n <= Blocks()
        invariant forall j :: s <= j < s + n ==> Ids()[j] == Ids()[s]
        decreases Blocks() - n
      {
        GetBmIs(s + n);
        n := n + 1;
      }
      if s + n < Blocks() { GetBmIs(s + n); }
      RunLengthUnique(Ids(), s, n);
    }

    /** old is the address of a range, some run of blocks fits, and the old range's blocks can be copied
        to the first that does. */
    ghost predicate ReallocReady(ptr: nat, newSize: nat)
      reads this, bm
      requires Valid() && InRegion(ptr)
    {
      var s, n := BlockOf(ptr), DivCeil(newSize, bsize);
      && ptr == Address(s) && Starts(Ids(), s) && !NoFit(Ids(), n)
      && forall i: nat :: Lowest(Ids(), i, n) ==> CopyFits(Ids(), s, i, RunLength(Ids(), s))
    }

    /** Growing is always so. */
    lemma GrowingIsReady(ptr: nat, newSize: nat)
      requires Valid() && InRegion(ptr)
      requires ptr == Address(BlockOf(ptr)) && Starts(Ids(), BlockOf(ptr)) && !NoFit(Ids(), DivCeil(newSize, bsize))
      requires RunLength(Ids(), BlockOf(ptr)) <= DivCeil(newSize, bsize)
      ensures ReallocReady(ptr, newSize)
    {
      var ids, s, n := Ids(), BlockOf(ptr), DivCeil(newSize, bsize);
      hide Valid, RunLength, Decode, DivCeil;
      forall i: nat | Lowest(ids, i, n) ensures CopyFits(ids, s, i, RunLength(ids, s)) {
        GrowingFits(ids, s, i, n);
      }
    }

    /** The bytes of the run at s and of as many bytes at block i lie in the region, past the ids, and
        do not meet. */
    ghost predicate MayCopy(s: nat, len: nat, i: nat)
      reads `size, `bsize
      requires bsize > 0
    {
      && Blocks() <= 4 * BytesOf(s) && Blocks() <= 4 * BytesOf(i)
      && BytesOf(s) + BytesOf(len) <= size && BytesOf(i) + BytesOf(len) <= size
      && (BytesOf(s) + BytesOf(len) <= BytesOf(i) || BytesOf(i) + BytesOf(len) <= BytesOf(s))
    }

    /** A free block lies past the ids' own blocks. */
    lemma FreePastMeta()
      requires Valid()
      ensures forall j: nat :: j < Blocks() && Ids()[j] == 0 ==> Meta() <= j
    {}

    /** memcpy between byte offsets of the region. */
    method Copy(to: nat, from: nat, n: nat)
      requires from + n <= bm.Length && to + n <= bm.Length
      requires from + n <= to || to + n <= from
      modifies bm
      ensures bm[..] == Copied(old(bm[..]), to, from, n)
    {
      hide Copied;
      ghost var was := bm[..];
      CopiedNone(was, to, from);
      for k := 0 to n
        invariant bm[..] == Copied(was, to, from, k)
      {
        ghost var before := bm[..];
        bm[to + k] := bm[from + k];
        assert bm[..] == before[to + k := before[from + k]];
        CopiedStep(was, to, from, k);
      }
    }

    /** Copying past the ids leaves them as they are. */
    method CopyPayload(to: nat, from: nat, n: nat)
      requires Sized() && from + n <= bm.Length && to + n <= bm.Length
      requires from + n <= to || to + n <= from
      requires Blocks() <= 4 * to
      modifies bm
      ensures Ids() == old(Ids())
      ensures bm[..] == Copied(old(bm[..]), to, from, n)
    {
      ghost var bytes := bm[..];
      Copy(to, from, n);
      Sizes();
      DecodeFrame(bytes, bm[..], Blocks());
    }

    /** The byte offsets of n blocks from block i. */
    lemma Span(i: nat, n: nat)
      requires Sized() && Meta() <= i && i + n <= Blocks()
      ensures BytesOf(Meta()) <= BytesOf(i) && BytesOf(i) + BytesOf(n) == BytesOf(i + n) <= size
      ensures Blocks() <= 4 * BytesOf(i)
    {
      Sizes();
      assert (i + n) * bsize == i * bsize + n * bsize;
      MulMonotone(Meta(), i, bsize);
      MulMonotone(i + n, Blocks(), bsize);
    }

    /** Ranges of blocks apart are apart in bytes. */
    lemma Separate(i: nat, n: nat, j: nat)
      requires i + n <= j
      ensures BytesOf(i) + BytesOf(n) <= BytesOf(j)
    {
      assert (i + n) * bsize == i * bsize + n * bsize;
      MulMonotone(i + n, j, bsize);
    }

    /** bm_realloc's allocation, next to the old range it is about to copy. */
    method AllocNew(old_: nat, newSize: nat) returns (new_: Option<nat>, ghost i: nat)
      requires Valid() && version == Repaired && InRegion(old_) && ReallocReady(old_, newSize)
      modifies `used, `ffa, bm
      ensures Valid() && Lowest(old(Ids()), i, DivCeil(newSize, bsize)) && new_ == Some(Address(i))
      ensures Ranges(Ids()) == WithRange(old(Ranges(Ids())), i, DivCeil(newSize, bsize))
      ensures Starts(Ids(), BlockOf(old_)) && RunLength(Ids(), BlockOf(old_)) == old(RunLength(Ids(), BlockOf(old_)))
      ensures PayloadKept(old(bm[..]), bm[..], Blocks())
      ensures MayCopy(BlockOf(old_), RunLength(Ids(), BlockOf(old_)), i)
    {
      BlockOfIs(old_);
      ghost var s, was, n, c := BlockOf(old_), Ids(), DivCeil(newSize, bsize), 0 as bv8;
      ghost var len := RunLength(was, s);
      FreePastMeta();
      hide Decode, Blocks, Meta, Books, Ranges, RunLength, Paint, DivCeil, PayloadKept, BytesOf, BlockOf, CopyFits,
        MayCopy, WithRange, ChosenId, Starts;
      new_, i, c := BmAlloc(newSize);
      assert Lowest(was, i, n);
      OldRangeKept(was, Ids(), s, i, n, c);
      CopyInBytes(was, s, i, len);
    }

    lemma CopyInBytes(ids: Ids, s: nat, i: nat, len: nat)
      requires Sized() && |ids| == Blocks() && Meta() <= s && Meta() <= i && s + len <= |ids| && CopyFits(ids, s, i, len)
      ensures MayCopy(s, len, i)
    {
      hide Meta, Blocks, BytesOf;
      Span(i, len);
      Span(s, len);
      if s + len <= i { Separate(s, len, i); } else { Separate(i, len, s); }
    }

    /** Then it counts the old range and copies its bytes. */
    method AllocAndCopy(old_: nat, newSize: nat) returns (new_: Option<nat>, ghost i: nat, ghost len: nat)
      requires Valid() && version == Repaired && InRegion(old_) && ReallocReady(old_, newSize)
      modifies `used, `ffa, bm
      ensures Valid() && Lowest(old(Ids()), i, DivCeil(newSize, bsize)) && new_ == Some(Address(i))
      ensures Ranges(Ids()) == WithRange(old(Ranges(Ids())), i, DivCeil(newSize, bsize))
      ensures Starts(Ids(), BlockOf(old_)) && len == RunLength(old(Ids()), BlockOf(old_))
      ensures PayloadMoved(old(bm[..]), bm[..], Blocks(), BytesOf(i), BytesOf(BlockOf(old_)), BytesOf(len))
    {
      hide Decode, Blocks, Meta, Books, Ranges, RunLength, Fits, Lowest, NoFit, Starts, DivCeil, PayloadKept, BytesOf,
        BlockOf, PayloadMoved, Copied, Ids, WithRange;
      BlockOfIs(old_);
      var s := BlockOf(old_);
      ghost var bytes := bm[..];
      new_, i := AllocNew(old_, newSize);
      ghost var bytes1 := bm[..];
      var count := CountRun(s);
      len := count;
      var to, from, size_ := new_.value - base, old_ - base, BytesOf(count);
      assert to == BytesOf(i) && from == BytesOf(s) && size_ == BytesOf(len);
      CopyPayload(to, from, size_);
      PayloadSteps(bytes, bytes1, bm[..], Blocks(), to, from, size_);
      assert PayloadMoved(bytes, bm[..], Blocks(), BytesOf(i), BytesOf(s), BytesOf(len));
    }

    /** Moves a range: as many bytes as it had arrive at the new block, every other byte past the ids is as
        it was, and the old range is freed.  When the new range is shorter the copy goes past its end,
        over whatever lies there. */
    method BmRealloc(old_: nat, newSize: nat) returns (new_: Option<nat>, ghost i: nat)
      requires Valid() && version == Repaired
      requires InRegion(old_) ==> ReallocReady(old_, newSize)
      modifies `used, `ffa, bm
      ensures Valid() && (InRegion(old_) <==> base + Meta() * bsize <= old_ < base + size)
      ensures !InRegion(old_) ==> new_ == None && bm[..] == old(bm[..]) && used == old(used) && ffa == old(ffa)
      ensures InRegion(old_) ==> new_ == Some(Address(i)) && Lowest(old(Ids()), i, DivCeil(newSize, bsize))
      ensures InRegion(old_) ==>
                Ranges(Ids()) == WithRange(old(Ranges(Ids())), i, DivCeil(newSize, bsize)) - {BlockOf(old_)}
      ensures InRegion(old_) ==>
                PayloadMoved(old(bm[..]), bm[..], Blocks(), BytesOf(i), BytesOf(BlockOf(old_)),
                             BytesOf(RunLength(old(Ids()), BlockOf(old_))))
    {
      hide Decode, Blocks, Meta, Books, Ranges, RunLength, Paint, DivCeil, PayloadKept, BytesOf, BlockOf, PayloadMoved;
      i, new_ := 0, None;
      Accepts(old_);
      if !InRegion(old_) {
        return;
      }
      BlockOfIs(old_);
      ghost var bytes, len, m := bm[..], 0, 0;
      new_, i, len := AllocAndCopy(old_, newSize);
      ghost var bytes1 := bm[..];
      var freed;
      freed, m := BmFree(old_);
      PayloadThen(bytes, bytes1, bm[..], Blocks(), BytesOf(i), BytesOf(BlockOf(old_)), BytesOf(len));
    }
  }
}
