/** src/kernel/mem/pmm.c: the frame allocator, and the page tables built from its frames. */
module Pmm {
  import opened Bits
  import opened KernelH
  import opened Frames
  import opened PageTree
  import opened MemoryMap
  import opened Subtree
  import opened Draw
  import Mmu

  /** What alloc_frame does to the free set: it takes the lowest member and returns its address, or
      returns NULL because there is none. */
  ghost predicate Allocated(was: set<nat>, now: set<nat>, address: nat) {
    && (address == 0 <==> was == {})
    && (address == 0 ==> now == was)
    && (address != 0 ==>
          var f := address / PAGE_SIZE;
          && address == f * PAGE_SIZE < TWO_64
          && f in was && (forall g :: g in was ==> f <= g)
          && now == was - {f})
  }

  lemma AllocatedTakes(was: set<nat>, now: set<nat>, address: nat)
    requires Allocated(was, now, address)
    ensures LowestTaken(was, now) && address % PAGE_SIZE == 0 && address < TWO_64
    ensures address != 0 ==> |now| < |was|
  {}

  // ---- Runs of the frame allocator ----------------------------------------------------------------

  /** A call on the frame allocator and what came of it: alloc_frame returned an address, or the bit of
      an address was set or cleared. */
  datatype FrameCall = Took(address: nat) | Marked(address: nat) | Freed(address: nat)

  ghost predicate FrameStep(was: set<nat>, c: FrameCall, now: set<nat>) {
    match c
    case Took(address) => Allocated(was, now, address)
    case Marked(address) => now == was || now == was - {address / PAGE_SIZE}
    case Freed(address) => now == if address != 0 then was + {address / PAGE_SIZE} else was
  }

  /** The free sets before and after each call of a run. */
  ghost predicate FrameRun(states: seq<set<nat>>, calls: seq<FrameCall>) {
    |states| == |calls| + 1 && forall i :: 0 <= i < |calls| ==> FrameStep(states[i], calls[i], states[i + 1])
  }

  /** A frame that is not free stays so until a call clears its bit. */
  lemma {:induction false} StaysTaken(states: seq<set<nat>>, calls: seq<FrameCall>, f: nat, i: nat, j: nat)
    requires FrameRun(states, calls) && i <= j <= |calls| && f !in states[i]
    requires forall k :: i <= k < j && calls[k].Freed? ==> calls[k].address / PAGE_SIZE != f
    ensures f !in states[j]
    decreases j - i
  {
    if i < j {
      assert FrameStep(states[i], calls[i], states[i + 1]);
      StaysTaken(states, calls, f, i + 1, j);
    }
  }

  /** No run hands a frame out twice without clearing its bit in between. */
  lemma GivenOnce(states: seq<set<nat>>, calls: seq<FrameCall>, i: nat, j: nat)
    requires FrameRun(states, calls) && i < j < |calls|
    requires calls[i].Took? && calls[j] == calls[i] && calls[i].address != 0
    ensures exists k :: i < k < j && calls[k].Freed? && calls[k].address / PAGE_SIZE == calls[i].address / PAGE_SIZE
  {
    var f := calls[i].address / PAGE_SIZE;
    assert FrameStep(states[i], calls[i], states[i + 1]) && FrameStep(states[j], calls[j], states[j + 1]);
    if forall k :: i < k < j && calls[k].Freed? ==> calls[k].address / PAGE_SIZE != f {
      StaysTaken(states, calls, f, i + 1, j);
      assert false;
    }
  }

  /** A call as it is made. */
  datatype FrameOp = Take | Mark(address: nat) | Release(address: nat)

  /** The part of the kernel's memory record this file works on.  Frame f is the physical page at
      address 4096 * f; `mem` holds the words of the frames that are page tables. */
  class Kmem {
    const bitmap: array<nat>
    const memPages: nat
    const pml4: nat
    var mem: Memory
    ghost var free: set<nat>

    /** The rows are 64-bit words, few enough for the 16-bit row counter; `free` is what they say. */
    ghost predicate Rows()
      reads `free, bitmap
    {
      && bitmap.Length <= 0xFFFF
      && memPages <= ROW_BITS * bitmap.Length
      && Words(bitmap[..])
      && free == FreeFrames(bitmap[..])
    }

    /** Besides, frame 0 and frames past the end of memory are never free. */
    ghost predicate Valid()
      reads `free, bitmap
    {
      Rows() && forall f :: f in free ==> 0 < f < memPages
    }

    method PmmSetBit(address: nat)
      requires Valid()
      requires address / PAGE_SIZE <= memPages ==> address / PAGE_SIZE < ROW_BITS * bitmap.Length
      modifies `free, bitmap
      ensures Valid()
      ensures free == if address != 0 && address / PAGE_SIZE <= memPages then old(free) - {address / PAGE_SIZE}
                      else old(free)
    {
      if address == 0 {
        return;
      }
      var f := address / PAGE_SIZE;
      if f > memPages {
        return;
      }
      var row, col := f / ROW_BITS, f % ROW_BITS;
      ghost var was := bitmap[..];
      SetBit(was, f);
      bitmap[row] := Or(bitmap[row], Pow2(col));
      assert bitmap[..] == was[row := Or(was[row], Pow2(col))];
      free := free - {f};
    }

    /** Any address but 0 frees its frame: frame 0 too, for an address inside it, and a frame past the end
        of memory, as far as the rows reach. */
    method PmmClearBit(address: nat)
      requires Rows()
      requires address == 0 || address / PAGE_SIZE < ROW_BITS * bitmap.Length
      modifies `free, bitmap
      ensures Rows()
      ensures old(Valid()) ==> (Valid() <==> address == 0 || 0 < address / PAGE_SIZE < memPages)
      ensures free == if address != 0 then old(free) + {address / PAGE_SIZE} else old(free)
    {
      if address == 0 {
        return;
      }
      var f := address / PAGE_SIZE;
      var row, col := f / ROW_BITS, f % ROW_BITS;
      ghost var was := bitmap[..];
      Frames.ClearBit(was, f);
      bitmap[row] := And(bitmap[row], Not(Pow2(col), 64));
      assert bitmap[..] == was[row := And(was[row], Not(Pow2(col), 64))];
      free := free + {f};
    }

    /** True when the frame is free: the bit is clear. */
    method PmmCheckBit(address: nat) returns (clear: bool)
      requires Valid() && address / PAGE_SIZE < ROW_BITS * bitmap.Length
      ensures clear <==> address / PAGE_SIZE in free
    {
      var f := address / PAGE_SIZE;
      TestBit(bitmap[f / ROW_BITS], f % ROW_BITS);
      clear := And(bitmap[f / ROW_BITS], Pow2(f % ROW_BITS)) == 0;
    }

    /** The lowest free frame, or -1 when there is none.  The row counter is 16 bits wide. */
    method PmmRequestFrame() returns (frame: int)
      requires Valid()
      ensures frame == -1 <==> free == {}
      ensures frame != -1 ==> frame in free && forall g :: g in free ==> frame <= g
    {
      var row := 0;
      while row < bitmap.Length
        invariant 0 <= row <= bitmap.Length
        invariant forall g :: g in free ==> ROW_BITS * row <= g
        decreases bitmap.Length - row
      {
        FullRow(bitmap[row]);
        if bitmap[row] != ROW_FULL {
          var col := 0;
          while col < ROW_BITS
            invariant 0 <= col <= ROW_BITS
            invariant forall i: nat :: i < col ==> Bit(bitmap[row], i)
          {
            TestBit(bitmap[row], col);
            if And(bitmap[row], Pow2(col)) == 0 {
              frame := row * ROW_BITS + col;
              assert frame / ROW_BITS == row && frame % ROW_BITS == col;
              assert frame in free;
              NoneBefore(bitmap[..], row, col);
              return;
            }
            col := col + 1;
          }
          assert false;
        }
        NoneBefore(bitmap[..], row, ROW_BITS);
        row := (row + 1) % 0x1_0000;
      }
      frame := -1;
    }

    /** Takes the lowest free frame and returns its address, or returns NULL and takes nothing. */
    method AllocFrame() returns (address: nat)
      requires Valid()
      modifies `free, bitmap
      ensures Valid() && Allocated(old(free), free, address)
    {
      var frame := PmmRequestFrame();
      if frame > 0 {
        PmmSetBit(frame * PAGE_SIZE);
        return frame * PAGE_SIZE;
      }
      return 0;
    }

    /** The calls a run may make: no bit past the rows, and none but of frames of memory is cleared. */
    ghost predicate MayCall(op: FrameOp) {
      match op
      case Take => true
      case Mark(address) => address / PAGE_SIZE <= memPages ==> address / PAGE_SIZE < ROW_BITS * bitmap.Length
      case Release(address) => address == 0 || 0 < address / PAGE_SIZE < memPages
    }

    /** One call of the allocator is a step of a run. */
    method FrameCalled(op: FrameOp) returns (ghost call: FrameCall)
      requires Valid() && MayCall(op)
      modifies `free, bitmap
      ensures Valid() && FrameStep(old(free), call, free)
      ensures match op
              case Take => call.Took?
              case Mark(address) => call == Marked(address)
              case Release(address) => call == Freed(address)
    {
      hide Rows;
      RowsHold();
      match op {
        case Take =>
          var address := AllocFrame();
          call := Took(address);
        case Mark(address) =>
          PmmSetBit(address);
          call := Marked(address);
        case Release(address) =>
          PmmClearBit(address);
          call := Freed(address);
      }
    }

    /** So any sequence of calls is a run, of which GivenOnce speaks. */
    method FrameCalls(ops: seq<FrameOp>) returns (ghost states: seq<set<nat>>, ghost calls: seq<FrameCall>)
      requires Valid() && forall op :: op in ops ==> MayCall(op)
      modifies `free, bitmap
      ensures Valid() && FrameRun(states, calls) && |calls| == |ops|
      ensures states[0] == old(free) && states[|calls|] == free
    {
      hide Valid, FrameStep;
      states, calls := [free], [];
      for i := 0 to |ops|
        invariant Valid() && FrameRun(states, calls) && |calls| == i
        invariant states[0] == old(free) && states[i] == free
      {
        ghost var call := FrameCalled(ops[i]);
        states, calls := states + [free], calls + [call];
      }
    }

    lemma AreaNone(start: nat)
      ensures Pages(start / PAGE_SIZE, 0) == {}
    {}

    /** Page i of an area, and the area up to it. */
    lemma AreaStep(start: nat, i: nat)
      requires start % PAGE_SIZE == 0
      ensures (start + PAGE_SIZE * i) / PAGE_SIZE == start / PAGE_SIZE + i
      ensures start + PAGE_SIZE * i == 0 <==> start / PAGE_SIZE + i == 0
      ensures Pages(start / PAGE_SIZE, i + 1) == Pages(start / PAGE_SIZE, i) + {start / PAGE_SIZE + i}
    {}

    lemma RowsHold()
      requires Valid()
      ensures Rows() && memPages <= ROW_BITS * bitmap.Length
    {}

    lemma AreaMember(start: nat, n: nat, i: nat)
      requires i < n
      ensures start / PAGE_SIZE + i in Pages(start / PAGE_SIZE, n)
    {}

    method PmmSetArea(start: nat, numPages: nat)
      requires Valid() && start % PAGE_SIZE == 0
      requires memPages < ROW_BITS * bitmap.Length || memPages !in Pages(start / PAGE_SIZE, numPages)
      modifies `free, bitmap
      ensures Valid()
      ensures free == old(free) - Pages(start / PAGE_SIZE, numPages)
    {
      hide Valid, Pages;
      AreaNone(start);
      for i := 0 to numPages
        invariant Valid()
        invariant free == old(free) - Pages(start / PAGE_SIZE, i)
      {
        AreaStep(start, i);
        AreaMember(start, numPages, i);
        RowsHold();
        PmmSetBit(start + PAGE_SIZE * i);
      }
    }

    lemma AreaValid(was: set<nat>, v: nat, n: nat)
      requires forall f :: f in was ==> 0 < f < memPages
      ensures (forall f :: f in was + (Pages(v, n) - {0}) ==> 0 < f < memPages) <==>
              v + n <= memPages || Pages(v, n) <= {0}
    {
      if v + n > memPages && n > 0 {
        assert v + n - 1 in Pages(v, n);
        assert v + n > 1 ==> v + n - 1 in was + (Pages(v, n) - {0});
      }
    }

    method PmmClearArea(start: nat, numPages: nat)
      requires Valid() && start % PAGE_SIZE == 0
      requires start / PAGE_SIZE + numPages <= ROW_BITS * bitmap.Length
      modifies `free, bitmap
      ensures Rows()
      ensures Valid() <==> start / PAGE_SIZE + numPages <= memPages || Pages(start / PAGE_SIZE, numPages) <= {0}
      ensures free == old(free) + (Pages(start / PAGE_SIZE, numPages) - {0})
    {
      hide *;
      assert PAGE_SIZE > 0 by { PageSize(); }
      RowsHold();
      ValidFree();
      AreaNone(start);
      AreaValid(free, start / PAGE_SIZE, numPages);
      for i := 0 to numPages
        invariant Rows()
        invariant free == old(free) + (Pages(start / PAGE_SIZE, i) - {0})
      {
        AreaStep(start, i);
        AreaRow(start, numPages, i);
        PmmClearBit(start + PAGE_SIZE * i);
      }
      ValidFree();
    }

    lemma PageSize()
      ensures PAGE_SIZE == 4096 && ROW_BITS == 64
    {}

    lemma AreaRow(start: nat, n: nat, i: nat)
      requires start % PAGE_SIZE == 0 && i < n && start / PAGE_SIZE + n <= ROW_BITS * bitmap.Length
      ensures (start + PAGE_SIZE * i) / PAGE_SIZE < ROW_BITS * bitmap.Length
    {}

    lemma ValidFree()
      requires Rows()
      ensures Valid() <==> forall f :: f in free ==> 0 < f < memPages
    {
      hide Rows;
    }

    /** Marks everything used, then frees the usable descriptors of the memory map.  Nothing is
        assumed of the rows' old contents, and frame 8, reserved before the areas are cleared, is
        reserved at the end only if no usable descriptor covers it. */
    method InitPmm(mmap: seq<Descriptor>)
      requires bitmap.Length == BitmapRows(mmap) <= 0xFFFF && memPages == MemPages(mmap)
      requires MaxEnd(mmap) < TWO_64 && forall i :: 0 <= i < |mmap| ==> WellFormed(mmap[i])
      modifies `free, bitmap
      ensures Valid()
      ensures forall f: nat :: f in free <==> f != 0 && Released(mmap, f)
    {
      for i := 0 to bitmap.Length
        invariant forall j :: 0 <= j < i ==> bitmap[j] == ROW_FULL
      {
        bitmap[i] := ROW_FULL;
      }
      free := {};
      AllFull(bitmap[..]);
      RowsCover(mmap);
      PmmSetBit(0x8000);
      for i := 0 to |mmap|
        invariant Valid()
        invariant free == FreedBy(mmap, i)
      {
        if Usable(mmap[i]) {
          AreaInside(mmap, i);
          RowsHold();
          hide Valid, Rows, FreeFrames;
          PmmClearArea(mmap[i].physicalStart, mmap[i].count);
        }
      }
    }

    // ---- Page tables ----------------------------------------------------------------------------

    /** The state of one address space: its root table is the frame of `tree[ROOT]`. */
    ghost function System(tree: Tree): Sys
      reads this
    {
      Sys(mem, free, tree, memPages, USER_PT_ENTRY)
    }

    /** The tables are in order, and the free frames suffice for mapping pages with these paths. */
    ghost predicate Ready(p4: nat, tree: Tree, slots: set<Slot>)
      reads this
    {
      Space(p4, tree) && Supplied(System(tree), slots)
    }

    /** `table[i]` is the empty entry for the missing table of slot s. */
    ghost predicate AddReady(table: nat, i: nat, p4: nat, tree: Tree, s: Slot)
      reads this
    {
      && Ready(p4, tree, {s})
      && 1 <= s.level <= 3 && s !in tree && Parent(s) in tree
      && table == tree[Parent(s)] * PAGE_SIZE && i == Index(s)
    }

    /** `table[i]` is the level-(l + 1) entry for page q. */
    ghost predicate NextReady(table: nat, i: nat, p4: nat, tree: Tree, q: nat, l: nat)
      reads this
    {
      && Ready(p4, tree, {At(q, l)})
      && 1 <= l <= 3 && At(q, l + 1) in tree
      && table == tree[At(q, l + 1)] * PAGE_SIZE && i == Prefix(q, l) % 512
    }

    /** The upper indices of address v lead to page q. */
    ghost predicate Leads(v: nat, q: nat) {
      && q < PAGES && At(q, 4) == ROOT && Path(q) == {At(q, 3)} + ({At(q, 2)} + {At(q, 1)})
      && P4Entry(v) == Prefix(q, 3) % 512 && P3Entry(v) == Prefix(q, 2) % 512 && P2Entry(v) == Prefix(q, 1) % 512
    }

    /** A range that neither starts at a zero address nor wraps, off the pages of free frames. */
    ghost predicate RangeReady(physical: nat, virtual: nat, n: nat, p4: nat, tree: Tree)
      reads this
    {
      && Ready(p4, tree, Paths(Pages(Page(virtual), n)))
      && 0 < physical && physical + n * PAGE_SIZE <= TWO_64
      && 0 < virtual && virtual + n * PAGE_SIZE <= TWO_64 && Page(virtual) + n <= PAGES
      && Pages(Page(virtual), n) !! free
    }

    ghost predicate Space(p4: nat, tree: Tree)
      reads this
    {
      PageTree.Valid(System(tree)) && ROOT in tree && p4 == tree[ROOT] * PAGE_SIZE
    }

    /** The tables can be walked from p4, whatever the free set says. */
    ghost predicate Walkable(p4: nat, tree: Tree)
      reads this
    {
      PageTree.Valid(System(tree).(free := {})) && ROOT in tree && p4 == tree[ROOT] * PAGE_SIZE
    }

    lemma SpaceWalks(p4: nat, tree: Tree)
      requires Space(p4, tree)
      ensures Walkable(p4, tree)
    {
      hide Linked, Shape;
    }

    /** `table[i]` for a table at a page-aligned address. */
    function Load(table: nat, i: nat): nat
      reads this
    {
      Entry(mem, table / PAGE_SIZE, i)
    }

    method CleanTable(table: nat)
      modifies `mem
      ensures forall f: nat, i: nat :: Entry(mem, f, i) ==
                if f == table / PAGE_SIZE && i < 512 then 0 else Entry(old(mem), f, i)
    {
      var t := table / PAGE_SIZE;
      for i := 0 to 512
        invariant forall f: nat, j: nat :: Entry(mem, f, j) == if f == t && j < i then 0 else Entry(old(mem), f, j)
      {
        ghost var was := mem;
        mem := mem[(t, i) := 0];
        assert forall f: nat, j: nat :: Entry(mem, f, j) == if f == t && j == i then 0 else Entry(was, f, j);
      }
    }

    /** Allocates a frame, links it from entry i of `table` and clears it. */
    method LinkTable(table: nat, i: nat) returns (new_: nat)
      requires Valid() && table % PAGE_SIZE == 0
      modifies `mem, `free, bitmap
      ensures Valid() && Allocated(old(free), free, new_)
      ensures forall f: nat, j: nat :: Entry(mem, f, j) ==
                if f == new_ / PAGE_SIZE && j < 512 then 0
                else Entry(old(mem)[(table / PAGE_SIZE, i) := Or(new_, USER_PT_ENTRY)], f, j)
    {
      hide Or, Valid, Allocated;
      new_ := AllocFrame();
      mem := mem[(table / PAGE_SIZE, i) := Or(new_, USER_PT_ENTRY)];
      CleanTable(new_);
    }

    /** Adds the table of slot s and identity-maps it in the tree that is being extended.  depth counts
        the calls of map_addr nested in one another. */
    method AddTable(table: nat, i: nat, p4: nat, ghost tree: Tree, ghost s: Slot)
      returns (ghost tree': Tree, ghost depth: nat)
      requires Valid() && p4 % PAGE_SIZE == 0 && table % PAGE_SIZE == 0
      modifies `mem, `free, bitmap
      ensures Valid() && LowestTaken(old(free), free)
      ensures old(AddReady(table, i, p4, tree, s)) ==>
                && Extends(old(System(tree)), System(tree'), {s}, map[]) && Draws(old(System(tree)), System(tree'), {s})
                && Space(p4, tree') && (Paths(old(free)) <= tree.Keys ==> depth == 1)
      decreases |free|, 1
    {
      hide Extends, Or, And, PageTree.Valid, Draws, Supplied, Path, AlignAddr, Page, Adds, Valid, Entry;
      hide LowestTaken, FreeFrames;
      ghost var ready := AddReady(table, i, p4, tree, s);
      ghost var a := System(tree);
      if ready { NeedsFrame(a, s); }
      var new_ := LinkTable(table, i);
      ghost var n := new_ / PAGE_SIZE;
      ghost var b := System(tree[s := n]);
      if ready {
        LinkStep(a, b, s, n, table, new_);
        AddedSupply(a, b, s, n);
        FrameAddress(n);
        OwnPath(a, b, s, n);
      }
      AllocatedTakes(a.free, free, new_);
      tree', depth := MapAddr(new_, new_, KERNEL_PT_ENTRY, p4, b.tree);
      depth := depth + 1;
      LowestTrans(a.free, b.free, free);
      if ready {
        AddedAndMapped(a, b, System(tree'), s, n);
        ExtendsIs(b, System(tree'), Path(n), map[n := n * PAGE_SIZE + KERNEL_PT_ENTRY]);
        AddedDraws(a, b, System(tree'), s, n);
      }
    }

    /** The block map_addr repeats for each level: when the entry for page q is absent, add the table;
        then follow the entry. */
    method NextTable(table: nat, i: nat, p4: nat, ghost tree: Tree, ghost q: nat, ghost l: nat)
      returns (next: nat, ghost tree': Tree, ghost depth: nat)
      requires Valid() && p4 % PAGE_SIZE == 0 && table % PAGE_SIZE == 0
      modifies `mem, `free, bitmap
      ensures Valid() && LowestTaken(old(free), free) && next % PAGE_SIZE == 0
      ensures old(NextReady(table, i, p4, tree, q, l)) ==>
                && Extends(old(System(tree)), System(tree'), {At(q, l)}, map[])
                && Draws(old(System(tree)), System(tree'), {At(q, l)}) && Space(p4, tree')
                && At(q, l) in tree' && next == tree'[At(q, l)] * PAGE_SIZE
                && (At(q, l) in tree ==> depth == 0) && (Paths(old(free)) <= tree.Keys ==> depth <= 1)
      decreases |free|, 2
    {
      hide *;
      LowestSelf(free);
      ghost var ready := NextReady(table, i, p4, tree, q, l);
      ghost var a := System(tree);
      tree', depth := tree, 0;
      if ready { NextReadyIs(table, i, p4, tree, q, l); }
      if And(Load(table, i), 1) == 0 {
        tree', depth := AddTable(table, i, p4, tree, At(q, l));
      } else if ready {
        ExtendsSelf(a, {At(q, l)});
        SelfDraws(a, {At(q, l)});
      }
      if ready {
        ExtendsTables(a, System(tree'), At(q, l), map[]);
        SystemFree(tree');
        EntryFollowed(table, i, a, tree', q, l);
      }
      next := And(Load(table, i), SIGN_MASK);
      FrameAligned(Load(table, i));
    }

    lemma NextReadyIs(table: nat, i: nat, p4: nat, tree: Tree, q: nat, l: nat)
      requires NextReady(table, i, p4, tree, q, l)
      ensures Space(p4, tree) && PageTree.Valid(System(tree)) && System(tree).tree == tree
      ensures 1 <= l <= 3 && At(q, l + 1) in tree && table == tree[At(q, l + 1)] * PAGE_SIZE && i == Prefix(q, l) % 512
      ensures And(Load(table, i), 1) == 0 <==> At(q, l) !in tree
      ensures At(q, l) !in tree ==> AddReady(table, i, p4, tree, At(q, l))
      ensures At(q, l) in tree ==> {At(q, l)} <= System(tree).tree.Keys
    {
      hide And, Supplied, PageTree.Valid, Prefix;
      FollowEntry(System(tree), q, l);
      ParentOf(q, l);
    }

    lemma EntryFollowed(table: nat, i: nat, a: Sys, tree: Tree, q: nat, l: nat)
      requires PageTree.Valid(System(tree)) && 1 <= l <= 3 && At(q, l) in tree && At(q, l + 1) in a.tree
      requires table == a.tree[At(q, l + 1)] * PAGE_SIZE && i == Prefix(q, l) % 512
      requires forall x :: x in a.tree ==> x in System(tree).tree && System(tree).tree[x] == a.tree[x]
      ensures And(Load(table, i), SIGN_MASK) == tree[At(q, l)] * PAGE_SIZE
    {
      hide And, PageTree.Valid, Prefix;
      FollowEntry(System(tree), q, l);
    }

    lemma FrameAligned(e: nat)
      ensures And(e, SIGN_MASK) % PAGE_SIZE == 0
    {
      hide And;
      SignMaskIs(e);
    }

    /** The level-1 table of a page, after adding the tables missing on the way to it. */
    method LeafTable(v: nat, p4: nat, ghost tree: Tree, ghost q: nat)
      returns (p1Tbl: nat, ghost tree': Tree, ghost depth: nat)
      requires Valid() && p4 % PAGE_SIZE == 0
      modifies `mem, `free, bitmap
      ensures Valid() && LowestTaken(old(free), free) && p1Tbl % PAGE_SIZE == 0
      ensures old(Ready(p4, tree, Path(q))) && Leads(v, q) ==>
                && Extends(old(System(tree)), System(tree'), Path(q), map[])
                && Draws(old(System(tree)), System(tree'), Path(q)) && Space(p4, tree')
                && At(q, 1) in tree' && p1Tbl == tree'[At(q, 1)] * PAGE_SIZE
                && (Path(q) <= tree.Keys ==> depth == 0) && (Paths(old(free)) <= tree.Keys ==> depth <= 1)
      decreases |free|, 3
    {
      hide Extends, And, Draws, Supplied, Valid, PageTree.Valid, Prefix, Path, Paths;
      hide P1Entry, P2Entry, P3Entry, P4Entry;
      var p4Idx, p3Idx, p2Idx := P4Entry(v), P3Entry(v), P2Entry(v);
      ghost var ready := Ready(p4, tree, Path(q)) && Leads(v, q);
      ghost var a := System(tree);
      ghost var d3, d2, d1;
      var p3Tbl, p2Tbl;
      if ready { SupplyFirst(a, {At(q, 3)}, {At(q, 2)} + {At(q, 1)}); }
      p3Tbl, tree', d3 := NextTable(p4, p4Idx, p4, tree, q, 3);
      ghost var b3 := System(tree');
      Subset(b3.free, a.free);
      if ready {
        SupplyRest(a, b3, {At(q, 3)}, {At(q, 2)} + {At(q, 1)});
        SupplyFirst(b3, {At(q, 2)}, {At(q, 1)});
      }
      p2Tbl, tree', d2 := NextTable(p3Tbl, p3Idx, p4, tree', q, 2);
      ghost var b2 := System(tree');
      Subset(b2.free, a.free);
      if ready { SupplyRest(b3, b2, {At(q, 2)}, {At(q, 1)}); }
      p1Tbl, tree', d1 := NextTable(p2Tbl, p2Idx, p4, tree', q, 1);
      depth := if d1 > 0 then d1 else if d2 > 0 then d2 else d3;
      if ready {
        PathAdded(a, b3, b2, System(tree'), q);
        PathDrawn(a, b3, b2, System(tree'), q);
      }
    }

    /** Maps a page, given enough frames; and when there are not enough of the lowest frames, no map of
        tables makes the outcome what it should be.  The frames taken are those of Draw.Drawn. */
    method MapAddr(physical: nat, virtual: nat, flags: nat, p4: nat, ghost tree: Tree)
      returns (ghost tree': Tree, ghost depth: nat)
      requires Valid() && p4 % PAGE_SIZE == 0 && physical < TWO_64 && virtual < TWO_64
      modifies `mem, `free, bitmap
      ensures Valid() && LowestTaken(old(free), free)
      ensures physical == 0 || virtual == 0 ==> mem == old(mem) && free == old(free) && tree' == tree
      ensures physical != 0 && virtual != 0 && old(Ready(p4, tree, Path(Page(virtual)))) ==>
                && Extends(old(System(tree)), System(tree'), Path(Page(virtual)),
                           map[Page(virtual) := Or(AlignAddr(physical), flags)])
                && Draws(old(System(tree)), System(tree'), Path(Page(virtual))) && Space(p4, tree')
                && (Path(Page(virtual)) <= tree.Keys ==> depth == 0) && (Paths(old(free)) <= tree.Keys ==> depth <= 1)
      ensures physical != 0 && virtual != 0 && flags % 2 == 1 && flags < 4096 &&
              old(Ready(p4, tree, Path(Page(virtual)))) && old(Mmu.Linking(System(tree), true)) ==>
                && Mmu.Linking(System(tree'), true)
                && Mmu.OnlyPage(old(mem), mem, p4 / 4096, virtual / 4096 % 0x10_0000_0000,
                     Mmu.Access(physical / 4096 % 0x100_0000_0000, flags / 2 % 2 == 1, flags / 4 % 2 == 1),
                     old(free) - free)
      ensures old(Space(p4, tree)) && !old(Supplied(System(tree), Path(Page(virtual)))) ==>
                Never(old(System(tree)), Path(Page(virtual)), map[Page(virtual) := Or(AlignAddr(physical), flags)])
      decreases |free|, if physical == 0 || virtual == 0 then 0 else 4
    {
      hide Extends, Or, And, Draws, Supplied, Valid, PageTree.Valid, Prefix, AlignAddr, Page, LowestTaken, Never;
      hide P1Entry, P2Entry, P3Entry, P4Entry;
      tree', depth := tree, 0;
      ghost var a, q, over := System(tree), Page(virtual), map[Page(virtual) := Or(AlignAddr(physical), flags)];
      if physical == 0 || virtual == 0 {
        LowestSelf(free);
        NeverExtends(a, Path(q), over);
        return;
      }
      var p, v := AlignAddr(physical), AlignAddr(virtual);
      ghost var ready := Ready(p4, tree, Path(q));
      WalkIndices(virtual);
      var p1Tbl;
      p1Tbl, tree', depth := LeafTable(v, p4, tree, q);
      ghost var b := System(tree');
      var f, i := p1Tbl / PAGE_SIZE, P1Entry(v);
      assert ready ==> f == b.tree[At(q, 1)] && i == q % 512;
      mem := mem[(f, i) := Or(p, flags)];
      if ready {
        PageMapped(a, b, System(tree'), q, Or(p, flags));
        SameDraws(a, b, System(tree'), Path(q));
        if flags % 2 == 1 && flags < 4096 { Reached(a, System(tree'), p4, virtual, physical, flags); }
      }
      NeverExtends(a, Path(q), over);
    }

    /** What the processor then finds. */
    lemma Reached(a: Sys, b: Sys, p4: nat, virtual: nat, physical: nat, flags: nat)
      requires PageTree.Valid(a) && ROOT in a.tree && p4 == a.tree[ROOT] * PAGE_SIZE && a.link == USER_PT_ENTRY
      requires Extends(a, b, Path(Page(virtual)), map[Page(virtual) := Or(AlignAddr(physical), flags)])
      requires flags % 2 == 1 && flags < 4096 && physical < TWO_64 && virtual < TWO_64
      ensures Mmu.Linking(a, true) ==>
                && Mmu.Linking(b, true)
                && Mmu.OnlyPage(a.mem, b.mem, p4 / 4096, virtual / 4096 % 0x10_0000_0000,
                     Mmu.Access(physical / 4096 % 0x100_0000_0000, flags / 2 % 2 == 1, flags / 4 % 2 == 1),
                     a.free - b.free)
    {
      hide Extends, PageTree.Valid, Or, AlignAddr, Mmu.Linking, Mmu.OnlyPage, Path;
      if Mmu.Linking(a, true) { Mmu.PageWalks(a, b, Page(virtual), physical, flags, true); }
    }

    /** With no map of tables at all is this state the extension it should be. */
    ghost predicate Never(a: Sys, slots: set<Slot>, over: map<nat, nat>)
      reads this
    {
      forall t: Tree :: !Extends(a, System(t), slots, over)
    }

    lemma NeverExtends(a: Sys, slots: set<Slot>, over: map<nat, nat>)
      requires LowestTaken(a.free, free)
      ensures PageTree.Valid(a) && !Supplied(a, slots) ==> Never(a, slots, over)
    {
      hide LowestTaken, Extends, PageTree.Valid, Supplied;
      forall t: Tree | PageTree.Valid(a) && Extends(a, System(t), slots, over) ensures Supplied(a, slots) {
        LowerTaken(a, System(t), slots, over);
        OnlySupplied(a, System(t), slots, over);
      }
    }

    method MapRange(physical: nat, virtual: nat, numPages: nat, flags: nat, p4: nat, ghost tree: Tree)
      returns (ghost tree': Tree)
      requires Valid() && p4 % PAGE_SIZE == 0 && physical < TWO_64 && virtual < TWO_64
      modifies `mem, `free, bitmap
      ensures Valid() && LowestTaken(old(free), free)
      ensures old(RangeReady(physical, virtual, numPages, p4, tree)) ==>
                && Extends(old(System(tree)), System(tree'), Paths(Pages(Page(virtual), numPages)),
                           RangeMap(Page(virtual), numPages, AlignAddr(physical), flags))
                && Draws(old(System(tree)), System(tree'), Paths(Pages(Page(virtual), numPages))) && Space(p4, tree')
    {
      hide *;
      PageSize();
      LowestSelf(free);
      ghost var ready := RangeReady(physical, virtual, numPages, p4, tree);
      ghost var a, v, p := System(tree), Page(virtual), AlignAddr(physical);
      tree' := tree;
      if ready {
        RangeReadyIs(physical, virtual, numPages, p4, tree);
        RangeNone(v, p, flags);
        NoneMapped(a);
      }
      for i := 0 to numPages
        invariant Valid() && LowestTaken(old(free), free)
        invariant ready ==> Extends(a, System(tree'), Paths(Pages(v, i)), RangeMap(v, i, p, flags))
        invariant ready ==> Draws(a, System(tree'), Paths(Pages(v, i))) && Space(p4, tree')
      {
        ghost var b, depth, q := System(tree'), 0, v + i;
        SystemFree(tree');
        var from, to := (physical + i * PAGE_SIZE) % TWO_64, (virtual + i * PAGE_SIZE) % TWO_64;
        if ready {
          RangePage(physical, virtual, numPages, i, from, to);
          PageSupplied(a, b, v, i, numPages, RangeMap(v, i, p, flags));
          MakeReady(p4, tree', Path(q));
        }
        tree', depth := MapAddr(from, to, flags, p4, tree');
        LowestTrans(old(free), b.free, free);
        if ready {
          RangeDrawn(a, b, System(tree'), v, i, RangeMap(v, i, p, flags), map[q := Or(AlignAddr(from), flags)]);
          FewerPages(v, i, numPages, a.free);
          RangeStep(a, b, System(tree'), v, i, p, flags, q, Or(AlignAddr(from), flags));
        }
      }
    }

    lemma SystemFree(tree: Tree)
      ensures System(tree).free == free && System(tree).tree == tree
    {}

    lemma NoneMapped(a: Sys)
      requires PageTree.Valid(a)
      ensures Extends(a, a, {}, map[]) && Draws(a, a, {})
    {
      ExtendsSelf(a, {});
      SelfDraws(a, {});
    }

    lemma RangeReadyIs(physical: nat, virtual: nat, n: nat, p4: nat, tree: Tree)
      requires RangeReady(physical, virtual, n, p4, tree)
      ensures Space(p4, tree) && PageTree.Valid(System(tree)) && Supplied(System(tree), Paths(Pages(Page(virtual), n)))
      ensures 0 < physical && physical + n * PAGE_SIZE <= TWO_64
      ensures 0 < virtual && virtual + n * PAGE_SIZE <= TWO_64 && Page(virtual) + n <= PAGES
      ensures Pages(Page(virtual), n) !! System(tree).free
    {
      hide PageTree.Valid, Supplied, Paths, Page, Pages;
    }

    lemma MakeReady(p4: nat, tree: Tree, slots: set<Slot>)
      requires Space(p4, tree) && Supplied(System(tree), slots)
      ensures Ready(p4, tree, slots)
    {
      hide Space, Supplied;
    }

    lemma RangePage(physical: nat, virtual: nat, n: nat, i: nat, from: nat, to: nat)
      requires i < n && 0 < physical && physical + n * PAGE_SIZE <= TWO_64
      requires 0 < virtual && virtual + n * PAGE_SIZE <= TWO_64 && Page(virtual) + n <= PAGES
      requires from == (physical + i * PAGE_SIZE) % TWO_64 && to == (virtual + i * PAGE_SIZE) % TWO_64
      ensures 0 < from && 0 < to && Page(to) == Page(virtual) + i
      ensures AlignAddr(from) == AlignAddr(physical) + i * PAGE_SIZE
    {
      hide AlignAddr, Page;
      PageOfRange(physical, virtual, i);
    }

    lemma FewerPages(v: nat, i: nat, n: nat, free: set<nat>)
      requires Pages(v, n) !! free && i <= n
      ensures Pages(v, i) !! free
    {}

    /** The frame address in the leaf of a page; a NULL table means the kernel's. */
    method TranslateAddr(virtual: nat, p4Tbl: nat, ghost tree: Tree) returns (physical: nat)
      requires virtual < TWO_64
      ensures Walkable(if p4Tbl == 0 then pml4 else p4Tbl, tree) ==>
                physical == Translation(System(tree), Page(virtual))
    {
      hide And, Or, PageTree.Valid, Prefix, AlignAddr, Page, P1Entry, P2Entry, P3Entry, P4Entry;
      var p4 := if p4Tbl == 0 then pml4 else p4Tbl;
      var v := AlignAddr(virtual);
      var p4Idx, p3Idx, p2Idx, p1Idx := P4Entry(v), P3Entry(v), P2Entry(v), P1Entry(v);
      ghost var q, walkable, a := Page(virtual), Walkable(p4, tree), System(tree).(free := {});
      assert Translation(System(tree), q) == Translation(a, q);
      WalkIndices(virtual);

      if walkable { FollowEntry(a, q, 3); }
      if And(Load(p4, p4Idx), 1) == 0 {
        if walkable { NoneBelow(a, q, 2); NoneBelow(a, q, 1); }
        return 0;
      }
      var p3Tbl := And(Load(p4, p4Idx), SIGN_MASK);

      if walkable { FollowEntry(a, q, 2); }
      if And(Load(p3Tbl, p3Idx), 1) == 0 {
        if walkable { NoneBelow(a, q, 1); }
        return 0;
      }
      var p2Tbl := And(Load(p3Tbl, p3Idx), SIGN_MASK);

      if walkable { FollowEntry(a, q, 1); }
      if And(Load(p2Tbl, p2Idx), 1) == 0 {
        return 0;
      }
      var p1Tbl := And(Load(p2Tbl, p2Idx), SIGN_MASK);
      SignMaskIs(Load(p1Tbl, p1Idx));
      return And(Load(p1Tbl, p1Idx), SIGN_MASK);
    }

    /** What free_page_table asks for: a table of a tree whose frames are frames of memory. */
    ghost predicate Freeable(table: nat, level: nat, tree: Tree, s: Slot)
      reads `mem
    {
      && Shape(tree) && Linked(mem, tree)
      && memPages <= 0x8_0000_0000 && (forall x :: x in tree ==> 0 < tree[x] < memPages)
      && s in tree && s.level == level && table == tree[s] * PAGE_SIZE
    }

    lemma FreeableIs(table: nat, level: nat, tree: Tree, s: Slot)
      requires Freeable(table, level, tree, s)
      ensures Shape(tree) && s in tree && 1 <= s.level == level <= 4 && table == tree[s] * PAGE_SIZE
      ensures PAddr(table) == table && table != 0 && 0 < table / PAGE_SIZE == tree[s] < memPages
    {
      hide Linked, PAddr;
      PAddrIs(table);
      SmallTable(tree[s], table);
    }

    lemma SmallTable(f: nat, table: nat)
      requires 0 < f < 0x8_0000_0000 && table == f * PAGE_SIZE
      ensures table % 0x8000_0000_0000 == table && table / PAGE_SIZE == f && table > 0
    {}

    lemma NextEntry(table: nat, level: nat, tree: Tree, s: Slot, i: nat)
      requires Freeable(table, level, tree, s) && level > 1 && i < 512
      ensures And(Load(table, i), 1) != 0 <==> Child(s, i) in tree
      ensures Child(s, i) in tree ==> Freeable(And(Load(table, i), SIGN_MASK), level - 1, tree, Child(s, i))
    {
      hide And;
      ChildEntry(mem, tree, s, i);
    }

    /** Frees the frames of a table and of every table below it, and no frame that is only mapped.
        cleared lists the frames whose bits were cleared, in order. */
    method FreePageTable(table: nat, level: nat, ghost tree: Tree, ghost s: Slot) returns (ghost cleared: seq<nat>)
      requires Valid() && Freeable(table, level, tree, s)
      modifies `free, bitmap
      ensures Valid()
      ensures free == old(free) + Below(tree, s) && Once(cleared, Below(tree, s))
      decreases level, 1
    {
      hide *;
      FreeableIs(table, level, tree, s);
      AllChildren(tree, s);
      OnceNone();
      OnceOne(tree[s]);
      cleared := [];
      ghost var kids: set<nat> := {};
      if level > 1 {
        kids := BelowChildren(tree, s, 512);
        cleared := FreeChildren(table, level, tree, s);
        BelowApart(tree, s, 512);
      }
      assert free == old(free) + kids && Below(tree, s) == kids + {tree[s]};
      OnceJoin(cleared, kids, [tree[s]], {tree[s]});
      RowsHold();
      PmmClearBit(PAddr(table));
      cleared := cleared + [tree[s]];
      assert free == old(free) + Below(tree, s);
    }

    /** The loop over the entries of a table. */
    method FreeChildren(table: nat, level: nat, ghost tree: Tree, ghost s: Slot) returns (ghost cleared: seq<nat>)
      requires Valid() && Freeable(table, level, tree, s) && level > 1
      modifies `free, bitmap
      ensures Valid()
      ensures free == old(free) + BelowChildren(tree, s, 512) && Once(cleared, BelowChildren(tree, s, 512))
      decreases level, 0
    {
      hide *;
      FreeableIs(table, level, tree, s);
      NoChildren(tree, s);
      OnceNone();
      cleared := [];
      for i := 0 to 512
        invariant Valid()
        invariant free == old(free) + BelowChildren(tree, s, i) && Once(cleared, BelowChildren(tree, s, i))
      {
        NextChild(tree, s, i);
        NextEntry(table, level, tree, s, i);
        BelowApart(tree, s, i);
        if And(Load(table, i), 1) != 0 {
          ghost var more := FreePageTable(And(Load(table, i), SIGN_MASK), level - 1, tree, Child(s, i));
          OnceJoin(cleared, BelowChildren(tree, s, i), more, Below(tree, Child(s, i)));
          cleared := cleared + more;
        } else {
          assert BelowChildren(tree, s, i + 1) == BelowChildren(tree, s, i);
        }
      }
    }

    /** free_page_table of a whole tree: every table is freed once, and the free count rises by exactly
        the number of tables. */
    method FreeTree(p4Tbl: nat, ghost tree: Tree) returns (ghost cleared: seq<nat>)
      requires Valid() && Freeable(p4Tbl, 4, tree, ROOT) && free !! tree.Values
      modifies `free, bitmap
      ensures Valid() && free == old(free) + tree.Values && Once(cleared, tree.Values)
      ensures |cleared| == |tree| && |free| == |old(free)| + |tree|
    {
      BelowRoot(tree);
      cleared := FreePageTable(p4Tbl, 4, tree, ROOT);
      OnceCounts(cleared, tree.Values);
    }
  }
}
