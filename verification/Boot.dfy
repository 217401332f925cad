/** src/boot/mem.c: the loader's page tables, built from whatever pages the firmware hands out, and
    the sizing of the frame bitmap. */
module Boot {
  import opened Bits
  import opened KernelH
  import opened PageTree
  import opened MemoryMap
  import Mmu

  datatype Status = Success | OutOfResources

  /** After an allocation failed: the tree is still a tree, and no page changed except the pages of
      frames that were handed out. */
  ghost predicate Unharmed(a: Sys, b: Sys) {
    && Valid(b) && b.limit == a.limit && b.link == a.link
    && (forall s :: s in a.tree ==> s in b.tree && b.tree[s] == a.tree[s])
    && b.free <= a.free
    && (forall q: nat :: q < PAGES && q !in a.free ==> Leaf(b, q) == Leaf(a, q))
  }

  /** What a mapping call leaves behind, by its status. */
  ghost predicate Done(a: Sys, b: Sys, slots: set<Slot>, over: map<nat, nat>, status: Status) {
    if status == Success then Extends(a, b, slots, over) else Unharmed(a, b)
  }

  lemma UnharmedSelf(a: Sys)
    requires Valid(a)
    ensures Unharmed(a, a)
  {}

  lemma SupplySet(a: Sys, supply: seq<nat>)
    requires Valid(a) && a.free == SetOf(supply)
    ensures supply == [] <==> a.free == {}
    ensures supply != [] ==> supply[0] in a.free
  {
    if supply != [] { assert supply[0] in SetOf(supply); }
  }

  lemma UnharmedTrans(a: Sys, b: Sys, c: Sys)
    requires Unharmed(a, b) && Unharmed(b, c)
    ensures Unharmed(a, c)
  {
    forall q: nat | q < PAGES && q !in a.free ensures Leaf(c, q) == Leaf(a, q) {
      assert Leaf(b, q) == Leaf(a, q);
    }
  }

  lemma ExtendsUnharmed(a: Sys, b: Sys, slots: set<Slot>, over: map<nat, nat>)
    requires Valid(a) && Extends(a, b, slots, over) && over.Keys <= a.free
    ensures Unharmed(a, b)
  {
    hide Leaf;
    forall q: nat | q < PAGES && q !in a.free ensures Leaf(b, q) == Leaf(a, q) {
      LeafAfter(a, b, slots, over, q);
    }
  }

  lemma AddsUnharmed(a: Sys, b: Sys, s: Slot, n: nat)
    requires Valid(a) && Adds(a, b, s, n)
    ensures Unharmed(a, b)
  {
    AddedIsValid(a, b, s, n);
    AddedKeeps(a, b, s, n);
    hide Leaf;
    forall q: nat | q < PAGES ensures Leaf(b, q) == Leaf(a, q) {
      assert Leaf(b, q) == Expected(a, {}, map[], q);
    }
  }

  function Identity(q: nat): nat { q * PAGE_SIZE + KERNEL_PT_ENTRY }

  /** From a to b the pages qs became identity-mapped, none that was so before ceased to be, and every
      other page outside the free frames is as it was. */
  ghost predicate Identically(a: Sys, b: Sys, qs: set<nat>) {
    && Valid(b) && b.limit == a.limit && b.link == a.link && b.free <= a.free
    && (forall s :: s in a.tree ==> s in b.tree && b.tree[s] == a.tree[s])
    && (forall q: nat :: q < PAGES && (q in qs || Leaf(a, q) == Identity(q)) ==> Leaf(b, q) == Identity(q))
    && (forall q: nat :: q < PAGES && q !in qs && q !in a.free ==> Leaf(b, q) == Leaf(a, q))
    && (Supervised(a) ==> Supervised(b))
  }

  /** Tables are linked for supervisor use, for writing too, from one root that stays. */
  ghost predicate Supervised(a: Sys) {
    a.link == KERNEL_PT_ENTRY && Mmu.Linking(a, false)
  }

  lemma ExtendsSupervised(a: Sys, b: Sys, slots: set<Slot>, over: map<nat, nat>)
    requires Valid(a) && Extends(a, b, slots, over)
    ensures Supervised(a) ==> Supervised(b)
  {
    SupervisorFlags();
    hide Extends, Valid, Mmu.Linking, Leaf;
    ExtendsBasics(a, b, slots, over);
    if Supervised(a) { Mmu.LinkingKept(a, b, slots, over, false); }
  }

  lemma SupervisorFlags()
    ensures KERNEL_PT_ENTRY / 2 % 2 == 1 && KERNEL_PT_ENTRY / 4 % 2 == 0
  {}

  lemma IdenticallyTrans(a: Sys, b: Sys, c: Sys, q1: set<nat>, q2: set<nat>)
    requires Identically(a, b, q1) && Identically(b, c, q2)
    ensures Identically(a, c, q1 + q2)
  {
    hide Leaf, Valid, Supervised;
    forall q: nat | q < PAGES && q !in q1 + q2 && q !in a.free ensures Leaf(c, q) == Leaf(a, q) {
      assert Leaf(b, q) == Leaf(a, q);
    }
    forall q: nat | q < PAGES && (q in q1 + q2 || Leaf(a, q) == Identity(q)) ensures Leaf(c, q) == Identity(q) {
      if q !in q2 { assert Leaf(b, q) == Identity(q); }
    }
  }

  lemma UnharmedIdentically(a: Sys)
    requires Valid(a)
    ensures Identically(a, a, {})
  {}

  // ---- Ranges -----------------------------------------------------------------------------------

  /** A range that does not wrap, whose tables are provided for. */
  ghost predicate RangeFits(phys: nat, virt: nat, n: nat, u: set<Slot>) {
    && phys + n * PAGE_SIZE <= TWO_64 && virt + n * PAGE_SIZE <= TWO_64
    && Page(virt) + n <= PAGES && Paths(Pages(Page(virt), n)) <= u
  }

  /** n pages from v on were mapped to consecutive frames, and nothing else changed but identity entries
      of new tables; a page that was taken as a table after it was mapped has such an entry too. */
  ghost predicate RangeMapped(a: Sys, b: Sys, v: nat, n: nat, p: nat, gone: set<nat>) {
    gone <= Taken(a, b) && Extends(a, b, Paths(Pages(v, n)), RangeMap(v, n, p, KERNEL_PT_ENTRY) - gone)
  }

  lemma NoneMapped(a: Sys, v: nat, p: nat)
    requires Valid(a)
    ensures RangeMapped(a, a, v, 0, p, {})
  {
    ExtendsSelf(a, {});
    RangeNone(v, p, KERNEL_PT_ENTRY);
    var none: map<nat, nat> := map[];
    assert none - {} == none;
  }

  lemma PageFits(phys: nat, virt: nat, n: nat, u: set<Slot>, i: nat)
    requires RangeFits(phys, virt, n, u) && i < n
    ensures Page(virt + i * PAGE_SIZE) == Page(virt) + i && Path(Page(virt) + i) <= u
  {
    hide Path, Paths, Page;
    assert virt + (i + 1) * PAGE_SIZE <= virt + n * PAGE_SIZE;
    PageOfRange(0, virt, i);
    assert Page(virt) + i in Pages(Page(virt), n);
    PathInPaths(Page(virt) + i, Pages(Page(virt), n));
  }

  lemma IdentityFits(start: nat, n: nat, u: set<Slot>)
    requires start % PAGE_SIZE == 0 && start / PAGE_SIZE + n <= PAGES && Paths(Pages(start / PAGE_SIZE, n)) <= u
    ensures RangeFits(start, start, n, u) && start == start / PAGE_SIZE * PAGE_SIZE
    ensures n > 0 ==> Page(start) == start / PAGE_SIZE
  {
    assert n == 0 ==> Paths(Pages(Page(start), n)) == {};
    hide Paths, Pages;
  }

  lemma SucceededIs(a: Sys, b: Sys, slots: set<Slot>, over: map<nat, nat>, status: Status)
    requires Done(a, b, slots, over, status) && status == Success
    ensures Extends(a, b, slots, over)
  {}

  lemma OneMoreMapped(a: Sys, b: Sys, c: Sys, v: nat, i: nat, p: nat, gone: set<nat>, q: nat, e: nat)
    requires q == v + i && e == Or(p + i * PAGE_SIZE, KERNEL_PT_ENTRY)
    requires RangeMapped(a, b, v, i, p, gone) && Extends(b, c, Path(q), map[q := e])
    ensures RangeMapped(a, c, v, i + 1, p, (gone + Taken(b, c)) - {q})
  {
    hide Extends, Or, Paths, Path, Taken;
    var was, more := RangeMap(v, i, p, KERNEL_PT_ENTRY), (gone + Taken(b, c)) - {q};
    ExtendsTrans(a, b, c, Paths(Pages(v, i)), was - gone, Path(q), map[q := e]);
    RangeGrows(v, i, p, KERNEL_PT_ENTRY);
    PathsAdd(q, Pages(v, i));
    assert Paths(Pages(v, i)) + Path(q) == Paths(Pages(v, i + 1));
    assert (was - gone - Taken(b, c)) + map[q := e] == RangeMap(v, i + 1, p, KERNEL_PT_ENTRY) - more;
  }

  /** Away from the pages the firmware still has, every page of the range is mapped as asked. */
  lemma RangeIsExtension(a: Sys, b: Sys, v: nat, n: nat, p: nat, gone: set<nat>)
    requires RangeMapped(a, b, v, n, p, gone) && Pages(v, n) !! a.free
    ensures Extends(a, b, Paths(Pages(v, n)), RangeMap(v, n, p, KERNEL_PT_ENTRY))
  {
    assert Taken(a, b) <= a.free;
    hide Extends, Paths;
    assert RangeMap(v, n, p, KERNEL_PT_ENTRY) - gone == RangeMap(v, n, p, KERNEL_PT_ENTRY);
  }

  /** An identity range is identity-mapped wherever it lies: a page taken as a table gets the same entry. */
  lemma RangeIdentically(a: Sys, b: Sys, page: nat, v: nat, n: nat, gone: set<nat>)
    requires Valid(a) && v + n <= PAGES && (n > 0 ==> page == v) && RangeMapped(a, b, page, n, v * PAGE_SIZE, gone)
    ensures Identically(a, b, Pages(v, n))
  {
    hide *;
    var over := RangeMap(page, n, v * PAGE_SIZE, KERNEL_PT_ENTRY) - gone;
    var slots, taken := Paths(Pages(page, n)), Taken(a, b);
    RangeParts(a, b, page, v, n, gone);
    ExtendsBasics(a, b, slots, over);
    forall q: nat | q < PAGES
      ensures Leaf(b, q) == if q in Pages(v, n) || q in taken then Identity(q) else Leaf(a, q)
    {
      LeafAfter(a, b, slots, over, q);
      IdentityEntry(a, v, n, taken, over, gone, q);
    }
    ExtendsSupervised(a, b, slots, over);
    MakeIdentically(a, b, Pages(v, n), taken);
  }

  lemma MakeIdentically(a: Sys, b: Sys, qs: set<nat>, taken: set<nat>)
    requires Valid(b) && b.limit == a.limit && b.link == a.link && b.free <= a.free && taken <= a.free
    requires forall s :: s in a.tree ==> s in b.tree && b.tree[s] == a.tree[s]
    requires forall q: nat :: q < PAGES ==> Leaf(b, q) == if q in qs || q in taken then Identity(q) else Leaf(a, q)
    requires Supervised(a) ==> Supervised(b)
    ensures Identically(a, b, qs)
  {
    hide Leaf, Valid, Supervised;
  }

  lemma RangeParts(a: Sys, b: Sys, page: nat, v: nat, n: nat, gone: set<nat>)
    requires (n > 0 ==> page == v) && RangeMapped(a, b, page, n, v * PAGE_SIZE, gone)
    ensures var over := RangeMap(page, n, v * PAGE_SIZE, KERNEL_PT_ENTRY) - gone;
            && Extends(a, b, Paths(Pages(page, n)), over) && gone <= Taken(a, b)
            && over.Keys == Pages(v, n) - gone
            && forall q :: q in over ==> over[q] == Or(v * PAGE_SIZE + (q - v) * PAGE_SIZE, KERNEL_PT_ENTRY)
  {
    hide Extends, Taken, Paths, Or;
  }

  lemma ExtendsBasics(a: Sys, b: Sys, slots: set<Slot>, over: map<nat, nat>)
    requires Extends(a, b, slots, over)
    ensures Valid(b) && b.limit == a.limit && b.link == a.link && b.free <= a.free && Taken(a, b) <= a.free
    ensures forall s :: s in a.tree ==> s in b.tree && b.tree[s] == a.tree[s]
  {}

  lemma IdentityEntry(a: Sys, v: nat, n: nat, taken: set<nat>, over: map<nat, nat>, gone: set<nat>, q: nat)
    requires over.Keys == Pages(v, n) - gone && gone <= taken
    requires q in over ==> over[q] == Or(v * PAGE_SIZE + (q - v) * PAGE_SIZE, KERNEL_PT_ENTRY)
    ensures Expected(a, taken, over, q) == if q in Pages(v, n) || q in taken then Identity(q) else Leaf(a, q)
  {
    hide Or, Leaf;
    EntryIs(q * PAGE_SIZE, KERNEL_PT_ENTRY);
  }

  /** A page with an identity entry has its three tables. */
  lemma IdentityHasPath(a: Sys, q: nat)
    requires Valid(a) && q < PAGES && Leaf(a, q) == Identity(q)
    ensures Path(q) <= a.tree.Keys
  {
    assert At(q, 1) in a.tree;
    ParentOf(q, 1);
    ParentOf(q, 2);
  }

  /** The memory map as the loader leaves it: every page of a descriptor type the loader maps, other
      than page 0, is identity-mapped. */
  ghost predicate MapServed(a: Sys, mmap: seq<Descriptor>, n: nat)
    requires n <= |mmap|
  {
    forall i, f: nat :: 0 <= i < n && IdentityMapped(mmap[i]) && f in Area(mmap[i]) ==> Leaf(a, f) == Identity(f)
  }

  /** Every free frame lies in a descriptor that the loader identity-mapped.  The firmware's map is read
      again between the loader's parsing and the kernel's, so the free frames may come from another. */
  ghost predicate FreeServed(free: set<nat>, mmap: seq<Descriptor>) {
    forall f :: f in free ==> exists i :: 0 <= i < |mmap| && IdentityMapped(mmap[i]) && f in Area(mmap[i])
  }

  /** Loader and kernel together: when the kernel starts with the loader's tables and frees only frames
      that the loader's map covers, mapping any page takes at most three frames, and this stays so. */
  lemma KernelStartsServed(a: Sys, b: Sys, mmap: seq<Descriptor>, v: nat)
    requires Valid(a) && Valid(b) && MapServed(a, mmap, |mmap|) && FreeServed(a.free, mmap)
    requires Grows(a, b, Path(v))
    ensures |Taken(a, b)| == |Path(v) - a.tree.Keys| <= 3
    ensures Paths(b.free) <= b.tree.Keys
  {
    forall f | f in a.free ensures Path(f) <= a.tree.Keys {
      var i :| 0 <= i < |mmap| && IdentityMapped(mmap[i]) && f in Area(mmap[i]);
      IdentityHasPath(a, f);
    }
    PathsBound(a.free, a.tree.Keys);
    AtMostThree(a, b, v);
  }

  /** Had the map not changed, init_pmm would free only such frames. */
  lemma SameMapServed(free: set<nat>, mmap: seq<Descriptor>)
    requires free <= FreedBy(mmap, |mmap|) && forall i :: 0 <= i < |mmap| ==> mmap[i].type_ < 256
    ensures FreeServed(free, mmap)
  {
    forall f | f in free ensures exists i :: 0 <= i < |mmap| && IdentityMapped(mmap[i]) && f in Area(mmap[i]) {
      var i :| 0 <= i < |mmap| && Usable(mmap[i]) && Covers(mmap[i], f);
      TypeCut(mmap[i]);
      assert f in Area(mmap[i]);
    }
  }

  lemma PathsBound(x: set<nat>, k: set<Slot>)
    requires forall f :: f in x ==> Path(f) <= k
    ensures Paths(x) <= k
  {
    forall s | s in Paths(x) ensures s in k {
      var f, l :| f in x && l in {1, 2, 3} && s == At(f, l);
      assert s in Path(f);
    }
  }

  /** The pages of the first n descriptors that the loader identity-maps. */
  ghost function Served(mmap: seq<Descriptor>, n: nat): set<nat>
    requires n <= |mmap|
  {
    if n == 0 then {}
    else if IdentityMapped(mmap[n - 1]) then Served(mmap, n - 1) + Area(mmap[n - 1])
    else Served(mmap, n - 1)
  }

  ghost function BitmapPages(mmap: seq<Descriptor>, location: nat): set<nat> {
    Pages(location / PAGE_SIZE, DivCeil(BitmapRows(mmap) * 8, PAGE_SIZE))
  }

  ghost function PathsOf(mmap: seq<Descriptor>, location: nat): set<Slot> {
    Paths(Served(mmap, |mmap|) + BitmapPages(mmap, location))
  }

  lemma {:induction false} ServedHas(mmap: seq<Descriptor>, i: nat, n: nat)
    requires i < n <= |mmap| && IdentityMapped(mmap[i])
    ensures Area(mmap[i]) <= Served(mmap, n)
    decreases n
  {
    if i < n - 1 { ServedHas(mmap, i, n - 1); }
  }

  lemma ServedPaths(mmap: seq<Descriptor>, location: nat, i: nat)
    requires i < |mmap| && IdentityMapped(mmap[i])
    ensures Paths(Area(mmap[i])) <= PathsOf(mmap, location)
  {
    ServedHas(mmap, i, |mmap|);
    PathsMonotone(Area(mmap[i]), Served(mmap, |mmap|) + BitmapPages(mmap, location));
  }

  lemma BitmapPaths(mmap: seq<Descriptor>, location: nat)
    ensures Paths(BitmapPages(mmap, location)) <= PathsOf(mmap, location)
    ensures BitmapPages(mmap, location) == Pages(location / PAGE_SIZE, DivCeil(BitmapRows(mmap) * 8, PAGE_SIZE))
  {
    PathsMonotone(BitmapPages(mmap, location), Served(mmap, |mmap|) + BitmapPages(mmap, location));
  }

  lemma AreaIs(mmap: seq<Descriptor>, i: nat)
    requires i < |mmap| && WellFormed(mmap[i]) && MaxEnd(mmap) <= PAGES * PAGE_SIZE
    ensures var d := mmap[i];
            d.physicalStart / PAGE_SIZE + d.count <= PAGES
  {
    assert End(mmap[i]) <= MaxEnd(mmap);
  }

  lemma ServedIs(a: Sys, b: Sys, mmap: seq<Descriptor>, more: set<nat>)
    requires Identically(a, b, Served(mmap, |mmap|) + more)
    requires MaxEnd(mmap) <= PAGES * PAGE_SIZE && forall i :: 0 <= i < |mmap| ==> WellFormed(mmap[i])
    ensures MapServed(b, mmap, |mmap|)
  {
    forall i, f: nat | 0 <= i < |mmap| && IdentityMapped(mmap[i]) && f in Area(mmap[i])
      ensures Leaf(b, f) == Identity(f)
    {
      ServedHas(mmap, i, |mmap|);
      AreaIs(mmap, i);
    }
  }

  ghost predicate Cleared(m: Memory, m': Memory, t: nat) {
    forall f: nat, i: nat :: Entry(m', f, i) == if f == t && i < 512 then 0 else Entry(m, f, i)
  }

  ghost function SetOf(supply: seq<nat>): set<nat> {
    set f | f in supply
  }

  ghost predicate AllDistinct(supply: seq<nat>) {
    forall i, j :: 0 <= i < j < |supply| ==> supply[i] != supply[j]
  }

  lemma FirstTaken(supply: seq<nat>)
    requires supply != [] && AllDistinct(supply)
    ensures AllDistinct(supply[1..]) && SetOf(supply[1..]) == SetOf(supply) - {supply[0]}
  {
    var rest := supply[1..];
    forall f | f in supply && f != supply[0] ensures f in rest {
      var i :| 0 <= i < |supply| && supply[i] == f;
      assert rest[i - 1] == f;
    }
    forall f | f in rest ensures f in supply && f != supply[0] {
      var i :| 0 <= i < |rest| && rest[i] == f;
      assert supply[i + 1] == f;
    }
  }

  /** The loader clears the page before linking it. */
  lemma ClearedThenLinked(m: Memory, m1: Memory, parent: nat, i: nat, n: nat, link: nat)
    requires Cleared(m, m1, n) && parent != n
    ensures TableLinked(m, m1[(parent, i) := n * PAGE_SIZE + link], parent, i, n, link)
  {
    var m2 := m1[(parent, i) := n * PAGE_SIZE + link];
    forall f: nat, j: nat
      ensures Entry(m2, f, j) == if f == n && j < 512 then 0
                                 else if f == parent && j == i then n * PAGE_SIZE + link else Entry(m, f, j)
    {
      assert Entry(m1, f, j) == if f == n && j < 512 then 0 else Entry(m, f, j);
    }
  }

  /** Linking a fresh cleared page into the entry of the missing slot, as one step on the tree. */
  lemma LoaderStep(a: Sys, b: Sys, s: Slot, n: nat, m1: Memory, table: nat, new_: nat)
    requires Valid(a) && CanAdd(a, s, n) && Cleared(a.mem, m1, n)
    requires table == a.tree[Parent(s)] * PAGE_SIZE && new_ == n * PAGE_SIZE
    requires b == a.(mem := m1[(table / PAGE_SIZE, Index(s)) := Or(new_, a.link)],
                     free := a.free - {n}, tree := a.tree[s := n])
    ensures Adds(a, b, s, n) && Valid(b) && Unharmed(a, b)
    ensures b.tree[ROOT] == a.tree[ROOT] && 0 < n < PAGES
  {
    var parent := a.tree[Parent(s)];
    assert n < PAGES && table / PAGE_SIZE == parent && parent != n;
    EntryIs(new_, a.link);
    hide Valid, Or, Unharmed;
    ClearedThenLinked(a.mem, m1, parent, Index(s), n, a.link);
    AddedIsValid(a, b, s, n);
    AddsUnharmed(a, b, s, n);
  }

  /** The loader's memory: the words of its page tables, and the pages the firmware will hand out for
      the next single-page requests, in the order it will do so. */
  class Loader {
    var mem: Memory
    var supply: seq<nat>
    const limit: nat

    ghost function System(tree: Tree): Sys
      reads this
    {
      Sys(mem, SetOf(supply), tree, limit, KERNEL_PT_ENTRY)
    }

    ghost predicate Space(p4: nat, tree: Tree)
      reads this
    {
      AllDistinct(supply) && Valid(System(tree)) && ROOT in tree && p4 == tree[ROOT] * PAGE_SIZE
    }

    /** table[i] is the level-(l + 1) entry for page q. */
    ghost predicate NextReady(table: nat, i: nat, p4: nat, tree: Tree, q: nat, l: nat)
      reads this
    {
      && Space(p4, tree)
      && 1 <= l <= 3 && At(q, l + 1) in tree
      && table == tree[At(q, l + 1)] * PAGE_SIZE && i == Prefix(q, l) % 512
    }

    /** table[i] is the empty entry for the missing table of slot s. */
    ghost predicate AddReady(table: nat, i: nat, p4: nat, tree: Tree, s: Slot)
      reads this
    {
      && Space(p4, tree)
      && 1 <= s.level <= 3 && s !in tree && Parent(s) in tree
      && table == tree[Parent(s)] * PAGE_SIZE && i == Index(s)
    }

    function Load(table: nat, i: nat): nat
      reads `mem
    {
      Entry(mem, table / PAGE_SIZE, i)
    }

    /** The next page of the firmware, zeroed. */
    method AllocTable() returns (status: Status, table: nat)
      modifies `mem, `supply
      ensures status == OutOfResources <==> old(supply) == []
      ensures status == OutOfResources ==> supply == old(supply) && mem == old(mem)
      ensures status == Success ==> supply == old(supply)[1..] && table == old(supply)[0] * PAGE_SIZE
      ensures status == Success ==> Cleared(old(mem), mem, old(supply)[0])
    {
      if supply == [] {
        return OutOfResources, 0;
      }
      var t := supply[0];
      table := t * PAGE_SIZE;
      supply := supply[1..];
      for i := 0 to 512
        invariant supply == old(supply)[1..]
        invariant forall f: nat, j: nat :: Entry(mem, f, j) == if f == t && j < i then 0 else Entry(old(mem), f, j)
      {
        ghost var was := mem;
        mem := mem[(t, i) := 0];
        assert forall f: nat, j: nat :: Entry(mem, f, j) == if f == t && j == i then 0 else Entry(was, f, j);
      }
      return Success, table;
    }

    method AddTable(table: nat, i: nat, p4: nat, ghost tree: Tree, ghost s: Slot, ghost u: set<Slot>)
      returns (status: Status, ghost tree': Tree)
      requires table % PAGE_SIZE == 0 && p4 % PAGE_SIZE == 0
      modifies `mem, `supply
      ensures |supply| <= |old(supply)|
      ensures old(AddReady(table, i, p4, tree, s)) ==>
                Done(old(System(tree)), System(tree'), {s}, map[], status) && Space(p4, tree')
      ensures old(AddReady(table, i, p4, tree, s)) && s in u && old(Enough(System(tree), u)) ==>
                status == Success && Enough(System(tree'), u)
      decreases |supply|, 0
    {
      hide Extends, Or, Valid, Enough, Unharmed, Adds, Cleared, SetOf, AllDistinct, Path, Page;
      ghost var ready := AddReady(table, i, p4, tree, s);
      ghost var a := System(tree);
      tree' := tree;
      if ready {
        SupplySet(a, supply);
        if s in u && Enough(a, u) { EnoughToAdd(a, s, u); }
        if supply != [] { FirstTaken(supply); }
        UnharmedSelf(a);
      }
      var new_;
      status, new_ := AllocTable();
      if status != Success {
        return;
      }
      ghost var n, m1 := new_ / PAGE_SIZE, mem;
      mem := mem[(table / PAGE_SIZE, i) := Or(new_, KERNEL_PT_ENTRY)];
      tree' := tree[s := n];
      ghost var b := System(tree');
      if ready {
        LoaderStep(a, b, s, n, m1, table, new_);
        FrameAddress(n);
        if s in u && Enough(a, u) { EnoughAfterAdd(a, b, s, n, u); }
      }
      status, tree' := MapAddr(new_, new_, p4, tree', u);
      if ready {
        if status == Success {
          AddedAndMapped(a, b, System(tree'), s, n);
        } else {
          UnharmedTrans(a, b, System(tree'));
        }
      }
    }

    /** The block MapAddr repeats for each level. */
    method NextTable(table: nat, i: nat, p4: nat, ghost tree: Tree, ghost q: nat, ghost l: nat, ghost u: set<Slot>)
      returns (status: Status, next: nat, ghost tree': Tree)
      requires table % PAGE_SIZE == 0 && p4 % PAGE_SIZE == 0
      modifies `mem, `supply
      ensures |supply| <= |old(supply)| && next % PAGE_SIZE == 0
      ensures old(NextReady(table, i, p4, tree, q, l)) ==>
                && Done(old(System(tree)), System(tree'), {At(q, l)}, map[], status) && Space(p4, tree')
                && (status == Success ==> At(q, l) in tree' && next == tree'[At(q, l)] * PAGE_SIZE)
      ensures old(NextReady(table, i, p4, tree, q, l)) && At(q, l) in u && old(Enough(System(tree), u)) ==>
                status == Success && Enough(System(tree'), u)
      decreases |supply|, 2
    {
      hide *;
      ghost var ready := NextReady(table, i, p4, tree, q, l);
      ghost var a := System(tree);
      tree', status, next := tree, Success, 0;
      Zero();
      if ready { NextReadyIs(table, i, p4, tree, q, l); }
      if And(Load(table, i), 1) == 0 {
        status, tree' := AddTable(table, i, p4, tree, At(q, l), u);
        if status != Success {
          return;
        }
      } else if ready {
        ExtendsSelf(a, {At(q, l)});
      }
      if ready {
        DoneIs(a, System(tree'), {At(q, l)}, map[]);
        ExtendsTables(a, System(tree'), At(q, l), map[]);
        TreeIs(tree');
        EntryFollowed(table, i, a, tree', q, l);
      }
      next := And(Load(table, i), SIGN_MASK);
      FrameAligned(Load(table, i));
    }

    lemma Zero()
      ensures 0 % PAGE_SIZE == 0
    {}

    lemma TreeIs(tree: Tree)
      ensures System(tree).tree == tree
    {}

    lemma DoneIs(a: Sys, b: Sys, slots: set<Slot>, over: map<nat, nat>)
      ensures Done(a, b, slots, over, Success) <==> Extends(a, b, slots, over)
    {
      hide Extends;
    }

    lemma NextReadyIs(table: nat, i: nat, p4: nat, tree: Tree, q: nat, l: nat)
      requires NextReady(table, i, p4, tree, q, l)
      ensures Space(p4, tree) && Valid(System(tree)) && System(tree).tree == tree
      ensures 1 <= l <= 3 && At(q, l + 1) in tree && table == tree[At(q, l + 1)] * PAGE_SIZE && i == Prefix(q, l) % 512
      ensures And(Load(table, i), 1) == 0 <==> At(q, l) !in tree
      ensures At(q, l) !in tree ==> AddReady(table, i, p4, tree, At(q, l))
      ensures At(q, l) in tree ==> {At(q, l)} <= System(tree).tree.Keys
    {
      hide And, Valid, Prefix;
      FollowEntry(System(tree), q, l);
      ParentOf(q, l);
    }

    lemma EntryFollowed(table: nat, i: nat, a: Sys, tree: Tree, q: nat, l: nat)
      requires Valid(System(tree)) && 1 <= l <= 3 && At(q, l) in tree && At(q, l + 1) in a.tree
      requires table == a.tree[At(q, l + 1)] * PAGE_SIZE && i == Prefix(q, l) % 512
      requires forall x :: x in a.tree ==> x in System(tree).tree && System(tree).tree[x] == a.tree[x]
      ensures And(Load(table, i), SIGN_MASK) == tree[At(q, l)] * PAGE_SIZE
    {
      hide And, Valid, Prefix;
      FollowEntry(System(tree), q, l);
    }

    lemma FrameAligned(e: nat)
      ensures And(e, SIGN_MASK) % PAGE_SIZE == 0
    {
      hide And;
      SignMaskIs(e);
    }

    method LeafTable(v: nat, p4: nat, ghost tree: Tree, ghost u: set<Slot>)
      returns (status: Status, p1Tbl: nat, ghost tree': Tree)
      requires p4 % PAGE_SIZE == 0
      modifies `mem, `supply
      ensures |supply| <= |old(supply)| && p1Tbl % PAGE_SIZE == 0
      ensures old(Space(p4, tree)) ==>
                && Done(old(System(tree)), System(tree'), Path(Page(v)), map[], status) && Space(p4, tree')
                && (status == Success ==> At(Page(v), 1) in tree' && p1Tbl == tree'[At(Page(v), 1)] * PAGE_SIZE)
      ensures old(Space(p4, tree)) && Path(Page(v)) <= u && old(Enough(System(tree), u)) ==>
                status == Success && Enough(System(tree'), u)
      decreases |supply|, 3
    {
      hide Extends, Enough, Unharmed, Valid, Prefix, Page, P1Entry, P2Entry, P3Entry, P4Entry, SetOf, AllDistinct;
      WalkUnaligned(v);
      var p4Idx, p3Idx, p2Idx := P4Entry(v), P3Entry(v), P2Entry(v);
      ghost var q, ready := Page(v), Space(p4, tree);
      ghost var a := System(tree);
      var p3Tbl, p2Tbl;
      p1Tbl := 0;
      status, p3Tbl, tree' := NextTable(p4, p4Idx, p4, tree, q, 3, u);
      ghost var b3 := System(tree');
      if status != Success {
        return;
      }
      if ready { ExtendsUnharmed(a, b3, {At(q, 3)}, map[]); }
      status, p2Tbl, tree' := NextTable(p3Tbl, p3Idx, p4, tree', q, 2, u);
      ghost var b2 := System(tree');
      if status != Success {
        if ready { UnharmedTrans(a, b3, b2); }
        return;
      }
      if ready { ExtendsUnharmed(b3, b2, {At(q, 2)}, map[]); }
      status, p1Tbl, tree' := NextTable(p2Tbl, p2Idx, p4, tree', q, 1, u);
      if ready {
        if status == Success {
          PathAdded(a, b3, b2, System(tree'), q);
        } else {
          UnharmedTrans(a, b3, b2);
          UnharmedTrans(a, b2, System(tree'));
        }
      }
    }

    lemma SameEnough(a: Sys, b: Sys, u: set<Slot>)
      requires b.tree == a.tree && b.free == a.free
      ensures Enough(a, u) ==> Enough(b, u)
    {}

    method MapAddr(physAddr: nat, virtAddr: nat, p4: nat, ghost tree: Tree, ghost u: set<Slot>)
      returns (status: Status, ghost tree': Tree)
      requires p4 % PAGE_SIZE == 0
      modifies `mem, `supply
      ensures |supply| <= |old(supply)|
      ensures old(Space(p4, tree)) ==>
                && Done(old(System(tree)), System(tree'), Path(Page(virtAddr)),
                        map[Page(virtAddr) := Or(physAddr, KERNEL_PT_ENTRY)], status)
                && Space(p4, tree')
      ensures old(Space(p4, tree)) && Path(Page(virtAddr)) <= u && old(Enough(System(tree), u)) ==>
                status == Success && Enough(System(tree'), u)
      ensures status == Success && physAddr % 4096 == 0 && physAddr < TWO_64 &&
              old(Space(p4, tree) && Mmu.Linking(System(tree), false)) ==>
                && Mmu.Linking(System(tree'), false)
                && Mmu.OnlyPage(old(mem), mem, p4 / 4096, virtAddr / 4096 % 0x10_0000_0000,
                     Mmu.Access(physAddr / 4096 % 0x100_0000_0000, true, false), old(SetOf(supply)) - SetOf(supply))
      decreases |supply|, 4
    {
      hide Extends, Or, Enough, Unharmed, Valid, Prefix, Page, Path, P1Entry, P2Entry, P3Entry, P4Entry, SetOf,
        AllDistinct;
      ghost var q, ready := Page(virtAddr), Space(p4, tree);
      ghost var a := System(tree);
      var p1Tbl;
      status, p1Tbl, tree' := LeafTable(virtAddr, p4, tree, u);
      if status != Success {
        return;
      }
      WalkUnaligned(virtAddr);
      ghost var b := System(tree');
      var f, i := p1Tbl / PAGE_SIZE, P1Entry(virtAddr);
      assert ready ==> f == b.tree[At(q, 1)] && i == q % 512;
      mem := mem[(f, i) := Or(physAddr, KERNEL_PT_ENTRY)];
      if ready {
        PageMapped(a, b, System(tree'), q, Or(physAddr, KERNEL_PT_ENTRY));
        SameEnough(b, System(tree'), u);
        if physAddr % 4096 == 0 && physAddr < TWO_64 { Reached(a, System(tree'), p4, virtAddr, physAddr); }
      }
    }

    lemma AlignedIs(physical: nat)
      requires physical % 4096 == 0 && physical < TWO_64
      ensures AlignAddr(physical) == physical
    {
      AlignAddrIs(physical);
    }

    lemma LoaderFlags(virtual: nat)
      ensures KERNEL_PT_ENTRY == 3 && PAGE_SIZE == 4096 && Page(virtual) == virtual / 4096 % 0x10_0000_0000 < PAGES
    {}

    /** What the processor then finds. */
    lemma Reached(a: Sys, b: Sys, p4: nat, virtual: nat, physical: nat)
      requires Valid(a) && ROOT in a.tree && p4 == a.tree[ROOT] * PAGE_SIZE && a.link == KERNEL_PT_ENTRY
      requires Extends(a, b, Path(Page(virtual)), map[Page(virtual) := Or(physical, KERNEL_PT_ENTRY)])
      requires physical % 4096 == 0 && physical < TWO_64
      ensures Mmu.Linking(a, false) ==>
                && Mmu.Linking(b, false)
                && Mmu.OnlyPage(a.mem, b.mem, p4 / 4096, virtual / 4096 % 0x10_0000_0000,
                     Mmu.Access(physical / 4096 % 0x100_0000_0000, true, false), a.free - b.free)
    {
      hide *;
      AlignedIs(physical);
      LoaderFlags(virtual);
      if Mmu.Linking(a, false) { Mmu.PageWalks(a, b, Page(virtual), physical, KERNEL_PT_ENTRY, false); }
    }

    /** Maps consecutive pages until one fails.  gone are the pages that became page tables after they
        were mapped: only the pages that are numbered like firmware pages can. */
    method MapRange(phys: nat, virt: nat, pages: nat, p4: nat, ghost tree: Tree, ghost u: set<Slot>)
      returns (status: Status, ghost tree': Tree, ghost gone: set<nat>)
      requires p4 % PAGE_SIZE == 0
      modifies `mem, `supply
      ensures old(Space(p4, tree)) ==> Space(p4, tree')
      ensures old(Space(p4, tree) && Enough(System(tree), u)) && RangeFits(phys, virt, pages, u) ==>
                && status == Success && Enough(System(tree'), u)
                && RangeMapped(old(System(tree)), System(tree'), Page(virt), pages, phys, gone)
    {
      hide *;
      ghost var a, v := System(tree), Page(virt);
      ghost var ready := Space(p4, tree) && Enough(a, u) && RangeFits(phys, virt, pages, u);
      tree', gone := tree, {};
      if ready {
        SpaceIs(p4, tree);
        NoneMapped(a, v, phys);
      }
      for i := 0 to pages
        invariant old(Space(p4, tree)) ==> Space(p4, tree')
        invariant ready ==> Enough(System(tree'), u) && RangeMapped(a, System(tree'), v, i, phys, gone)
      {
        ghost var b := System(tree');
        var from, to := phys + i * PAGE_SIZE, virt + i * PAGE_SIZE;
        if ready { PageFits(phys, virt, pages, u, i); }
        status, tree' := MapAddr(from, to, p4, tree', u);
        if ready {
          ghost var e := Or(from, KERNEL_PT_ENTRY);
          SucceededIs(b, System(tree'), Path(v + i), map[v + i := e], status);
          OneMoreMapped(a, b, System(tree'), v, i, phys, gone, v + i, e);
          gone := (gone + Taken(b, System(tree'))) - {v + i};
        }
        if status != Success {
          return;
        }
      }
      status := Success;
    }

    lemma SpaceIs(p4: nat, tree: Tree)
      requires Space(p4, tree)
      ensures Valid(System(tree))
    {}

    /** MapRange of pages to themselves. */
    method MapIdentity(start: nat, pages: nat, p4: nat, ghost tree: Tree, ghost u: set<Slot>)
      returns (status: Status, ghost tree': Tree)
      requires p4 % PAGE_SIZE == 0
      modifies `mem, `supply
      ensures old(Space(p4, tree)) ==> Space(p4, tree')
      ensures old(Space(p4, tree)) && start % PAGE_SIZE == 0 && start / PAGE_SIZE + pages <= PAGES
              && Paths(Pages(start / PAGE_SIZE, pages)) <= u && old(Enough(System(tree), u)) ==>
                && status == Success && Enough(System(tree'), u)
                && Identically(old(System(tree)), System(tree'), Pages(start / PAGE_SIZE, pages))
    {
      ghost var a, v := System(tree), start / PAGE_SIZE;
      hide *;
      ghost var ready := Space(p4, tree) && Enough(a, u) && start % PAGE_SIZE == 0 && v + pages <= PAGES
        && Paths(Pages(v, pages)) <= u;
      if ready {
        SpaceIs(p4, tree);
        IdentityFits(start, pages, u);
      }
      ghost var gone;
      status, tree', gone := MapRange(start, start, pages, p4, tree, u);
      if ready { RangeIdentically(a, System(tree'), Page(start), v, pages, gone); }
    }

    /** Identity-maps a descriptor, leaving out page 0; a failure is not reported. */
    method MapDescriptor(d: Descriptor, p4: nat, ghost tree: Tree, ghost u: set<Slot>)
      returns (ghost tree': Tree)
      requires p4 % PAGE_SIZE == 0 && WellFormed(d) && d.physicalStart / PAGE_SIZE + d.count <= PAGES
      modifies `mem, `supply
      ensures old(Space(p4, tree)) ==> Space(p4, tree')
      ensures old(Space(p4, tree)) && Paths(Area(d)) <= u && old(Enough(System(tree), u)) ==>
                Enough(System(tree'), u) && Identically(old(System(tree)), System(tree'), Area(d))
    {
      hide Enough, Valid, Path, Paths, Identically, SetOf, AllDistinct;
      var status;
      if d.physicalStart == 0 {
        assert Area(d) == Pages(1, d.count - 1);
        status, tree' := MapIdentity(PAGE_SIZE, d.count - 1, p4, tree, u);
      } else {
        assert Area(d) == Pages(d.physicalStart / PAGE_SIZE, d.count);
        status, tree' := MapIdentity(d.physicalStart, d.count, p4, tree, u);
      }
    }

    /** Sizes memory and the frame bitmap from the memory map, and identity-maps the descriptors of
        the mapped types and the bitmap.  The status of the descriptors' MapRange calls is ignored. */
    method ParseMmap(mmap: seq<Descriptor>, bitmapLocation: nat, p4: nat, ghost tree: Tree, ghost u: set<Slot>)
      returns (status: Status, memPages: nat, bitmapEntries: nat, ghost tree': Tree)
      requires p4 % PAGE_SIZE == 0 && bitmapLocation % PAGE_SIZE == 0
      requires MaxEnd(mmap) <= PAGES * PAGE_SIZE && forall i :: 0 <= i < |mmap| ==> WellFormed(mmap[i])
      requires bitmapLocation / PAGE_SIZE + DivCeil(BitmapRows(mmap) * 8, PAGE_SIZE) <= PAGES
      modifies `mem, `supply
      ensures memPages == MemPages(mmap) && bitmapEntries == BitmapRows(mmap)
      ensures old(Space(p4, tree)) ==> Space(p4, tree')
      ensures old(Space(p4, tree)) && old(Enough(System(tree), u)) && PathsOf(mmap, bitmapLocation) <= u ==>
                && status == Success && MapServed(System(tree'), mmap, |mmap|)
                && Identically(old(System(tree)), System(tree'), Served(mmap, |mmap|) + BitmapPages(mmap, bitmapLocation))
      ensures forall i :: 0 <= i < |mmap| ==> mmap[i].physicalStart + mmap[i].count * 4096 <= memPages * 4096
      ensures memPages > 0 ==>
                exists i :: 0 <= i < |mmap| && mmap[i].physicalStart + mmap[i].count * 4096 == memPages * 4096
      ensures memPages <= 64 * bitmapEntries < memPages + 64
      ensures old(Space(p4, tree) && Enough(System(tree), u) && Mmu.Linking(System(tree), false))
              && PathsOf(mmap, bitmapLocation) <= u ==>
                && Mmu.Linking(System(tree'), false)
                && IdentityWalks(old(mem), mem, p4 / 4096, mmap, bitmapLocation, bitmapEntries, old(SetOf(supply)))
    {
      hide *;
      ghost var a := System(tree);
      Sized(mmap);
      SizesAre(mmap);
      SystemIs(tree);
      BitmapPaths(mmap, bitmapLocation);
      ghost var ready := Space(p4, tree) && Enough(a, u) && PathsOf(mmap, bitmapLocation) <= u;
      if ready { SpaceParts(p4, tree); }
      SupervisedIs(a);
      var maxAddr;
      maxAddr, tree' := MapDescriptors(mmap, bitmapLocation, p4, tree, u);
      memPages := maxAddr / PAGE_SIZE;
      var bitmapSize := DivCeil(memPages, 64) * 8;
      ghost var b := System(tree');
      status, tree' := MapIdentity(bitmapLocation, DivCeil(bitmapSize, PAGE_SIZE), p4, tree', u);
      bitmapEntries := bitmapSize / 8;
      SystemIs(tree');
      if ready {
        IdenticallyTrans(a, b, System(tree'), Served(mmap, |mmap|), BitmapPages(mmap, bitmapLocation));
        ServedIs(a, System(tree'), mmap, BitmapPages(mmap, bitmapLocation));
        if Mmu.Linking(a, false) { ParsedWalks(a, System(tree'), mmap, bitmapLocation, p4); }
      }
    }

    lemma SizesAre(mmap: seq<Descriptor>)
      requires MaxEnd(mmap) <= PAGES * PAGE_SIZE
      ensures PAGE_SIZE == 4096 && MemPages(mmap) == MaxEnd(mmap) / PAGE_SIZE
      ensures BitmapRows(mmap) == DivCeil(MemPages(mmap), 64) * 8 / 8 && DivCeil(MemPages(mmap), 64) == BitmapRows(mmap)
      ensures BitmapRows(mmap) * 8 + PAGE_SIZE < TWO_64
    {
      RowsCover(mmap);
      hide MaxEnd, DivCeil;
    }

    lemma SystemIs(tree: Tree)
      ensures System(tree).mem == mem && System(tree).free == SetOf(supply) && System(tree).tree == tree
      ensures System(tree).link == KERNEL_PT_ENTRY
    {}

    lemma SpaceParts(p4: nat, tree: Tree)
      requires Space(p4, tree)
      ensures Valid(System(tree)) && ROOT in tree && p4 == tree[ROOT] * PAGE_SIZE
    {
      hide Valid;
    }

    lemma SupervisedIs(a: Sys)
      requires a.link == KERNEL_PT_ENTRY
      ensures Supervised(a) <==> Mmu.Linking(a, false)
    {
      hide Mmu.Linking;
    }

    /** The loop over the descriptors. */
    method MapDescriptors(mmap: seq<Descriptor>, bitmapLocation: nat, p4: nat, ghost tree: Tree, ghost u: set<Slot>)
      returns (maxAddr: nat, ghost tree': Tree)
      requires p4 % PAGE_SIZE == 0
      requires MaxEnd(mmap) <= PAGES * PAGE_SIZE && forall i :: 0 <= i < |mmap| ==> WellFormed(mmap[i])
      modifies `mem, `supply
      ensures maxAddr == MaxEnd(mmap)
      ensures old(Space(p4, tree)) ==> Space(p4, tree')
      ensures old(Space(p4, tree)) && old(Enough(System(tree), u)) && PathsOf(mmap, bitmapLocation) <= u ==>
                Enough(System(tree'), u) && Identically(old(System(tree)), System(tree'), Served(mmap, |mmap|))
    {
      hide Enough, Valid, Path, Paths, Identically, SetOf, AllDistinct, DivCeil, Area, PathsOf, BitmapPages, MaxEnd;
      ghost var a := System(tree);
      ghost var ready := Space(p4, tree) && Enough(a, u) && PathsOf(mmap, bitmapLocation) <= u;
      maxAddr := 0;
      MaxEndNone(mmap);
      tree' := tree;
      if ready { UnharmedIdentically(a); }
      for i := 0 to |mmap|
        invariant maxAddr == MaxEnd(mmap[..i])
        invariant old(Space(p4, tree)) ==> Space(p4, tree')
        invariant ready ==> Enough(System(tree'), u) && Identically(a, System(tree'), Served(mmap, i))
      {
        var d := mmap[i];
        MaxEndStep(mmap, i);
        if End(d) > maxAddr {
          maxAddr := End(d);
        }
        if IdentityMapped(d) {
          ghost var b := System(tree');
          ServedPaths(mmap, bitmapLocation, i);
          AreaIs(mmap, i);
          tree' := MapDescriptor(d, p4, tree', u);
          if ready { IdenticallyTrans(a, b, System(tree'), Served(mmap, i), Area(d)); }
        }
      }
      assert mmap[..|mmap|] == mmap;
    }
  }

  /** Page f lies in a descriptor of a type the loader maps, and is not page 0. */
  ghost predicate Listed(mmap: seq<Descriptor>, f: nat) {
    && f != 0
    && exists i :: 0 <= i < |mmap| && mmap[i].type_ in {1, 2, 3, 4, 7, 9}
         && mmap[i].physicalStart <= f * 4096 < mmap[i].physicalStart + mmap[i].count * 4096
  }

  /** The processor finds those pages and the bitmap's at themselves, for the supervisor to write, and every
      other page, but for those numbered like the firmware's, where it did. */
  ghost predicate IdentityWalks(m: Memory, m': Memory, root: nat, mmap: seq<Descriptor>, location: nat, entries: nat,
                                free: set<nat>) {
    forall f: nat :: f < 0x10_0000_0000 ==>
      var mapped := Listed(mmap, f) || location <= f * 4096 < location + entries * 8;
      && (mapped ==> Mmu.Walk(m', root, f) == Mmu.Access(f, true, false))
      && (!mapped && f !in free ==> Mmu.Walk(m', root, f) == Mmu.Walk(m, root, f))
  }

  lemma ParsedWalks(a: Sys, b: Sys, mmap: seq<Descriptor>, location: nat, p4: nat)
    requires Valid(a) && ROOT in a.tree && p4 == a.tree[ROOT] * PAGE_SIZE && Supervised(a) && location % PAGE_SIZE == 0
    requires Identically(a, b, Served(mmap, |mmap|) + BitmapPages(mmap, location))
    requires MaxEnd(mmap) <= PAGES * PAGE_SIZE && forall i :: 0 <= i < |mmap| ==> WellFormed(mmap[i])
    requires BitmapRows(mmap) * 8 + PAGE_SIZE < TWO_64
    ensures Mmu.Linking(b, false)
    ensures IdentityWalks(a.mem, b.mem, p4 / 4096, mmap, location, BitmapRows(mmap), a.free)
  {
    hide *;
    IdenticallyIs(a, b, Served(mmap, |mmap|) + BitmapPages(mmap, location));
    forall f: nat | f < 0x10_0000_0000
      ensures var mapped := Listed(mmap, f) || location <= f * 4096 < location + BitmapRows(mmap) * 8;
              && (mapped ==> Mmu.Walk(b.mem, a.tree[ROOT], f) == Mmu.Access(f, true, false))
              && (!mapped && f !in a.free ==> Mmu.Walk(b.mem, a.tree[ROOT], f) == Mmu.Walk(a.mem, a.tree[ROOT], f))
    {
      ListedServed(mmap, f);
      InBitmap(mmap, location, f);
      IdenticallyAt(a, b, Served(mmap, |mmap|) + BitmapPages(mmap, location), f);
    }
    MakeWalks(a.mem, b.mem, p4, a.tree[ROOT], mmap, location, BitmapRows(mmap), a.free);
  }

  lemma MakeWalks(m: Memory, m': Memory, p4: nat, root: nat, mmap: seq<Descriptor>, location: nat, entries: nat,
                  free: set<nat>)
    requires p4 == root * PAGE_SIZE
    requires forall f: nat :: f < 0x10_0000_0000 ==>
               var mapped := Listed(mmap, f) || location <= f * 4096 < location + entries * 8;
               && (mapped ==> Mmu.Walk(m', root, f) == Mmu.Access(f, true, false))
               && (!mapped && f !in free ==> Mmu.Walk(m', root, f) == Mmu.Walk(m, root, f))
    ensures IdentityWalks(m, m', p4 / 4096, mmap, location, entries, free)
  {
    hide Mmu.Walk, Listed;
  }

  lemma IdenticallyIs(a: Sys, b: Sys, qs: set<nat>)
    requires Valid(a) && Identically(a, b, qs) && Supervised(a)
    ensures Valid(b) && Mmu.Linking(a, false) && Mmu.Linking(b, false)
    ensures ROOT in a.tree && ROOT in b.tree && b.tree[ROOT] == a.tree[ROOT]
  {
    hide Leaf, Mmu.Linking;
  }

  lemma IdenticallyAt(a: Sys, b: Sys, qs: set<nat>, q: nat)
    requires Valid(a) && Valid(b) && Identically(a, b, qs) && q < 0x10_0000_0000
    requires Mmu.Linking(a, false) && Mmu.Linking(b, false)
    requires ROOT in a.tree && ROOT in b.tree && b.tree[ROOT] == a.tree[ROOT]
    ensures q in qs ==> Mmu.Walk(b.mem, a.tree[ROOT], q) == Mmu.Access(q, true, false)
    ensures q !in qs && q !in a.free ==> Mmu.Walk(b.mem, a.tree[ROOT], q) == Mmu.Walk(a.mem, a.tree[ROOT], q)
  {
    Mmu.TableGrants(q, false);
    hide Valid, Leaf, Mmu.Linking, Mmu.Walk, Mmu.Grants;
    Mmu.WalkIs(a, q, false);
    Mmu.WalkIs(b, q, false);
  }

  lemma {:induction false} ServedOnly(mmap: seq<Descriptor>, n: nat, f: nat)
    requires n <= |mmap| && f in Served(mmap, n)
    ensures exists i :: 0 <= i < n && IdentityMapped(mmap[i]) && f in Area(mmap[i])
  {
    if IdentityMapped(mmap[n - 1]) && f in Area(mmap[n - 1]) {
    } else {
      ServedOnly(mmap, n - 1, f);
    }
  }

  lemma ListedServed(mmap: seq<Descriptor>, f: nat)
    requires forall i :: 0 <= i < |mmap| ==> WellFormed(mmap[i])
    ensures Listed(mmap, f) <==> f in Served(mmap, |mmap|)
  {
    hide Served;
    if Listed(mmap, f) {
      var i :| 0 <= i < |mmap| && mmap[i].type_ in {1, 2, 3, 4, 7, 9}
        && mmap[i].physicalStart <= f * 4096 < mmap[i].physicalStart + mmap[i].count * 4096;
      assert WellFormed(mmap[i]) && f in Area(mmap[i]);
      ServedHas(mmap, i, |mmap|);
    }
    if f in Served(mmap, |mmap|) {
      ServedOnly(mmap, |mmap|, f);
      var i :| 0 <= i < |mmap| && IdentityMapped(mmap[i]) && f in Area(mmap[i]);
      assert WellFormed(mmap[i]);
    }
  }

  lemma InBitmap(mmap: seq<Descriptor>, location: nat, f: nat)
    requires location % PAGE_SIZE == 0 && BitmapRows(mmap) * 8 + PAGE_SIZE < TWO_64
    ensures location <= f * 4096 < location + BitmapRows(mmap) * 8 <==> f in BitmapPages(mmap, location)
  {
    hide BitmapRows;
    DivCeilIs(BitmapRows(mmap) * 8, PAGE_SIZE);
  }

  lemma Sized(mmap: seq<Descriptor>)
    requires MaxEnd(mmap) <= PAGES * PAGE_SIZE && forall i :: 0 <= i < |mmap| ==> WellFormed(mmap[i])
    ensures forall i :: 0 <= i < |mmap| ==> mmap[i].physicalStart + mmap[i].count * 4096 <= MemPages(mmap) * 4096
    ensures MemPages(mmap) > 0 ==>
              exists i :: 0 <= i < |mmap| && mmap[i].physicalStart + mmap[i].count * 4096 == MemPages(mmap) * 4096
    ensures MemPages(mmap) <= 64 * BitmapRows(mmap) < MemPages(mmap) + 64
  {
    assert PAGES * PAGE_SIZE < TWO_64;
    hide MaxEnd, BitmapRows;
    RowsCover(mmap);
    var m := MaxEnd(mmap);
    assert forall i :: 0 <= i < |mmap| ==> WellFormed(mmap[i]) && End(mmap[i]) <= m;
    Ends(mmap, m, MemPages(mmap));
  }

  lemma Ends(mmap: seq<Descriptor>, m: nat, pages: nat)
    requires pages == m / PAGE_SIZE && forall i :: 0 <= i < |mmap| ==> WellFormed(mmap[i]) && End(mmap[i]) <= m
    requires m == 0 || exists i :: 0 <= i < |mmap| && End(mmap[i]) == m
    ensures forall i :: 0 <= i < |mmap| ==> mmap[i].physicalStart + mmap[i].count * 4096 <= pages * 4096
    ensures pages > 0 ==> exists i :: 0 <= i < |mmap| && mmap[i].physicalStart + mmap[i].count * 4096 == pages * 4096
  {
    if m != 0 {
      var i :| 0 <= i < |mmap| && End(mmap[i]) == m;
      Aligned(mmap[i].physicalStart, mmap[i].count, m);
      assert mmap[i].physicalStart + mmap[i].count * 4096 == pages * 4096;
    }
  }

  lemma Aligned(start: nat, n: nat, m: nat)
    requires start % PAGE_SIZE == 0 && m == start + n * PAGE_SIZE
    ensures m / PAGE_SIZE * 4096 == m
  {}
}
