/** src/kernel/mem/vmm.c: virtual ranges backed by frames, on top of the block allocator, the page
    tables and the frame allocator. */
module Vmm {
  import opened Bits
  import opened KernelH
  import opened PageTree
  import opened Frames
  import opened Draw
  import opened Pmm
  import opened BlockIds
  import opened BlockBitmap
  import opened Options
  import Mmu

  /** The frame behind block j of a region whose first page is `first`. */
  function FrameOf(a: Sys, first: nat, j: nat): nat {
    Frame(Leaf(a, first + j))
  }

  /** The blocks of `live` are backed: each page translates to a frame that is taken, is not a page
      table, and is behind no other block of `live`. */
  ghost predicate Backed(a: Sys, first: nat, live: set<nat>) {
    && (forall j :: j in live ==> first + j < PAGES)
    && (forall j :: j in live ==>
          var f := FrameOf(a, first, j); 0 < f < a.limit && f !in a.free && f !in Tables(a))
    && (forall j, k :: j in live && k in live && FrameOf(a, first, j) == FrameOf(a, first, k) ==> j == k)
  }

  /** The pages of these blocks name the same frames as before. */
  ghost predicate Unmoved(a: Sys, b: Sys, first: nat, blocks: set<nat>) {
    forall j: nat {:trigger FrameOf(b, first, j)} :: j in blocks ==> FrameOf(b, first, j) == FrameOf(a, first, j)
  }

  /** No page of the region names a frame past the end of memory, freed pages included. */
  ghost predicate Tame(a: Sys, first: nat, blocks: nat) {
    forall k: nat {:trigger FrameOf(a, first, k)} :: k < blocks ==> FrameOf(a, first, k) < a.limit
  }

  ghost function FramesOf(a: Sys, first: nat, live: set<nat>): set<nat> {
    set j | j in live :: FrameOf(a, first, j)
  }

  /** Like Enough, with n more free frames to spare. */
  ghost predicate EnoughFor(a: Sys, u: set<Slot>, n: nat) {
    Paths(a.free) <= u && |u - a.tree.Keys| + n <= |a.free|
  }

  lemma EnoughForKept(a: Sys, b: Sys, slots: set<Slot>, u: set<Slot>, n: nat)
    requires Valid(a) && Valid(b) && Grows(a, b, slots)
    requires EnoughFor(a, u, n) && slots <= u
    ensures EnoughFor(b, u, n)
  {
    TablesConserved(a, b, slots);
    PathsSplit(a.free, b.free, Taken(a, b));
    CountDown(u, a.tree.Keys, b.tree.Keys);
  }

  /** One frame set aside for data. */
  lemma SetAside(a: Sys, b: Sys, f: nat, u: set<Slot>, n: nat)
    requires Valid(a) && EnoughFor(a, u, n + 1) && f in a.free && b == a.(free := a.free - {f})
    ensures Valid(b) && EnoughFor(b, u, n) && Enough(b, u)
    ensures |b.free| + 1 == |a.free|
  {
    PathsSplit(a.free, b.free, {f});
  }

  // ---- What a mapping does to pages mapped before ------------------------------------------------

  /** An extension that maps nothing over the live pages leaves them backed exactly when none of them
      is numbered like a frame it will draw as a page table. */
  lemma BackedExactly(a: Sys, b: Sys, slots: set<Slot>, over: map<nat, nat>, first: nat, live: set<nat>)
    requires Valid(a) && Extends(a, b, slots, over) && Draws(a, b, slots) && Backed(a, first, live)
    requires forall j :: j in live ==> first + j !in over
    ensures Backed(b, first, live) <==> forall j :: j in live ==> first + j !in Drawn(a.tree.Keys, a.free, slots)
  {
    hide *;
    DrawsIs(a, b, slots);
    DrawnIs(a.tree.Keys, a.free, slots, Taken(a, b));
    ExtendsIs(a, b, slots, over);
    GrownTables(a, b, slots);
    InPages(a, first, live);
    FramesAfter(a, b, slots, over, first, live);
    BackedUnless(a, b, first, live, Taken(a, b));
  }

  lemma InPages(a: Sys, first: nat, live: set<nat>)
    requires Backed(a, first, live)
    ensures forall j :: j in live ==> first + j < PAGES
  {
    hide FrameOf, Tables;
  }

  lemma BackedUnless(a: Sys, b: Sys, first: nat, live: set<nat>, t: set<nat>)
    requires Backed(a, first, live) && b.free <= a.free && b.limit == a.limit
    requires t <= a.free && Tables(b) == Tables(a) + t
    requires forall j :: j in live ==> FrameOf(b, first, j) == if first + j in t then first + j else FrameOf(a, first, j)
    ensures Backed(b, first, live) <==> forall j :: j in live ==> first + j !in t
  {
    hide FrameOf, Tables;
    if j :| j in live && first + j in t {
      assert FrameOf(b, first, j) in Tables(b);
    }
  }

  lemma FramesAfter(a: Sys, b: Sys, slots: set<Slot>, over: map<nat, nat>, first: nat, live: set<nat>)
    requires Extends(a, b, slots, over)
    requires forall j :: j in live ==> first + j < PAGES && first + j !in over
    ensures forall j :: j in live ==>
              FrameOf(b, first, j) == if first + j in Taken(a, b) then first + j else FrameOf(a, first, j)
  {
    hide Extends, Taken, Leaf, Frame;
    forall j | j in live
      ensures FrameOf(b, first, j) == if first + j in Taken(a, b) then first + j else FrameOf(a, first, j)
    {
      LeafAfter(a, b, slots, over, first + j);
      IdentityFrame(first + j);
    }
  }

  lemma IdentityFrame(q: nat)
    requires q < PAGES
    ensures Frame(q * PAGE_SIZE + KERNEL_PT_ENTRY) == q
  {
    LinkFlags(q, KERNEL_PT_ENTRY);
  }

  /** So it fails whenever a mapping needs a table and the lowest free frame is numbered like a live page:
      alloc_frame takes that frame first. */
  lemma LowestFrameLost(a: Sys, b: Sys, q: nat, over: map<nat, nat>, first: nat, live: set<nat>, j: nat)
    requires Valid(a) && Extends(a, b, Path(q), over) && Draws(a, b, Path(q)) && Backed(a, first, live)
    requires forall k :: k in live ==> first + k !in over
    requires !(Path(q) <= a.tree.Keys) && j in live && Least(first + j, a.free)
    ensures !Backed(b, first, live)
  {
    hide *;
    BackedExactly(a, b, Path(q), over, first, live);
    DrawsIs(a, b, Path(q));
    DrawnIs(a.tree.Keys, a.free, Path(q), Taken(a, b));
    LeastDrawn(a.tree.Keys, a.free, Path(q), Taken(a, b), first + j);
  }

  lemma LeastDrawn(keys: set<Slot>, free: set<nat>, slots: set<Slot>, t: set<nat>, f: nat)
    requires Drawing(keys, free, slots, t) && !(slots <= keys) && Least(f, free)
    ensures f in t
  {
    var s :| s in slots && s !in keys;
    assert s in Missing(keys, slots, t);
    var g :| g in t;
    assert g !in t || f in t || g < f;
  }

  lemma TablesGrow(a: Sys, b: Sys, slots: set<Slot>)
    requires Grows(a, b, slots)
    ensures Tables(a) <= Tables(b) && b.free <= a.free && Tables(b) <= Tables(a) + a.free && b.limit == a.limit
  {
    forall s | s in a.tree ensures a.tree[s] in Tables(b) { assert b.tree[s] in Tables(b); }
  }

  /** Giving back the frames of some live blocks leaves the others backed. */
  lemma BackedFreed(a: Sys, b: Sys, first: nat, live: set<nat>, gone: set<nat>)
    requires Backed(a, first, live) && gone <= live
    requires b == a.(free := a.free + FramesOf(a, first, gone))
    ensures Backed(b, first, live - gone)
  {
    hide Leaf;
    forall j | j in live ensures FrameOf(b, first, j) == FrameOf(a, first, j) {
      SameLeaf(a, b, first + j);
    }
    forall j | j in live - gone ensures FrameOf(a, first, j) !in FramesOf(a, first, gone) {}
  }

  lemma SameLeaf(a: Sys, b: Sys, q: nat)
    requires b == a.(free := b.free)
    ensures Leaf(b, q) == Leaf(a, q)
  {}

  /** It frees one frame a block, and the tables are still a tree. */
  lemma FreedCounts(a: Sys, b: Sys, first: nat, live: set<nat>, gone: set<nat>)
    requires Valid(a) && Backed(a, first, live) && gone <= live
    requires b == a.(free := a.free + FramesOf(a, first, gone))
    ensures Valid(b) && |b.free| == |a.free| + |gone|
  {
    hide FrameOf, Linked, Shape;
    FramesCount(a, first, gone);
    assert a.free !! FramesOf(a, first, gone);
  }

  lemma {:induction false} FramesCount(a: Sys, first: nat, live: set<nat>)
    requires forall j, k :: j in live && k in live && FrameOf(a, first, j) == FrameOf(a, first, k) ==> j == k
    ensures |FramesOf(a, first, live)| == |live|
  {
    if live != {} {
      var j :| j in live;
      FramesCount(a, first, live - {j});
      assert FramesOf(a, first, live) == FramesOf(a, first, live - {j}) + {FrameOf(a, first, j)};
    }
  }

  /** Free frames and page tables: what is not behind pages. */
  ghost function Stock(a: Sys): nat { |a.free| + |Tables(a)| }

  // ---- A frame taken and mapped ------------------------------------------------------------------

  /** a without its lowest free frame. */
  ghost function Aside(a: Sys): Sys
    requires a.free != {}
  {
    a.(free := a.free - {NextFree(a.free)})
  }

  /** alloc_frame and then map_addr of page q; for address 0, map_addr does nothing. */
  ghost predicate PageTaken(a: Sys, b: Sys, q: nat, flags: nat) {
    && a.free != {}
    && if q == 0 then b == Aside(a)
       else Extends(Aside(a), b, Path(q), map[q := NextFree(a.free) * PAGE_SIZE + flags]) && Draws(Aside(a), b, Path(q))
  }

  lemma TakenIs(a: Sys, b: Sys, q: nat, flags: nat)
    requires PageTaken(a, b, q, flags)
    ensures a.free != {}
    ensures q == 0 ==> b == Aside(a)
    ensures q != 0 ==> Extends(Aside(a), b, Path(q), map[q := NextFree(a.free) * PAGE_SIZE + flags])
    ensures q != 0 ==> Draws(Aside(a), b, Path(q)) && Grows(Aside(a), b, Path(q)) && Valid(b)
  {
    hide Extends, Draws, Grows, Valid, Path, Aside;
    if q != 0 { ExtendsIs(Aside(a), b, Path(q), map[q := NextFree(a.free) * PAGE_SIZE + flags]); }
  }

  lemma AsideIs(a: Sys)
    requires Valid(a) && a.free != {}
    ensures var f := NextFree(a.free); f in a.free && 0 < f < a.limit <= PAGES && f !in Tables(a)
    ensures var c := Aside(a);
            && Valid(c) && Tables(c) == Tables(a) && c.tree == a.tree && c.limit == a.limit
            && c.free == a.free - {NextFree(a.free)} && c == a.(free := c.free)
  {
    hide Linked, Shape;
  }

  /** What decides which frames calls take: the slots that have tables, and the free frames. */
  datatype Store = Store(keys: set<Slot>, free: set<nat>)

  function StoreOf(a: Sys): Store { Store(a.tree.Keys, a.free) }

  /** The frames that will become page tables. */
  ghost function TablesOf(p: Store, q: nat): set<nat> {
    if q == 0 || p.free == {} then {} else Drawn(p.keys, p.free - {NextFree(p.free)}, Path(q))
  }

  ghost function AfterPage(p: Store, q: nat): Store {
    Store(if q == 0 then p.keys else p.keys + Path(q) + Paths(TablesOf(p, q)),
          if p.free == {} then {} else p.free - {NextFree(p.free)} - TablesOf(p, q))
  }

  /** After k pages in a row from page v. */
  ghost function StoreAt(p: Store, v: nat, k: nat): Store {
    if k == 0 then p else AfterPage(StoreAt(p, v, k - 1), v + k - 1)
  }

  lemma TablesOfIs(a: Sys, q: nat)
    requires a.free != {}
    ensures q == 0 ==> TablesOf(StoreOf(a), q) == {}
    ensures q != 0 ==> TablesOf(StoreOf(a), q) == Drawn(Aside(a).tree.Keys, Aside(a).free, Path(q))
  {}

  lemma TakenTables(a: Sys, b: Sys, q: nat, flags: nat)
    requires PageTaken(a, b, q, flags) && q != 0
    ensures a.free != {} && Taken(Aside(a), b) == TablesOf(StoreOf(a), q)
  {
    hide *;
    TakenIs(a, b, q, flags);
    TablesOfIs(a, q);
    DrawsIs(Aside(a), b, Path(q));
    DrawnIs(Aside(a).tree.Keys, Aside(a).free, Path(q), Taken(Aside(a), b));
  }

  /** Where every page leads afterwards: page q to the frame taken, a page numbered like a new table to
      that table, every other page where it led before. */
  lemma FrameAfterPage(a: Sys, b: Sys, q: nat, flags: nat, first: nat, j: nat)
    requires Valid(a) && PageTaken(a, b, q, flags) && flags < PAGE_SIZE && first + j < PAGES
    ensures a.free != {}
    ensures FrameOf(b, first, j) == if q != 0 && first + j == q then NextFree(a.free)
                                    else if first + j in TablesOf(StoreOf(a), q) then first + j
                                    else FrameOf(a, first, j)
  {
    hide *;
    TakenIs(a, b, q, flags);
    AsideIs(a);
    TablesOfIs(a, q);
    SameFrame(a, Aside(a), first, j);
    if q != 0 {
      TakenTables(a, b, q, flags);
      LinkFlags(NextFree(a.free), flags);
      MappedFrame(Aside(a), b, q, NextFree(a.free) * PAGE_SIZE + flags, first, j);
    }
  }

  lemma SameFrame(a: Sys, b: Sys, first: nat, j: nat)
    requires b == a.(free := b.free)
    ensures FrameOf(b, first, j) == FrameOf(a, first, j)
  {
    hide *;
    SameLeaf(a, b, first + j);
    FrameOfIs(a, first, j);
    FrameOfIs(b, first, j);
  }

  lemma FrameOfIs(a: Sys, first: nat, j: nat)
    ensures FrameOf(a, first, j) == Frame(Leaf(a, first + j))
  {}

  lemma MappedFrame(c: Sys, b: Sys, q: nat, e: nat, first: nat, j: nat)
    requires Extends(c, b, Path(q), map[q := e]) && first + j < PAGES
    ensures FrameOf(b, first, j) == if first + j == q then Frame(e)
                                    else if first + j in Taken(c, b) then first + j else FrameOf(c, first, j)
  {
    hide Extends, Taken, Leaf, Frame, Path;
    LeafAfter(c, b, Path(q), map[q := e], first + j);
    IdentityFrame(first + j);
  }

  /** The tables, the free frames and their number afterwards. */
  lemma PageStore(a: Sys, b: Sys, q: nat, flags: nat, u: set<Slot>, m: nat)
    requires Valid(a) && PageTaken(a, b, q, flags) && EnoughFor(a, u, m + 1) && (q != 0 ==> Path(q) <= u)
    ensures Valid(b) && EnoughFor(b, u, m) && Stock(b) + 1 == Stock(a) && StoreOf(b) == AfterPage(StoreOf(a), q)
  {
    hide *;
    TakenIs(a, b, q, flags);
    AsideIs(a);
    var c := Aside(a);
    SetAside(a, c, NextFree(a.free), u, m);
    StockIs(a);
    StockIs(b);
    if q != 0 {
      TakenTables(a, b, q, flags);
      EnoughForKept(c, b, Path(q), u, m);
      TablesConserved(c, b, Path(q));
      MappedStore(a, b, q);
    } else {
      UnmappedStore(a, b);
    }
  }

  lemma StockIs(a: Sys)
    ensures Stock(a) == |a.free| + |Tables(a)|
  {}

  lemma MappedStore(a: Sys, b: Sys, q: nat)
    requires a.free != {} && q != 0 && Grows(Aside(a), b, Path(q)) && Taken(Aside(a), b) == TablesOf(StoreOf(a), q)
    ensures StoreOf(b) == AfterPage(StoreOf(a), q)
  {
    hide Path, Paths, TablesOf, Taken;
  }

  lemma UnmappedStore(a: Sys, b: Sys)
    requires a.free != {} && b == Aside(a)
    ensures StoreOf(b) == AfterPage(StoreOf(a), 0)
  {}

  /** The frames stay apart: what is free, what are tables, and the frame taken. */
  lemma PageFrames(a: Sys, b: Sys, q: nat, flags: nat)
    requires Valid(a) && PageTaken(a, b, q, flags)
    ensures b.free <= a.free != {} && Tables(b) == Tables(a) + TablesOf(StoreOf(a), q) && a.tree.Keys <= b.tree.Keys
    ensures TablesOf(StoreOf(a), q) <= a.free && b.limit == a.limit <= PAGES
    ensures var f := NextFree(a.free); f in a.free && f !in b.free && f !in Tables(b) && 0 < f < a.limit
  {
    hide *;
    TakenIs(a, b, q, flags);
    AsideIs(a);
    TablesOfIs(a, q);
    if q != 0 {
      TakenTables(a, b, q, flags);
      GrownTables(Aside(a), b, Path(q));
    }
  }

  lemma GrownTables(a: Sys, b: Sys, slots: set<Slot>)
    requires Grows(a, b, slots)
    ensures b.free <= a.free && Tables(b) == Tables(a) + Taken(a, b) && Taken(a, b) <= a.free && b.limit == a.limit
    ensures a.tree.Keys <= b.tree.Keys
  {
    TablesGrow(a, b, slots);
  }

  // ---- Whether live pages survive it -------------------------------------------------------------

  function PagesOf(first: nat, blocks: set<nat>): set<nat> {
    set j | j in blocks :: first + j
  }

  /** Taking a frame for page q touches none of the pages: known before the call. */
  ghost predicate Spares(p: Store, q: nat, pages: set<nat>) {
    (q == 0 || q !in pages) && TablesOf(p, q) !! pages
  }

  /** The blocks a loop of k pages has added: when no range was found, none. */
  ghost function Added(found: bool, i: nat, k: nat): set<nat> {
    if found then Pages(i, k) else {}
  }

  /** The page a loop starts from: block i's, or page 0 when no range was found. */
  function From(first: nat, found: bool, i: nat): nat {
    if found then first + i else 0
  }

  /** Nor do n pages in a row touch a live page or one of the pages just mapped. */
  ghost predicate AllSpared(p: Store, first: nat, live: set<nat>, found: bool, i: nat, n: nat) {
    forall k: nat {:trigger SparesAt(p, first, live, found, i, k)} :: k < n ==> SparesAt(p, first, live, found, i, k)
  }

  /** So far so good: everything is backed and the old pages lead where they did; or something is lost
      for good: an old page leads to a frame that was free at the start, or a new one to a page table. */
  ghost predicate Progress(z: Sys, a: Sys, first: nat, live: set<nat>, added: set<nat>, good: bool) {
    if good then Backed(a, first, live + added) && Unmoved(z, a, first, live)
    else || (exists j :: j in live && FrameOf(a, first, j) in z.free)
         || (exists j :: j in added && FrameOf(a, first, j) in Tables(a))
  }

  /** Page q is that of the block added, or before the region's added blocks. */
  ghost predicate StepFits(first: nat, live: set<nat>, found: bool, i: nat, k: nat) {
    && 0 < first && From(first, found, i) + k < PAGES && (forall j :: j in live ==> first + j < PAGES)
    && (found ==> Pages(i, k + 1) !! live)
  }

  /** b is a with frame f mapped at page q and the frames t made tables, seen from the region. */
  ghost predicate Steps(a: Sys, b: Sys, first: nat, q: nat, f: nat, t: set<nat>) {
    && b.free <= a.free && b.limit == a.limit && Tables(b) == Tables(a) + t && t <= a.free
    && f in a.free && f !in b.free && f !in Tables(b) && 0 < f < a.limit
    && forall j: nat {:trigger FrameOf(b, first, j)} :: first + j < PAGES ==>
         FrameOf(b, first, j) == if q != 0 && first + j == q then f
                                 else if first + j in t then first + j else FrameOf(a, first, j)
  }

  lemma TakenSteps(a: Sys, b: Sys, q: nat, flags: nat, first: nat)
    requires Valid(a) && PageTaken(a, b, q, flags) && flags < PAGE_SIZE
    ensures a.free != {} && Steps(a, b, first, q, NextFree(a.free), TablesOf(StoreOf(a), q)) && a.tree.Keys <= b.tree.Keys
  {
    hide *;
    PageFrames(a, b, q, flags);
    forall j: nat | first + j < PAGES
      ensures FrameOf(b, first, j) == if q != 0 && first + j == q then NextFree(a.free)
                                      else if first + j in TablesOf(StoreOf(a), q) then first + j
                                      else FrameOf(a, first, j)
    {
      FrameAfterPage(a, b, q, flags, first, j);
    }
    MakeSteps(a, b, first, q, NextFree(a.free), TablesOf(StoreOf(a), q));
  }

  lemma MakeSteps(a: Sys, b: Sys, first: nat, q: nat, f: nat, t: set<nat>)
    requires b.free <= a.free && b.limit == a.limit && Tables(b) == Tables(a) + t && t <= a.free
    requires f in a.free && f !in b.free && f !in Tables(b) && 0 < f < a.limit
    requires forall j: nat {:trigger FrameOf(b, first, j)} :: first + j < PAGES ==>
               FrameOf(b, first, j) == if q != 0 && first + j == q then f
                                       else if first + j in t then first + j else FrameOf(a, first, j)
    ensures Steps(a, b, first, q, f, t)
  {
    hide FrameOf, Tables;
  }

  lemma GoodStep(z: Sys, a: Sys, b: Sys, first: nat, live: set<nat>, found: bool, i: nat, k: nat, f: nat, t: set<nat>)
    requires Steps(a, b, first, From(first, found, i) + k, f, t)
    requires StepFits(first, live, found, i, k) && Progress(z, a, first, live, Added(found, i, k), true)
    requires var q, pages := From(first, found, i) + k, PagesOf(first, live + Added(found, i, k));
             (q == 0 || q !in pages) && t !! pages
    ensures Progress(z, b, first, live, Added(found, i, k + 1), true)
  {
    hide FrameOf, Tables;
    var q, old_ := From(first, found, i) + k, live + Added(found, i, k);
    forall j | j in old_ ensures FrameOf(b, first, j) == FrameOf(a, first, j) {
      assert first + j in PagesOf(first, old_);
    }
    assert live + Added(found, i, k + 1) == old_ + if found then {i + k} else {};
  }

  lemma BreakStep(z: Sys, a: Sys, b: Sys, first: nat, live: set<nat>, found: bool, i: nat, k: nat, f: nat, t: set<nat>)
    requires Steps(a, b, first, From(first, found, i) + k, f, t) && a.free <= z.free
    requires StepFits(first, live, found, i, k)
    requires var q, pages := From(first, found, i) + k, PagesOf(first, live + Added(found, i, k));
             !((q == 0 || q !in pages) && t !! pages)
    ensures Progress(z, b, first, live, Added(found, i, k + 1), false)
  {
    hide FrameOf, Tables;
    var q, old_ := From(first, found, i) + k, live + Added(found, i, k);
    var j :| j in old_ && ((q == first + j && q != 0) || first + j in t);
    assert FrameOf(b, first, j) in z.free;
    if j !in live { assert j in Added(found, i, k + 1); }
  }

  lemma BrokenStep(z: Sys, a: Sys, b: Sys, first: nat, live: set<nat>, found: bool, i: nat, k: nat, f: nat, t: set<nat>)
    requires Steps(a, b, first, From(first, found, i) + k, f, t) && a.free <= z.free
    requires StepFits(first, live, found, i, k) && Progress(z, a, first, live, Added(found, i, k), false)
    ensures Progress(z, b, first, live, Added(found, i, k + 1), false)
  {
    hide FrameOf, Tables;
    if j :| j in live && FrameOf(a, first, j) in z.free {
      assert FrameOf(b, first, j) in z.free;
    } else {
      var j :| j in Added(found, i, k) && FrameOf(a, first, j) in Tables(a);
      assert j in Added(found, i, k + 1) && FrameOf(b, first, j) in Tables(b);
    }
  }

  // ---- n pages in a row ----------------------------------------------------------------------------

  /** Every page leads where it did or to a frame that was free; pages v to v + k - 1, but for page 0,
      to the latter. */
  ghost predicate Fresher(z: Sys, a: Sys, first: nat, v: nat, k: nat) {
    forall j: nat {:trigger FrameOf(a, first, j)} :: first + j < PAGES ==>
      || FrameOf(a, first, j) in z.free
      || (FrameOf(a, first, j) == FrameOf(z, first, j) && !(v <= first + j < v + k && first + j > 0))
  }

  /** After k pages of the loops of valloc and init_vmm. */
  ghost predicate TookPages(z: Sys, a: Sys, first: nat, live: set<nat>, found: bool, i: nat, k: nat) {
    && a.free <= z.free && a.limit == z.limit && Stock(a) + k == Stock(z)
    && StoreOf(a) == StoreAt(StoreOf(z), From(first, found, i), k)
    && Fresher(z, a, first, From(first, found, i), k)
    && Progress(z, a, first, live, Added(found, i, k), AllSpared(StoreOf(z), first, live, found, i, k))
  }

  lemma TookNone(z: Sys, first: nat, live: set<nat>, found: bool, i: nat)
    requires Backed(z, first, live)
    ensures TookPages(z, z, first, live, found, i, 0)
  {
    hide FrameOf, Tables;
    assert live + Added(found, i, 0) == live;
  }

  lemma FresherStep(z: Sys, a: Sys, b: Sys, first: nat, v: nat, k: nat, f: nat, t: set<nat>)
    requires Steps(a, b, first, v + k, f, t) && a.free <= z.free && Fresher(z, a, first, v, k)
    ensures Fresher(z, b, first, v, k + 1)
  {
    hide FrameOf, Tables;
    forall j: nat | first + j < PAGES
      ensures FrameOf(b, first, j) in z.free
        || (FrameOf(b, first, j) == FrameOf(z, first, j) && !(v <= first + j < v + k + 1 && first + j > 0))
    {
      assert FrameOf(a, first, j) == FrameOf(a, first, j);
    }
  }

  /** Page k of the loop spares what is there. */
  ghost predicate SparesAt(p: Store, first: nat, live: set<nat>, found: bool, i: nat, k: nat) {
    Spares(StoreAt(p, From(first, found, i), k), From(first, found, i) + k, PagesOf(first, live + Added(found, i, k)))
  }

  lemma MoreSpared(p: Store, first: nat, live: set<nat>, found: bool, i: nat, k: nat)
    ensures AllSpared(p, first, live, found, i, k + 1) <==>
            AllSpared(p, first, live, found, i, k) && SparesAt(p, first, live, found, i, k)
  {
    hide SparesAt;
  }

  lemma SparesAtIs(p: Store, first: nat, live: set<nat>, found: bool, i: nat, k: nat, s: Store)
    requires s == StoreAt(p, From(first, found, i), k)
    ensures SparesAt(p, first, live, found, i, k) <==>
            var q, pages := From(first, found, i) + k, PagesOf(first, live + Added(found, i, k));
            (q == 0 || q !in pages) && TablesOf(s, q) !! pages
  {
    hide StoreAt, TablesOf, From, PagesOf, Added;
  }

  lemma TookMore(z: Sys, a: Sys, b: Sys, first: nat, live: set<nat>, found: bool, i: nat, k: nat, flags: nat,
                 u: set<Slot>, m: nat)
    requires Valid(a) && PageTaken(a, b, From(first, found, i) + k, flags) && flags < PAGE_SIZE
    requires StepFits(first, live, found, i, k) && TookPages(z, a, first, live, found, i, k)
    requires EnoughFor(a, u, m + 1) && (From(first, found, i) + k != 0 ==> Path(From(first, found, i) + k) <= u)
    ensures TookPages(z, b, first, live, found, i, k + 1) && EnoughFor(b, u, m) && Valid(b)
  {
    hide *;
    var v := From(first, found, i);
    TookIs(z, a, first, live, found, i, k);
    PageStore(a, b, v + k, flags, u, m);
    TakenSteps(a, b, v + k, flags, first);
    var f, t := NextFree(a.free), TablesOf(StoreOf(a), v + k);
    FresherStep(z, a, b, first, v, k, f, t);
    MoreSpared(StoreOf(z), first, live, found, i, k);
    SparesAtIs(StoreOf(z), first, live, found, i, k, StoreOf(a));
    NextStore(StoreOf(z), v, k);
    StepFree(a, b, first, v + k, f, t);
    if !AllSpared(StoreOf(z), first, live, found, i, k) {
      BrokenStep(z, a, b, first, live, found, i, k, f, t);
    } else if SparesAt(StoreOf(z), first, live, found, i, k) {
      GoodStep(z, a, b, first, live, found, i, k, f, t);
    } else {
      BreakStep(z, a, b, first, live, found, i, k, f, t);
    }
    TookIs(z, b, first, live, found, i, k + 1);
  }

  lemma StepFree(a: Sys, b: Sys, first: nat, q: nat, f: nat, t: set<nat>)
    requires Steps(a, b, first, q, f, t)
    ensures b.free <= a.free && b.limit == a.limit
  {
    hide FrameOf, Tables;
  }

  lemma NextStore(p: Store, v: nat, k: nat)
    ensures StoreAt(p, v, k + 1) == AfterPage(StoreAt(p, v, k), v + k)
  {
    hide AfterPage;
  }

  lemma TookIs(z: Sys, a: Sys, first: nat, live: set<nat>, found: bool, i: nat, k: nat)
    ensures TookPages(z, a, first, live, found, i, k) <==>
            && a.free <= z.free && a.limit == z.limit && Stock(a) + k == Stock(z)
            && StoreOf(a) == StoreAt(StoreOf(z), From(first, found, i), k)
            && Fresher(z, a, first, From(first, found, i), k)
            && Progress(z, a, first, live, Added(found, i, k), AllSpared(StoreOf(z), first, live, found, i, k))
  {
    hide Stock, StoreOf, StoreAt, From, Fresher, Progress, Added, AllSpared;
  }

  /** The old pages are where they were and everything is backed exactly if all was spared. */
  lemma KeptExactly(z: Sys, a: Sys, first: nat, live: set<nat>, found: bool, i: nat, n: nat)
    requires TookPages(z, a, first, live, found, i, n) && Backed(z, first, live)
    ensures Backed(a, first, live + Added(found, i, n)) && Unmoved(z, a, first, live)
            <==> AllSpared(StoreOf(z), first, live, found, i, n)
  {
    hide FrameOf, AllSpared, StoreAt, Fresher, Stock, Added;
  }

  // ---- The entries themselves ---------------------------------------------------------------------

  function LeafOf(a: Sys, first: nat, j: nat): nat { Leaf(a, first + j) }

  /** The entries of these pages are just the frames' addresses with the flags. */
  ghost predicate Tagged(a: Sys, first: nat, live: set<nat>, flags: nat) {
    forall j: nat {:trigger LeafOf(a, first, j)} :: j in live ==>
      LeafOf(a, first, j) == FrameOf(a, first, j) * PAGE_SIZE + flags
  }

  lemma LeafAfterPage(a: Sys, b: Sys, q: nat, flags: nat, p: nat)
    requires Valid(a) && PageTaken(a, b, q, flags) && p < PAGES
    ensures a.free != {}
    ensures Leaf(b, p) == if q != 0 && p == q then NextFree(a.free) * PAGE_SIZE + flags
                          else if p in TablesOf(StoreOf(a), q) then p * PAGE_SIZE + KERNEL_PT_ENTRY
                          else Leaf(a, p)
  {
    hide *;
    TakenIs(a, b, q, flags);
    AsideIs(a);
    TablesOfIs(a, q);
    SameLeaf(a, Aside(a), p);
    if q != 0 {
      TakenTables(a, b, q, flags);
      var over := map[q := NextFree(a.free) * PAGE_SIZE + flags];
      LeafAfter(Aside(a), b, Path(q), over, p);
      Mmu.ExpectedIs(Aside(a), Taken(Aside(a), b), over, p);
    }
  }

  /** What the loops write, and what they leave: entries of pages that are numbered like no free frame and
      are not mapped, and the bits of the links. */
  ghost predicate Wrote(z: Sys, a: Sys, first: nat, live: set<nat>, found: bool, i: nat, k: nat, flags: nat) {
    && (forall q: nat {:trigger Leaf(a, q)} ::
          q < PAGES && q !in z.free && !(From(first, found, i) <= q < From(first, found, i) + k && q > 0) ==>
          Leaf(a, q) == Leaf(z, q))
    && (AllSpared(StoreOf(z), first, live, found, i, k) && Tagged(z, first, live, flags) ==>
          Tagged(a, first, live + Added(found, i, k), flags))
    && LinksStay(z, a) && Tables(a) <= Tables(z) + z.free
  }

  /** The root stays, links for user code and for writing stay so, and words outside the tables are left
      alone. */
  ghost predicate LinksStay(z: Sys, a: Sys) {
    && Untouched(z, a) && Tables(z) <= Tables(a) && a.link == z.link
    && ROOT in z.tree && ROOT in a.tree && a.tree[ROOT] == z.tree[ROOT]
    && (Mmu.Writing(z) ==> Mmu.Writing(a)) && (Mmu.Linking(z, true) ==> Mmu.Linking(a, true))
  }

  lemma WroteNone(z: Sys, first: nat, live: set<nat>, found: bool, i: nat, flags: nat)
    requires Valid(z)
    ensures Wrote(z, z, first, live, found, i, 0, flags)
  {
    hide FrameOf, LeafOf, Leaf, AllSpared, Mmu.Writing, Mmu.Linking, Linked, Tables;
    assert live + Added(found, i, 0) == live;
  }

  lemma LinkedMore(a: Sys, b: Sys, q: nat, flags: nat)
    requires Valid(a) && PageTaken(a, b, q, flags) && a.link == USER_PT_ENTRY
    ensures LinksStay(a, b)
  {
    hide *;
    UserBits();
    TakenIs(a, b, q, flags);
    AsideIs(a);
    AsideLinks(a);
    RootIn(a);
    AsideWords(a);
    if q != 0 {
      ExtendsWords(Aside(a), b, Path(q), map[q := NextFree(a.free) * PAGE_SIZE + flags]);
      var over := map[q := NextFree(a.free) * PAGE_SIZE + flags];
      Mmu.ExtendsLinks(Aside(a), b, Path(q), over);
      GrowsLink(Aside(a), b, Path(q));
      if Mmu.Writing(a) { Mmu.WritingKept(Aside(a), b, Path(q), over); }
      if Mmu.Linking(a, true) { Mmu.LinkingKept(Aside(a), b, Path(q), over, true); }
    }
    MakeLinksStay(a, b);
  }

  lemma UserBits()
    ensures USER_PT_ENTRY / 2 % 2 == 1 && USER_PT_ENTRY / 4 % 2 == 1
  {}

  lemma GrowsLink(a: Sys, b: Sys, slots: set<Slot>)
    requires Grows(a, b, slots)
    ensures b.link == a.link
  {}

  lemma RootIn(a: Sys)
    requires Valid(a)
    ensures ROOT in a.tree
  {}

  lemma AsideLinks(a: Sys)
    requires a.free != {}
    ensures Aside(a).link == a.link && (Mmu.Writing(Aside(a)) <==> Mmu.Writing(a))
    ensures Mmu.Linking(Aside(a), true) <==> Mmu.Linking(a, true)
  {
    assert forall s :: Link(Aside(a), s) == Link(a, s);
    hide Link;
  }

  lemma AsideWords(a: Sys)
    requires a.free != {}
    ensures Tables(Aside(a)) == Tables(a) && Untouched(a, Aside(a)) && Aside(a).mem == a.mem
    ensures forall b: Sys :: Untouched(Aside(a), b) ==> Untouched(a, b)
  {}

  lemma ExtendsWords(a: Sys, b: Sys, slots: set<Slot>, over: map<nat, nat>)
    requires Extends(a, b, slots, over)
    ensures Untouched(a, b) && Tables(a) <= Tables(b)
  {
    ExtendsIs(a, b, slots, over);
    TablesGrow(a, b, slots);
    hide Tables, Grows;
  }

  lemma MakeLinksStay(z: Sys, a: Sys)
    requires Untouched(z, a) && Tables(z) <= Tables(a)
    requires a.link == z.link && ROOT in z.tree && ROOT in a.tree && a.tree[ROOT] == z.tree[ROOT]
    requires (Mmu.Writing(z) ==> Mmu.Writing(a)) && (Mmu.Linking(z, true) ==> Mmu.Linking(a, true))
    ensures LinksStay(z, a)
  {
    hide Mmu.Writing, Mmu.Linking;
  }

  lemma TaggedStep(a: Sys, b: Sys, first: nat, live: set<nat>, found: bool, i: nat, k: nat, flags: nat, f: nat,
                   t: set<nat>)
    requires Steps(a, b, first, From(first, found, i) + k, f, t) && StepFits(first, live, found, i, k)
    requires var q, pages := From(first, found, i) + k, PagesOf(first, live + Added(found, i, k));
             (q == 0 || q !in pages) && t !! pages
    requires found ==> first + i + k < PAGES
    requires forall j :: j in Added(found, i, k) ==> first + j < PAGES
    requires forall j: nat {:trigger LeafOf(b, first, j)} :: first + j < PAGES ==>
               LeafOf(b, first, j) == if From(first, found, i) + k != 0 && first + j == From(first, found, i) + k
                                      then f * PAGE_SIZE + flags
                                      else if first + j in t then (first + j) * PAGE_SIZE + KERNEL_PT_ENTRY
                                      else LeafOf(a, first, j)
    requires Tagged(a, first, live + Added(found, i, k), flags)
    ensures Tagged(b, first, live + Added(found, i, k + 1), flags)
  {
    hide FrameOf, LeafOf, Tables;
    var old_ := live + Added(found, i, k);
    forall j | j in old_ ensures LeafOf(b, first, j) == FrameOf(b, first, j) * PAGE_SIZE + flags {
      assert first + j in PagesOf(first, old_);
      assert LeafOf(a, first, j) == FrameOf(a, first, j) * PAGE_SIZE + flags;
    }
    assert live + Added(found, i, k + 1) == old_ + if found then {i + k} else {};
  }

  lemma WroteMore(z: Sys, a: Sys, b: Sys, first: nat, live: set<nat>, found: bool, i: nat, k: nat, flags: nat)
    requires Valid(a) && PageTaken(a, b, From(first, found, i) + k, flags) && flags < PAGE_SIZE && a.link == USER_PT_ENTRY
    requires StepFits(first, live, found, i, k) && TookPages(z, a, first, live, found, i, k)
    requires Wrote(z, a, first, live, found, i, k, flags)
    ensures Wrote(z, b, first, live, found, i, k + 1, flags)
  {
    hide *;
    var q := From(first, found, i) + k;
    WroteIs(z, a, first, live, found, i, k, flags);
    TookIs(z, a, first, live, found, i, k);
    TakenSteps(a, b, q, flags, first);
    LinkedMore(a, b, q, flags);
    LinksStayTrans(z, a, b);
    MoreSpared(StoreOf(z), first, live, found, i, k);
    SparesAtIs(StoreOf(z), first, live, found, i, k, StoreOf(a));
    var f, t := NextFree(a.free), TablesOf(StoreOf(a), q);
    DrawnWithin(StoreOf(a), q);
    StoreFree(a);
    StepTables(a, b, first, q, f, t);
    forall p: nat | p < PAGES && p !in z.free && !(From(first, found, i) <= p < From(first, found, i) + (k + 1) && p > 0)
      ensures Leaf(b, p) == Leaf(z, p)
    {
      LeafAfterPage(a, b, q, flags, p);
    }
    if AllSpared(StoreOf(z), first, live, found, i, k + 1) && Tagged(z, first, live, flags) {
      forall j: nat | first + j < PAGES
        ensures LeafOf(b, first, j) == if q != 0 && first + j == q then f * PAGE_SIZE + flags
                                       else if first + j in t then (first + j) * PAGE_SIZE + KERNEL_PT_ENTRY
                                       else LeafOf(a, first, j)
      {
        LeafAfterPage(a, b, q, flags, first + j);
        LeafOfIs(a, first, j);
        LeafOfIs(b, first, j);
      }
      AddedFits(first, live, found, i, k);
      TaggedStep(a, b, first, live, found, i, k, flags, f, t);
    }
    WroteIs(z, b, first, live, found, i, k + 1, flags);
  }

  lemma StepTables(a: Sys, b: Sys, first: nat, q: nat, f: nat, t: set<nat>)
    requires Steps(a, b, first, q, f, t)
    ensures Tables(b) == Tables(a) + t && t <= a.free
  {
    hide FrameOf, Tables;
  }

  lemma StoreFree(a: Sys)
    ensures StoreOf(a).free == a.free
  {}

  lemma AddedFits(first: nat, live: set<nat>, found: bool, i: nat, k: nat)
    requires StepFits(first, live, found, i, k)
    ensures found ==> first + i + k < PAGES
    ensures forall j :: j in Added(found, i, k) ==> first + j < PAGES
  {}

  lemma LeafOfIs(a: Sys, first: nat, j: nat)
    ensures LeafOf(a, first, j) == Leaf(a, first + j)
  {}

  lemma LinksStayTrans(z: Sys, a: Sys, b: Sys)
    requires LinksStay(z, a) && LinksStay(a, b)
    ensures LinksStay(z, b)
  {
    hide Mmu.Writing, Mmu.Linking, Tables, Entry;
  }

  lemma WroteIs(z: Sys, a: Sys, first: nat, live: set<nat>, found: bool, i: nat, k: nat, flags: nat)
    ensures Wrote(z, a, first, live, found, i, k, flags) <==>
            && (forall q: nat {:trigger Leaf(a, q)} ::
                  q < PAGES && q !in z.free && !(From(first, found, i) <= q < From(first, found, i) + k && q > 0) ==>
                  Leaf(a, q) == Leaf(z, q))
            && (AllSpared(StoreOf(z), first, live, found, i, k) && Tagged(z, first, live, flags) ==>
                  Tagged(a, first, live + Added(found, i, k), flags))
            && LinksStay(z, a) && Tables(a) <= Tables(z) + z.free
  {
    hide Leaf, From, AllSpared, StoreOf, Tagged, Added, LinksStay, Tables;
  }

  /** The outcome of allocations that did no harm: the blocks `added` got frames that were free, live ones
      kept theirs, pages numbered like no free frame and not of those blocks kept their entries, and words
      outside the tables were left alone. */
  ghost predicate Gave(z: Sys, a: Sys, first: nat, live: set<nat>, added: set<nat>) {
    && a.free <= z.free && a.limit == z.limit && Unmoved(z, a, first, live)
    && (forall j: nat {:trigger FrameOf(a, first, j)} :: j in added ==> FrameOf(a, first, j) in z.free)
    && (forall q: nat {:trigger Leaf(a, q)} :: q < PAGES && q !in z.free && q !in PagesOf(first, added) ==>
          Leaf(a, q) == Leaf(z, q))
    && LinksStay(z, a) && Tables(a) <= Tables(z) + z.free
  }

  lemma GaveTrans(z: Sys, a: Sys, b: Sys, first: nat, live: set<nat>, x: set<nat>, y: set<nat>)
    requires Gave(z, a, first, live, x) && Gave(a, b, first, live + x, y)
    ensures Gave(z, b, first, live, x + y)
  {
    LinksStayTrans(z, a, b);
    hide FrameOf, Leaf, LinksStay, Tables;
    assert forall q :: q in PagesOf(first, x) || q in PagesOf(first, y) ==> q in PagesOf(first, x + y);
    forall q: nat {:trigger Leaf(b, q)} | q < PAGES && q !in z.free && q !in PagesOf(first, x + y)
      ensures Leaf(b, q) == Leaf(z, q)
    {
      assert Leaf(a, q) == Leaf(z, q);
    }
    forall j: nat | j in live ensures FrameOf(b, first, j) == FrameOf(z, first, j) {
      assert FrameOf(a, first, j) == FrameOf(z, first, j);
    }
    forall j: nat | j in x + y ensures FrameOf(b, first, j) in z.free {
      if j in x { assert FrameOf(a, first, j) in z.free && FrameOf(b, first, j) == FrameOf(a, first, j); }
    }
  }

  lemma InPagesOf(first: nat, blocks: set<nat>, j: nat)
    requires j in blocks
    ensures first + j in PagesOf(first, blocks)
  {}

  /** An allocation in which a range was found and nothing was harmed. */
  lemma TookGave(z: Sys, a: Sys, first: nat, live: set<nat>, i: nat, n: nat, flags: nat)
    requires TookPages(z, a, first, live, true, i, n) && Wrote(z, a, first, live, true, i, n, flags)
    requires Unmoved(z, a, first, live) && first > 0 && first + i + n <= PAGES
    ensures Gave(z, a, first, live, Pages(i, n))
  {
    hide FrameOf, Leaf, LinksStay, Tables, AllSpared, Tagged, Progress, Stock, StoreAt;
    forall q: nat | first + i <= q < first + i + n ensures q in PagesOf(first, Pages(i, n)) {
      InPagesOf(first, Pages(i, n), q - first);
    }
  }

  // ---- Regions where nothing can go wrong --------------------------------------------------------

  /** No free frame, and no frame behind a page of the region, is numbered like a page of the region. */
  ghost predicate Apart(a: Sys, first: nat, blocks: nat) {
    && Pages(first, blocks) !! a.free
    && forall k: nat {:trigger FrameOf(a, first, k)} :: k < blocks ==> FrameOf(a, first, k) !in Pages(first, blocks)
  }

  /** All pages up to the region's end have their tables. */
  ghost predicate Tabled(p: Store, first: nat, blocks: nat) {
    forall q: nat {:trigger Path(q)} :: 0 < q < first + blocks ==> Path(q) <= p.keys
  }

  /** The kernel's region is the first, a thread's the second. */
  ghost predicate Safe(a: Sys, first: nat, blocks: nat) {
    Apart(a, first, blocks) || Tabled(StoreOf(a), first, blocks)
  }

  ghost predicate SafeStore(p: Store, first: nat, blocks: nat) {
    Pages(first, blocks) !! p.free || Tabled(p, first, blocks)
  }

  lemma DrawnWithin(p: Store, q: nat)
    ensures TablesOf(p, q) <= p.free
    ensures q != 0 && Path(q) <= p.keys ==> TablesOf(p, q) == {}
  {
    if q != 0 && Path(q) <= p.keys && p.free != {} {
      NothingDrawn(p.keys, p.free - {NextFree(p.free)}, Path(q));
      DrawnIs(p.keys, p.free - {NextFree(p.free)}, Path(q), {});
    }
  }

  lemma {:induction false} StaysSafe(p: Store, first: nat, blocks: nat, v: nat, k: nat)
    requires SafeStore(p, first, blocks)
    ensures SafeStore(StoreAt(p, v, k), first, blocks)
  {
    hide SafeStore, AfterPage;
    if k > 0 {
      StaysSafe(p, first, blocks, v, k - 1);
      NextStore(p, v, k - 1);
      SafeNext(StoreAt(p, v, k - 1), first, blocks, v + k - 1);
    }
  }

  lemma SafeNext(p: Store, first: nat, blocks: nat, q: nat)
    requires SafeStore(p, first, blocks)
    ensures SafeStore(AfterPage(p, q), first, blocks)
  {
    hide TablesOf, Path, Paths;
  }

  lemma SafeTables(p: Store, first: nat, blocks: nat, q: nat)
    requires SafeStore(p, first, blocks) && q < first + blocks
    ensures TablesOf(p, q) !! Pages(first, blocks)
  {
    DrawnWithin(p, q);
    hide TablesOf, Path;
    assert q == 0 ==> TablesOf(p, q) == {} by { NoTables(p); }
    assert 0 < q && Tabled(p, first, blocks) ==> Path(q) <= p.keys;
  }

  lemma NoTables(p: Store)
    ensures TablesOf(p, 0) == {}
  {}

  /** There an allocation spares everything if a range fits, or if the loop from address 0 ends before
      the region, and otherwise it does not: the first live block lies in its way. */
  lemma SafeSpares(p: Store, first: nat, blocks: nat, live: set<nat>, found: bool, i: nat, n: nat)
    requires SafeStore(p, first, blocks) && live <= Pages(0, blocks) && 0 in live
    requires found ==> i + n <= blocks && Pages(i, n) !! live
    requires 0 < first
    ensures AllSpared(p, first, live, found, i, n) <==> found || n <= first
  {
    SafeSparesIf(p, first, blocks, live, found, i, n);
    if !found && n > first { InTheWay(p, first, live, i, n); }
  }

  lemma InTheWay(p: Store, first: nat, live: set<nat>, i: nat, n: nat)
    requires 0 in live && 0 < first < n
    ensures !AllSpared(p, first, live, false, i, n)
  {
    if AllSpared(p, first, live, false, i, n) {
      assert From(first, false, i) == 0 && first in PagesOf(first, live + Added(false, i, first));
      hide StoreAt, TablesOf;
      SparesAtIs(p, first, live, false, i, first, StoreAt(p, 0, first));
    }
  }

  lemma SafeSparesIf(p: Store, first: nat, blocks: nat, live: set<nat>, found: bool, i: nat, n: nat)
    requires SafeStore(p, first, blocks) && live <= Pages(0, blocks)
    requires found ==> i + n <= blocks && Pages(i, n) !! live
    ensures found || n <= first ==> AllSpared(p, first, live, found, i, n)
  {
    forall k: nat | k < n && (found || n <= first) ensures SparesAt(p, first, live, found, i, k) {
      SafeSparesAt(p, first, blocks, live, found, i, n, k);
    }
    hide SparesAt;
  }

  lemma SafeSparesAt(p: Store, first: nat, blocks: nat, live: set<nat>, found: bool, i: nat, n: nat, k: nat)
    requires SafeStore(p, first, blocks) && live <= Pages(0, blocks) && k < n
    requires if found then i + n <= blocks && Pages(i, n) !! live else n <= first
    ensures SparesAt(p, first, live, found, i, k)
  {
    hide *;
    var v := From(first, found, i);
    var s := StoreAt(p, v, k);
    StaysSafe(p, first, blocks, v, k);
    OffTheRegion(first, blocks, live, found, i, n, k);
    SafeTables(s, first, blocks, v + k);
    SparesAtIs(p, first, live, found, i, k, s);
  }

  lemma OffTheRegion(first: nat, blocks: nat, live: set<nat>, found: bool, i: nat, n: nat, k: nat)
    requires live <= Pages(0, blocks) && k < n
    requires if found then i + n <= blocks && Pages(i, n) !! live else n <= first
    ensures var q, pages := From(first, found, i) + k, PagesOf(first, live + Added(found, i, k));
            q !in pages && pages <= Pages(first, blocks) && q < first + blocks
  {}

  /** What the loops leave as it was there. */
  ghost predicate Safer(z: Sys, a: Sys, first: nat, blocks: nat, found: bool, i: nat, k: nat) {
    Safe(z, first, blocks) && (found || k <= first) ==>
      && Safe(a, first, blocks) && Unmoved(z, a, first, Pages(0, blocks) - Added(found, i, k))
      && (found && k > 0 ==> Least(FrameOf(a, first, i), z.free))
  }

  lemma SaferNone(z: Sys, first: nat, blocks: nat, found: bool, i: nat)
    ensures Safer(z, z, first, blocks, found, i, 0)
  {
    hide FrameOf;
  }

  lemma SafeStep(a: Sys, b: Sys, first: nat, blocks: nat, q: nat, flags: nat)
    requires Valid(a) && PageTaken(a, b, q, flags) && flags < PAGE_SIZE && q < first + blocks <= PAGES && 0 < first
    requires Safe(a, first, blocks)
    ensures a.free != {} && Safe(b, first, blocks)
    ensures forall j: nat {:trigger FrameOf(b, first, j)} :: j < blocks ==>
              FrameOf(b, first, j) == if first + j == q then NextFree(a.free) else FrameOf(a, first, j)
  {
    hide *;
    SafeParts(a, first, blocks);
    TakenSteps(a, b, q, flags, first);
    SafeTables(StoreOf(a), first, blocks, q);
    RegionSteps(a, b, first, blocks, q, NextFree(a.free), TablesOf(StoreOf(a), q));
    if Apart(a, first, blocks) {
      StillApart(a, b, first, blocks, q);
    } else {
      StillTabled(a, b, first, blocks);
    }
    SafeParts(b, first, blocks);
  }

  lemma SafeParts(a: Sys, first: nat, blocks: nat)
    ensures Safe(a, first, blocks) <==> Apart(a, first, blocks) || Tabled(StoreOf(a), first, blocks)
    ensures Safe(a, first, blocks) ==> SafeStore(StoreOf(a), first, blocks)
  {
    hide Tabled, FrameOf;
  }

  lemma StillTabled(a: Sys, b: Sys, first: nat, blocks: nat)
    requires Tabled(StoreOf(a), first, blocks) && a.tree.Keys <= b.tree.Keys
    ensures Tabled(StoreOf(b), first, blocks)
  {
    hide Path;
  }

  lemma RegionSteps(a: Sys, b: Sys, first: nat, blocks: nat, q: nat, f: nat, t: set<nat>)
    requires Steps(a, b, first, q, f, t) && first + blocks <= PAGES && 0 < first && t !! Pages(first, blocks)
    ensures b.free <= a.free
    ensures forall j: nat {:trigger FrameOf(b, first, j)} :: j < blocks ==>
              FrameOf(b, first, j) == if first + j == q then f else FrameOf(a, first, j)
  {
    hide FrameOf, Tables;
    forall j: nat | j < blocks
      ensures FrameOf(b, first, j) == if first + j == q then f else FrameOf(a, first, j)
    {
      assert first + j in Pages(first, blocks);
    }
  }

  lemma StillApart(a: Sys, b: Sys, first: nat, blocks: nat, q: nat)
    requires Apart(a, first, blocks) && b.free <= a.free && a.free != {}
    requires forall j: nat {:trigger FrameOf(b, first, j)} :: j < blocks ==>
               FrameOf(b, first, j) == if first + j == q then NextFree(a.free) else FrameOf(a, first, j)
    ensures Apart(b, first, blocks)
  {
    hide FrameOf;
    assert NextFree(a.free) in a.free;
  }

  lemma SaferMore(z: Sys, a: Sys, b: Sys, first: nat, blocks: nat, found: bool, i: nat, k: nat, flags: nat)
    requires Valid(a) && PageTaken(a, b, From(first, found, i) + k, flags) && flags < PAGE_SIZE
    requires 0 < first && first + blocks <= PAGES && (found ==> i + k < blocks)
    requires (k == 0 ==> a.free == z.free) && Safer(z, a, first, blocks, found, i, k)
    ensures Safer(z, b, first, blocks, found, i, k + 1)
  {
    hide Valid, PageTaken, Safe, FrameOf;
    if Safe(z, first, blocks) && (found || k + 1 <= first) {
      SafeStep(a, b, first, blocks, From(first, found, i) + k, flags);
      assert Added(found, i, k + 1) == Added(found, i, k) + if found then {i + k} else {};
    }
  }

  datatype VmmLevel = Supervisor | User

  class AddressSpace {
    const kmem: Kmem
    const bm: Bitmap
    const p4: nat
    const flags: nat
    ghost var tree: Tree

    /** The region starts in the higher half for the kernel, at the first page for a thread. */
    constructor (kmem: Kmem, bm: Bitmap, p4: nat, level: VmmLevel, ghost tree: Tree)
      requires bm.base == if level == Supervisor then 0xFFFF_8000_0000_0000 else 4096
      ensures this.kmem == kmem && this.bm == bm && this.p4 == p4 && this.tree == tree
      ensures flags == if level == Supervisor then 3 else 7
    {
      this.kmem := kmem;
      this.bm := bm;
      this.p4 := p4;
      this.tree := tree;
      flags := if level == Supervisor then KERNEL_PT_ENTRY else USER_PT_ENTRY;
    }

    ghost function Now(): Sys
      reads this, kmem
    {
      kmem.System(tree)
    }

    /** The page number of the region's first block. */
    function First(): nat { Page(bm.base) }

    /** The page tables are in order. */
    ghost predicate Mapped()
      reads this, kmem, kmem.bitmap
    {
      kmem.Valid() && kmem.Space(p4, tree) && p4 % PAGE_SIZE == 0 && flags < PAGE_SIZE
    }

    /** alloc_frame() as the first argument of map_addr. */
    method AllocAndMap(virtual: nat, ghost u: set<Slot>, ghost n: nat)
      requires Mapped() && virtual < TWO_64 && EnoughFor(Now(), u, n + 1)
      requires virtual != 0 ==> Path(Page(virtual)) <= u && Page(virtual) != 0
      modifies `tree, kmem`mem, kmem`free, kmem.bitmap
      ensures Mapped() && PageTaken(old(Now()), Now(), Page(virtual), flags)
    {
      hide Extends, Path, Paths, Page, Or, AlignAddr, PageTree.Valid, Kmem.Valid, EnoughFor, Enough;
      hide Draws, Supplied, PageTaken;
      ghost var a, q := Now(), Page(virtual);
      ghost var depth;
      EnoughNonempty(a, u, n + 1);
      var frame := kmem.AllocFrame();
      ghost var f, b := frame / PAGE_SIZE, Now();
      SetAside(a, b, f, u, n);
      AlignAddrIs(frame);
      EntryIs(frame, flags);
      if virtual != 0 { EnoughSupplies(b, Path(q), u); }
      tree, depth := kmem.MapAddr(frame, virtual, flags, p4, tree);
      PageZero(virtual);
      MakeTaken(a, b, Now(), q, f, flags);
    }

    lemma PageZero(virtual: nat)
      ensures virtual == 0 ==> Page(virtual) == 0
    {}

    lemma MappedFirst()
      requires Mapped()
      ensures First() < PAGES && PageTree.Valid(Now()) && Now().limit == kmem.memPages <= PAGES
      ensures Now().link == USER_PT_ENTRY
      ensures kmem.Valid() && Walks(Now(), p4) && p4 % PAGE_SIZE == 0 && flags < PAGE_SIZE
    {
      hide Linked;
    }

    /** The loop of valloc and init_vmm: n fresh pages mapped from an address, behind the blocks from
        block i; from address 0, the NULL of a failed bm_alloc, they go wherever that leads. */
    method MapFresh(addr: nat, n: nat, ghost i: nat, ghost live: set<nat>, ghost blocks: nat,
                    ghost u: set<Slot>, ghost m: nat)
      requires Mapped() && Backed(Now(), First(), live) && EnoughFor(Now(), u, n + m)
      requires 0 < First() && First() + blocks <= PAGES && n <= PAGES
      requires if addr == 0 then Paths(Pages(0, n)) <= u else RangeIs(addr, n, i, First(), live, blocks, u)
      modifies `tree, kmem`mem, kmem`free, kmem.bitmap
      ensures Mapped() && EnoughFor(Now(), u, m)
      ensures TookPages(old(Now()), Now(), First(), live, addr != 0, i, n)
      ensures Safer(old(Now()), Now(), First(), blocks, addr != 0, i, n)
      ensures Wrote(old(Now()), Now(), First(), live, addr != 0, i, n, flags)
    {
      hide *;
      PageSize();
      ghost var z := Now();
      MappedFirst();
      WroteNone(z, First(), live, addr != 0, i, flags);
      TookNone(z, First(), live, addr != 0, i);
      SaferNone(z, First(), blocks, addr != 0, i);
      InPages(z, First(), live);
      for k := 0 to n
        invariant Mapped() && EnoughFor(Now(), u, n - k + m)
        invariant TookPages(z, Now(), First(), live, addr != 0, i, k)
        invariant Safer(z, Now(), First(), blocks, addr != 0, i, k)
        invariant Wrote(z, Now(), First(), live, addr != 0, i, k, flags)
      {
        var virtual := (addr + k * PAGE_SIZE) % TWO_64;
        AddressStep(addr, n, i, k, First(), virtual, live, blocks, u);
        FreshPage(virtual, z, live, blocks, addr != 0, i, k, u, n - k - 1 + m);
      }
    }

    /** Page k of the loop. */
    method FreshPage(virtual: nat, ghost z: Sys, ghost live: set<nat>, ghost blocks: nat, ghost found: bool,
                     ghost i: nat, ghost k: nat, ghost u: set<Slot>, ghost m: nat)
      requires Mapped() && EnoughFor(Now(), u, m + 1) && virtual < TWO_64
      requires Page(virtual) == From(First(), found, i) + k && (virtual != 0 ==> Page(virtual) != 0)
      requires Page(virtual) != 0 ==> Path(Page(virtual)) <= u
      requires StepFits(First(), live, found, i, k) && (found ==> i + k < blocks)
      requires 0 < First() && First() + blocks <= PAGES
      requires TookPages(z, Now(), First(), live, found, i, k) && Safer(z, Now(), First(), blocks, found, i, k)
      requires Wrote(z, Now(), First(), live, found, i, k, flags)
      modifies `tree, kmem`mem, kmem`free, kmem.bitmap
      ensures Mapped() && EnoughFor(Now(), u, m)
      ensures TookPages(z, Now(), First(), live, found, i, k + 1) && Safer(z, Now(), First(), blocks, found, i, k + 1)
      ensures Wrote(z, Now(), First(), live, found, i, k + 1, flags)
    {
      hide *;
      ghost var a := Now();
      MappedFirst();
      TookFree(z, a, First(), live, found, i, k);
      AllocAndMap(virtual, u, m);
      TookMore(z, a, Now(), First(), live, found, i, k, flags, u, m);
      SaferMore(z, a, Now(), First(), blocks, found, i, k, flags);
      WroteMore(z, a, Now(), First(), live, found, i, k, flags);
    }

    /** The region of the block allocator, with the repaired ids and page-sized blocks. */
    ghost predicate Region()
      reads bm, bm.bm
    {
      && bm.Sized() && bm.Valid() && bm.version == Repaired && bm.bsize == PAGE_SIZE
      && 0 < bm.base && bm.base % PAGE_SIZE == 0 && 0 < First() && First() + bm.Blocks() <= PAGES
    }

    /** The tables and the region's ids are in order, whatever lies behind the pages. */
    ghost predicate Usable()
      reads this, kmem, kmem.bitmap, bm, bm.bm
    {
      && Mapped() && Region() && (kmem.bitmap as object) != bm.bm
      && Tame(Now(), First(), bm.Blocks())
    }

    /** The invariant of every run: besides, every allocated block is backed by a frame of its own, through
        an entry with the region's flags. */
    ghost predicate Valid()
      reads this, kmem, kmem.bitmap, bm, bm.bm
    {
      Usable() && Backed(Now(), First(), Live(bm.Ids())) && Tagged(Now(), First(), Live(bm.Ids()), flags)
    }

    /** No table that a call adds can take the place of a page of the region. */
    ghost predicate Secure()
      reads this, kmem, bm`size, bm`bsize
      requires bm.bsize > 0
    {
      Safe(Now(), First(), bm.Blocks())
    }

    /** u holds the paths of every frame's page and of every page of the region. */
    ghost predicate Universe(u: set<Slot>)
      reads bm`size, bm`bsize
      requires bm.bsize > 0
    {
      Paths(Pages(0, kmem.memPages)) <= u && Paths(Pages(First(), bm.Blocks())) <= u
    }

    /** bm_alloc for valloc; NULL is address 0. */
    method ReserveRange(pages: nat, ghost u: set<Slot>) returns (addr: nat, ghost i: nat)
      requires Region() && Universe(u) && 0 < pages <= kmem.memPages <= PAGES
      modifies bm`used, bm`ffa, bm.bm
      ensures Region()
      ensures addr == 0 ==> NoFit(old(bm.Ids()), pages) && bm.Ids() == old(bm.Ids())
      ensures i == FirstFit(old(bm.Ids()), pages, 0) && (addr == 0 <==> i == |old(bm.Ids())|)
      ensures addr != 0 ==> RangeAdded(old(bm.Ids()), bm.Ids(), i, pages) && addr == bm.Address(i)
      ensures bm.Ids() == AfterAlloc(old(bm.Ids()), pages)
      ensures addr != 0 ==>
                && Page(addr) == First() + i && First() + i + pages <= PAGES && addr + pages * PAGE_SIZE <= TWO_64
                && Paths(Pages(First() + i, pages)) <= u
    {
      hide Paths, Page, Ranges, NoFit, Fits, Paint, DivCeil, ChosenId, Bitmap.Valid, Bitmap.Blocks, Bitmap.Address, Live;
      DivCeilPages(pages);
      ghost var ids, c := bm.Ids(), 0 as bv8;
      var p;
      p, i, c := bm.BmAlloc(pages * PAGE_SIZE);
      addr := 0;
      if p != None {
        addr := p.value;
        LiveGrows(ids, i, pages, c);
        BlockAddress(i, pages, u);
        AllocIs(ids, pages, i);
      } else {
        NoAlloc(ids, pages);
        i := |ids|;
      }
      FirstFitIs(ids, pages, i);
    }

    /** Reserves a range of pages and backs it.  When no range fits, the source still takes the frames
        and maps them from address 0 on. */
    method AllocRange(pages: nat, ghost u: set<Slot>, ghost m: nat) returns (addr: nat, ghost i: nat)
      requires Valid() && Universe(u) && 0 < pages && EnoughFor(Now(), u, pages + m)
      modifies this`tree, kmem`mem, kmem`free, kmem.bitmap, bm`used, bm`ffa, bm.bm
      ensures Usable() && EnoughFor(Now(), u, m)
      ensures Valid() && Unmoved(old(Now()), Now(), First(), old(Live(bm.Ids())))
              <==> old(Harmless(Now(), bm.Ids(), First(), pages))
      ensures Valloced(old(Now()), Now(), old(bm.Ids()), bm.Ids(), First(), addr, i, pages)
      ensures addr != 0 ==> addr == bm.Address(i)
      ensures Wrote(old(Now()), Now(), First(), old(Live(bm.Ids())), addr != 0, i, pages, flags)
      ensures i == FirstFit(old(bm.Ids()), pages, 0)
    {
      hide *;
      ValidIs();
      MappedFirst();
      ghost var a, ids, live := Now(), bm.Ids(), Live(bm.Ids());
      FewPages(u, pages, m);
      RegionIs();
      addr, i := ReserveRange(pages, u);
      RegionIs();
      RangeAddedLive(ids, bm.Ids(), i, pages);
      if addr != 0 { RangeReserved(addr, pages, i, First(), live, |ids|, u); }
      MapFresh(addr, pages, i, live, |ids|, u, m);
      MappedFirst();
      RegionIs();
      TookTame(a, Now(), First(), live, addr != 0, i, pages, bm.Blocks());
      VallocedIs(a, Now(), ids, bm.Ids(), First(), addr, i, pages);
      VallocKept(a, Now(), ids, bm.Ids(), First(), addr, i, pages);
      VallocTagged(a, Now(), ids, bm.Ids(), First(), addr, i, pages, flags);
      ValidWhen();
    }

    lemma ValidIs()
      requires Valid()
      ensures Usable() && Mapped() && Region() && (kmem.bitmap as object) != bm.bm && bm.Sized() && 0 < bm.bsize
      ensures Backed(Now(), First(), Live(bm.Ids())) && Tame(Now(), First(), bm.Blocks())
      ensures Tagged(Now(), First(), Live(bm.Ids()), flags)
      ensures Now().limit == kmem.memPages && 0 < First()
    {
      hide Mapped, Bitmap.Valid, Backed, Tame, Live, Tagged;
    }

    lemma ValidWhen()
      requires Mapped() && Region() && (kmem.bitmap as object) != bm.bm && Tame(Now(), First(), bm.Blocks())
      ensures Usable()
      ensures Valid() <==> Backed(Now(), First(), Live(bm.Ids())) && Tagged(Now(), First(), Live(bm.Ids()), flags)
    {
      hide Mapped, Region, Backed, Tame, Live, Tagged;
    }

    lemma RegionIs()
      requires Region()
      ensures bm.Sized() && 0 < bm.bsize == PAGE_SIZE && First() + bm.Blocks() <= PAGES && |bm.Ids()| == bm.Blocks()
      ensures 0 < First()
    {
      hide Bitmap.Valid;
    }

    /** Everything stays as it should exactly when the call is harmless, which the state before decides. */
    method Valloc(pages: nat, ghost u: set<Slot>, ghost m: nat) returns (addr: nat, ghost i: nat)
      requires Valid() && Universe(u) && EnoughFor(Now(), u, pages + m)
      modifies this`tree, kmem`mem, kmem`free, kmem.bitmap, bm`used, bm`ffa, bm.bm
      ensures Usable() && EnoughFor(Now(), u, m)
      ensures Valid() && Unmoved(old(Now()), Now(), First(), old(Live(bm.Ids())))
              <==> old(Harmless(Now(), bm.Ids(), First(), pages))
      ensures pages == 0 ==> addr == 0 && Now() == old(Now()) && bm.Ids() == old(bm.Ids())
      ensures pages > 0 ==> Valloced(old(Now()), Now(), old(bm.Ids()), bm.Ids(), First(), addr, i, pages)
      ensures pages > 0 ==> Wrote(old(Now()), Now(), First(), old(Live(bm.Ids())), addr != 0, i, pages, flags)
      ensures pages > 0 ==> i == FirstFit(old(bm.Ids()), pages, 0)
      ensures addr != 0 ==> addr == bm.Address(i)
    {
      hide *;
      addr, i := 0, 0;
      if pages != 0 {
        addr, i := AllocRange(pages, u, m);
      } else {
        ValidIs();
        NothingAsked(Now(), bm.Ids(), First());
      }
    }

    /** Valloc in a secure region when a range fits. */
    method VallocFits(pages: nat, ghost u: set<Slot>, ghost m: nat) returns (addr: nat, ghost i: nat)
      requires Valid() && Secure() && Universe(u) && EnoughFor(Now(), u, pages + m)
      requires 0 < pages && !NoFit(bm.Ids(), pages)
      modifies this`tree, kmem`mem, kmem`free, kmem.bitmap, bm`used, bm`ffa, bm.bm
      ensures Valid() && Secure() && EnoughFor(Now(), u, m) && addr == bm.Address(i) > 0
      ensures i == FirstFit(old(bm.Ids()), pages, 0) && bm.Ids() == AfterAlloc(old(bm.Ids()), pages)
      ensures Live(bm.Ids()) == old(Live(bm.Ids())) + Pages(i, pages) && i + pages <= bm.Blocks()
      ensures Gave(old(Now()), Now(), First(), old(Live(bm.Ids())), Pages(i, pages))
    {
      hide *;
      ValidIs();
      RegionIs();
      SecureIs();
      ghost var a, ids := Now(), bm.Ids();
      SafeHarmless(a, ids, First(), pages);
      addr, i := Valloc(pages, u, m);
      ValidIs();
      RegionIs();
      VallocedFits(a, Now(), ids, bm.Ids(), First(), addr, i, pages);
      TookGave(a, Now(), First(), Live(ids), i, pages, flags);
      SecureIs();
    }

    /** pmm_clear_bit(translate_addr(virtual, p4)), for a page that names frame f, or none. */
    method FreePage(virtual: nat, ghost f: nat)
      requires kmem.Valid() && Walks(Now(), p4) && virtual < TWO_64 && f < kmem.memPages
      requires Translation(Now(), Page(virtual)) == f * PAGE_SIZE
      modifies kmem`free, kmem.bitmap
      ensures kmem.Valid() && Now() == old(Now()).(free := old(Now()).free + ({f} - {0}))
    {
      hide Page, Kmem.Valid, PageTree.Valid, Translation;
      WalksIs();
      kmem.RowsHold();
      var physical := kmem.TranslateAddr(virtual, p4, tree);
      kmem.PmmClearBit(physical);
      assert physical / PAGE_SIZE == f;
    }

    lemma WalksIs()
      requires Walks(Now(), p4)
      ensures p4 != 0 && kmem.Walkable(p4, tree)
    {
      hide Linked;
    }

    /** The loop of vfree: the frames named by n pages from block s on go back to the free set, whoever
        uses them. */
    method FreePages(addr: nat, n: nat, ghost s: nat, ghost blocks: nat)
      requires kmem.Valid() && Walks(Now(), p4) && Now().limit == kmem.memPages
      requires Tame(Now(), First(), blocks) && s + n <= blocks && First() + blocks <= PAGES
      requires Page(addr) == First() + s && addr + n * PAGE_SIZE < TWO_64 + PAGE_SIZE
      modifies kmem`free, kmem.bitmap
      ensures kmem.Valid() && Now() == Returned(old(Now()), First(), Pages(s, n))
    {
      hide *;
      ghost var a := Now();
      NoneReturned(a, First(), s);
      for k := 0 to n
        invariant kmem.Valid() && Now() == Returned(a, First(), Pages(s, k))
      {
        var virtual := (addr + k * PAGE_SIZE) % TWO_64;
        VirtualPage(addr, k, n, First() + s, virtual);
        OneReturned(a, Now(), First(), blocks, s, k, p4);
        FreePage(virtual, FrameOf(a, First(), s + k));
      }
    }

    /** Gives back what the pages of a run of blocks name.  From an allocated block that is the rest of
        its range.  From a free block it is whatever the stale entries of the free blocks name: the
        invariant is kept exactly when those frames are neither page tables nor behind live pages. */
    method Vfree(addr: nat) returns (ghost n: nat)
      requires Valid()
      modifies kmem`free, kmem.bitmap, bm`used, bm`ffa, bm.bm
      ensures Valid() <==> old(bm.InBlocks(addr) ==> Keeps(Now(), First(), bm.Ids(), bm.BlockOf(addr)))
      ensures kmem.Valid() && Region()
      ensures !bm.InBlocks(addr) ==> Now() == old(Now()) && bm.Ids() == old(bm.Ids())
      ensures bm.InBlocks(addr) ==>
                Vfreed(old(Now()), Now(), old(bm.Ids()), bm.Ids(), First(), bm.BlockOf(addr), n)
    {
      hide *;
      ValidIs();
      MappedFirst();
      HitsIs(addr);
      ghost var a, s, ids := Now(), 0, bm.Ids();
      if bm.InBlocks(addr) {
        s := bm.BlockOf(addr);
        FreeRun(addr);
      }
      n := VfreeBody(addr, s);
      RegionIs();
      if bm.InBlocks(addr) {
        VfreeKeeps(a, Now(), First(), ids, bm.Ids(), s, n, bm.Blocks());
        StillWalks(a, Now(), First(), Pages(s, n), p4);
        VfreedIs(a, Now(), First(), ids, bm.Ids(), s, n);
        TaggedFreed(a, Now(), First(), ids, bm.Ids(), s, n, flags);
      }
      FreedValid();
    }

    /** The body of vfree: bm_free, then the loop. */
    method VfreeBody(addr: nat, ghost s: nat) returns (ghost n: nat)
      requires kmem.Valid() && Region() && Walks(Now(), p4) && Tame(Now(), First(), bm.Blocks())
      requires Now().limit == kmem.memPages && (kmem.bitmap as object) != bm.bm
      requires bm.InBlocks(addr) ==> s == bm.BlockOf(addr) && RunFits(addr)
      modifies kmem`free, kmem.bitmap, bm`used, bm`ffa, bm.bm
      ensures kmem.Valid() && Region()
      ensures !bm.InBlocks(addr) ==> Now() == old(Now()) && bm.Ids() == old(bm.Ids())
      ensures bm.InBlocks(addr) ==>
                && s < |old(bm.Ids())| && n == RunLength(old(bm.Ids()), s) && bm.Ids() == AfterFree(old(bm.Ids()), s)
                && Now() == Returned(old(Now()), First(), Pages(s, n))
    {
      hide Page, Kmem.Valid, PageTree.Valid, Ranges, RunLength, Paint, Starts, Walks, Tame, Returned;
      hide Bitmap.Valid, Bitmap.Blocks, Bitmap.Meta, Bitmap.Ids, Bitmap.Address;
      ghost var blocks := bm.Blocks();
      NoneReturned(Now(), First(), s);
      var bytes;
      bytes, n := bm.BmFree(addr);
      var pages := bytes / PAGE_SIZE;
      if pages > 0 {
        FreePages(addr, pages, s, blocks);
      }
    }

    /** The addresses of the run that bm_free would clear from an address of the region. */
    ghost predicate RunFits(addr: nat)
      reads bm, bm.bm
      requires bm.Sized() && bm.InBlocks(addr)
    {
      var s := bm.BlockOf(addr);
      var n := RunLength(bm.Ids(), s);
      && Page(addr) == First() + s && First() + bm.Blocks() <= PAGES && s + n <= bm.Blocks()
      && addr + n * PAGE_SIZE < TWO_64 + PAGE_SIZE && bm.BytesOf(n) == n * PAGE_SIZE
    }

    /** Valid() is what is left to ask after a vfree. */
    lemma FreedValid()
      requires kmem.Valid() && Region() && (kmem.bitmap as object) != bm.bm && p4 % PAGE_SIZE == 0
      requires flags < PAGE_SIZE && Walks(Now(), p4)
      ensures Valid() <==>
                && PageTree.Valid(Now()) && Backed(Now(), First(), Live(bm.Ids())) && Tame(Now(), First(), bm.Blocks())
                && Tagged(Now(), First(), Live(bm.Ids()), flags)
    {
      hide Kmem.Valid, PageTree.Valid, Backed, Tame, Live, Bitmap.Valid, Tagged;
    }

    lemma FreeRun(addr: nat)
      requires Region() && bm.InBlocks(addr)
      ensures bm.Sized() && RunFits(addr) && bm.BlockOf(addr) < |bm.Ids()| == bm.Blocks()
    {
      hide Bitmap.Valid, RunLength;
      bm.Sizes();
      var s := bm.BlockOf(addr);
      var n := RunLength(bm.Ids(), s);
      PageOfBlock(bm.base, addr, s, n, bm.Blocks(), bm.size);
    }

    /** Fewer pages are asked for than there are frames, so their size does not wrap. */
    lemma FewPages(u: set<Slot>, pages: nat, m: nat)
      requires Valid() && Universe(u) && EnoughFor(Now(), u, pages + m)
      ensures pages <= kmem.memPages <= PAGES
      ensures Paths(Pages(0, pages)) <= u
    {
      hide Paths, DivCeil, Backed, Kmem.Valid, Bitmap.Valid, Bitmap.Ids, Live;
      FreeBelow(Now());
      PathsWithin(0, pages, 0, kmem.memPages);
    }

    /** The address of block i of the region is that of page First() + i. */
    lemma BlockAddress(i: nat, n: nat, u: set<Slot>)
      requires Region() && Universe(u) && i + n <= bm.Blocks() && n > 0
      ensures bm.Address(i) != 0 && Page(bm.Address(i)) == First() + i && First() + i + n <= PAGES
      ensures bm.Address(i) + n * PAGE_SIZE <= TWO_64 && Paths(Pages(First() + i, n)) <= u
    {
      hide Bitmap.Valid, Paths;
      bm.Sizes();
      assert bm.Address(i) == bm.base + i * PAGE_SIZE;
      RegionAddress(bm.base, i, n, bm.Blocks());
      PathsWithin(First() + i, n, First(), bm.Blocks());
    }

    /** The region's own ids, once its pages are mapped. */
    method MakeRegion(maxPages: nat)
      requires bm.version == Repaired && 0 < bm.base && bm.base % PAGE_SIZE == 0
      requires 0 < First() && First() + maxPages <= PAGES
      requires bm.bm.Length == maxPages * PAGE_SIZE && bm.base + maxPages * PAGE_SIZE < TWO_64
      modifies bm, bm.bm
      ensures Region() && bm.Blocks() == maxPages == |bm.Ids()| && bm.Meta() <= DivCeil(maxPages, PAGE_SIZE) <= maxPages
      ensures forall j: nat :: j < maxPages ==> bm.Ids()[j] == if j < bm.Meta() then 1 else 0
    {
      hide DivCeil, Bitmap.Valid, Page;
      IdPages(maxPages);
      bm.InitBitmap(maxPages * PAGE_SIZE, PAGE_SIZE);
    }

    /** The loop of init_vmm. */
    method InitPages(maxPages: nat, pages: nat, ghost u: set<Slot>, ghost m: nat)
      requires Mapped() && pages == DivCeil(maxPages, PAGE_SIZE)
      requires 0 < bm.base && 0 < First() && First() + maxPages <= PAGES && bm.base + maxPages * PAGE_SIZE < TWO_64
      requires Tame(Now(), First(), maxPages) && Paths(Pages(First(), maxPages)) <= u && EnoughFor(Now(), u, pages + m)
      modifies this`tree, kmem`mem, kmem`free, kmem.bitmap
      ensures Mapped() && Tame(Now(), First(), maxPages) && Stock(Now()) + pages == Stock(old(Now()))
      ensures EnoughFor(Now(), u, m) && Wrote(old(Now()), Now(), First(), {}, true, 0, pages, flags)
      ensures TookPages(old(Now()), Now(), First(), {}, true, 0, pages)
      ensures Backed(Now(), First(), Pages(0, pages)) ==> Tagged(Now(), First(), Pages(0, pages), flags)
      ensures Backed(Now(), First(), Pages(0, pages)) <==> old(AllSpared(StoreOf(Now()), First(), {}, true, 0, pages))
      ensures maxPages <= PAGE_SIZE ==> Backed(Now(), First(), Pages(0, pages))
      ensures old(Safe(Now(), First(), maxPages)) || First() + maxPages <= 512 ==>
                Backed(Now(), First(), Pages(0, pages)) && Safe(Now(), First(), maxPages)
    {
      hide *;
      PageSize();
      ghost var a := Now();
      MappedFirst();
      IdPages(maxPages);
      NothingBacked(a, First());
      FirstIs();
      WholeRange(bm.base, pages, First(), maxPages, u);
      MapFresh(bm.base, pages, 0, {}, maxPages, u, m);
      MappedFirst();
      TookTame(a, Now(), First(), {}, true, 0, pages, maxPages);
      IdsBacked(a, Now(), First(), pages);
      InitSafe(a, Now(), First(), maxPages, pages);
      InitTagged(a, Now(), First(), pages, flags);
    }

    /** Maps the pages that will hold the ids, then describes the region.  One page of ids, as a thread's
        region has, cannot get in its own way. */
    method InitVmm(maxPages: nat, ghost u: set<Slot>, ghost m: nat)
      requires Mapped() && bm.version == Repaired && (kmem.bitmap as object) != bm.bm
      requires 0 < bm.base && bm.base % PAGE_SIZE == 0 && 0 < First() && First() + maxPages <= PAGES
      requires bm.bm.Length == maxPages * PAGE_SIZE && bm.base + maxPages * PAGE_SIZE < TWO_64
      requires Tame(Now(), First(), maxPages) && Paths(Pages(First(), maxPages)) <= u
      requires EnoughFor(Now(), u, DivCeil(maxPages, PAGE_SIZE) + m)
      modifies this`tree, kmem`mem, kmem`free, kmem.bitmap, bm, bm.bm
      ensures Usable() && bm.Blocks() == maxPages && |bm.Ids()| == maxPages
      ensures forall j: nat :: j < maxPages ==> bm.Ids()[j] == if j < bm.Meta() then 1 else 0
      ensures Backed(Now(), First(), Pages(0, DivCeil(maxPages, PAGE_SIZE))) <==>
              old(AllSpared(StoreOf(Now()), First(), {}, true, 0, DivCeil(maxPages, PAGE_SIZE)))
      ensures Backed(Now(), First(), Pages(0, DivCeil(maxPages, PAGE_SIZE))) || maxPages <= PAGE_SIZE ==> Valid()
      ensures old(Safe(Now(), First(), maxPages)) || First() + maxPages <= 512 ==> Valid() && Secure()
      ensures Stock(Now()) + DivCeil(maxPages, PAGE_SIZE) == Stock(old(Now())) && EnoughFor(Now(), u, m)
      ensures TookPages(old(Now()), Now(), First(), {}, true, 0, DivCeil(maxPages, PAGE_SIZE))
      ensures Wrote(old(Now()), Now(), First(), {}, true, 0, DivCeil(maxPages, PAGE_SIZE), flags)
    {
      hide *;
      PageSize();
      var pages := DivCeil(maxPages, PAGE_SIZE);
      InitPages(maxPages, pages, u, m);
      MakeRegion(maxPages);
      InitDone(maxPages, pages);
    }

    lemma InitDone(maxPages: nat, pages: nat)
      requires Mapped() && Region() && (kmem.bitmap as object) != bm.bm && Tame(Now(), First(), maxPages)
      requires bm.Blocks() == maxPages == |bm.Ids()| && bm.Meta() <= pages
      requires forall j: nat :: j < maxPages ==> bm.Ids()[j] == if j < bm.Meta() then 1 else 0
      requires bm.Meta() <= maxPages
      requires Backed(Now(), First(), Pages(0, pages)) ==> Tagged(Now(), First(), Pages(0, pages), flags)
      ensures Usable() && (Backed(Now(), First(), Pages(0, pages)) ==> Valid())
      ensures bm.bsize > 0 && (Secure() <==> Safe(Now(), First(), maxPages))
    {
      hide *;
      RegionIs();
      ValidWhen();
      SecureIs();
      LiveAtStart(bm.Ids(), bm.Meta());
      PagesMore(bm.Meta(), pages);
      if Backed(Now(), First(), Pages(0, pages)) {
        BackedSubset(Now(), First(), Pages(0, pages), Pages(0, bm.Meta()));
        TaggedSubset(Now(), First(), Pages(0, pages), Pages(0, bm.Meta()), flags);
      }
    }

    lemma PageSize()
      ensures PAGE_SIZE == 4096 && TWO_64 > 0
    {}

    lemma FirstIs()
      ensures First() == Page(bm.base)
    {}

    /** Where the processor finds the pages of allocated blocks: each at its own frame, to write; those of a
        thread's region for user code too. */
    lemma PagesReached(j: nat)
      requires Valid() && j in Live(bm.Ids())
      ensures flags == 3 && Mmu.Writing(Now()) ==>
                Mmu.Walk(kmem.mem, p4 / 4096, First() + j) == Mmu.Access(FrameOf(Now(), First(), j), true, false)
      ensures flags == 7 && Mmu.Linking(Now(), true) ==>
                Mmu.Walk(kmem.mem, p4 / 4096, First() + j) == Mmu.Access(FrameOf(Now(), First(), j), true, true)
    {
      hide *;
      ValidIs();
      MappedFirst();
      RootIs();
      InPages(Now(), First(), Live(bm.Ids()));
      TaggedAt(Now(), First(), Live(bm.Ids()), flags, j);
      if flags == 3 || flags == 7 { EntryBits(FrameOf(Now(), First(), j), flags); }
      FrameSmall(Now(), First(), Live(bm.Ids()), j);
      if Mmu.Writing(Now()) { Mmu.WalkMixed(Now(), First() + j); }
      if Mmu.Linking(Now(), true) { Mmu.WalkIs(Now(), First() + j, true); }
      GrantsIs(LeafOf(Now(), First(), j), true);
      LeafOfIs(Now(), First(), j);
    }

    lemma RootIs()
      requires Mapped()
      ensures ROOT in Now().tree && p4 / 4096 == Now().tree[ROOT] && Now().mem == kmem.mem
    {
      hide PageTree.Valid, Kmem.Valid;
    }

    /** Frames accounted for: in the stock, or behind an allocated block. */
    ghost function Account(): nat
      reads this, kmem, bm, bm.bm
      requires bm.Sized()
    {
      Stock(Now()) + |Live(bm.Ids())|
    }

    /** Where the region lies, for reading addresses. */
    ghost function Where(): Extent
      reads bm`size, bm`bsize
      requires bm.Sized()
    {
      Extent(bm.base, bm.Meta())
    }

    lemma HitsIs(addr: nat)
      requires Region()
      ensures bm.Sized() && (bm.InBlocks(addr) <==> Hits(Where(), |bm.Ids()|, addr))
      ensures bm.InBlocks(addr) ==> bm.base <= addr && bm.BlockOf(addr) == BlockAt(Where(), addr) < |bm.Ids()|
    {
      hide Bitmap.Valid;
      bm.Sizes();
    }

    method StepAlloc(pages: nat, ghost u: set<Slot>, ghost m: nat)
      requires Valid() && Secure() && Universe(u) && EnoughFor(Now(), u, pages + m)
      requires NoFit(bm.Ids(), pages) ==> pages <= First()
      modifies this`tree, kmem`mem, kmem`free, kmem.bitmap, bm`used, bm`ffa, bm.bm
      ensures Valid() && Secure() && EnoughFor(Now(), u, m)
      ensures Account() + LostBy(old(bm.Ids()), Alloc(pages)) == old(Account())
      ensures bm.Ids() == Next(Where(), old(bm.Ids()), Alloc(pages))
      ensures |Live(bm.Ids())| + LostBy(old(bm.Ids()), Alloc(pages)) == |old(Live(bm.Ids()))| + pages
      ensures Unmoved(old(Now()), Now(), First(), old(Live(bm.Ids()))) && LinksStay(old(Now()), Now())
    {
      hide *;
      ValidIs();
      AccountIs();
      SecureIs();
      RegionIs();
      MappedFirst();
      ghost var a, ids, i := Now(), bm.Ids(), 0;
      LinksSelf(a);
      NextAlloc(Where(), ids, pages);
      SafeHarmless(a, ids, First(), pages);
      var addr;
      addr, i := Valloc(pages, u, m);
      ValidIs();
      AccountIs();
      RegionIs();
      if pages > 0 {
        AllocAccount(a, Now(), ids, bm.Ids(), First(), addr, i, pages);
        AllocSafe(a, Now(), ids, bm.Ids(), First(), addr, i, pages);
        WroteIs(a, Now(), First(), Live(ids), addr != 0, i, pages, flags);
      } else {
        AllocNothing(a, ids, First());
      }
      SecureIs();
    }

    lemma SecureIs()
      requires bm.bsize > 0
      ensures Secure() <==> Safe(Now(), First(), bm.Blocks())
    {}

    lemma AccountIs()
      requires Valid()
      ensures bm.Sized() && Account() == Stock(Now()) + |Live(bm.Ids())|
    {
      hide Stock, Live, Mapped, Backed, Tame, Bitmap.Valid;
    }

    lemma UniverseIs(u: set<Slot>)
      requires bm.bsize > 0 && Universe(u)
      ensures Paths(Pages(0, kmem.memPages)) <= u
    {}

    /** addr lies in an allocated block, or outside the region. */
    method StepFree(addr: nat, ghost u: set<Slot>, ghost m: nat)
      requires Valid() && Secure() && Universe(u) && EnoughFor(Now(), u, m)
      requires MayFree(Where(), bm.Ids(), addr)
      modifies kmem`free, kmem.bitmap, bm`used, bm`ffa, bm.bm
      ensures Valid() && Secure() && |Live(bm.Ids())| <= |old(Live(bm.Ids()))|
      ensures EnoughFor(Now(), u, m + (|old(Live(bm.Ids()))| - |Live(bm.Ids())|))
      ensures Account() == old(Account()) && bm.Ids() == Next(Where(), old(bm.Ids()), Free(addr))
      ensures Unmoved(old(Now()), Now(), First(), old(Live(bm.Ids()))) && LinksStay(old(Now()), Now())
    {
      hide *;
      ValidIs();
      AccountIs();
      MappedFirst();
      HitsIs(addr);
      SecureIs();
      RegionIs();
      ghost var a, ids, x := Now(), bm.Ids(), Where();
      FreedTogether(x, ids, addr);
      if bm.InBlocks(addr) { AllocatedKeeps(a, First(), ids, bm.BlockOf(addr)); }
      ghost var n := Vfree(addr);
      ValidIs();
      AccountIs();
      UnmovedSelf(a, First(), Live(ids));
      LinksSelf(a);
      RegionIs();
      if bm.InBlocks(addr) {
        UniverseIs(u);
        FreeAccount(a, Now(), ids, bm.Ids(), First(), bm.BlockOf(addr), n, u, m);
        FreeMoves(a, Now(), ids, bm.Ids(), First(), bm.BlockOf(addr), n, Live(ids));
        FreeSafe(a, Now(), ids, bm.Ids(), First(), bm.BlockOf(addr), n);
        FreeLinks(a, Now(), ids, bm.Ids(), First(), bm.BlockOf(addr), n);
      }
      SecureIs();
    }

    /** Every orderly run of valloc and vfree calls: at every moment each allocated page is backed by a
        frame of its own, pages keep their frames through calls that do not allocate them, the ids go
        through the specified states, and the frames are all accounted for, but for those that
        allocations without a fitting range lost. */
    method Run(calls: seq<Call>, ghost u: set<Slot>, ghost m: nat) returns (ghost states: seq<Sys>)
      requires Valid() && Secure() && Universe(u) && EnoughFor(Now(), u, m) && Orderly(Where(), bm.Ids(), calls, m)
      modifies this`tree, kmem`mem, kmem`free, kmem.bitmap, bm`used, bm`ffa, bm.bm
      ensures Valid() && Secure() && bm.Ids() == IdsAt(old(Where()), old(bm.Ids()), calls, |calls|)
      ensures Followed(old(Where()), old(bm.Ids()), calls, |calls|, states, First()) && |states| == |calls| + 1
      ensures states[0] == old(Now()) && states[|calls|] == Now()
      ensures Account() + LostAt(old(Where()), old(bm.Ids()), calls, |calls|) == old(Account())
      ensures SpareAt(old(Where()), old(bm.Ids()), calls, |calls|, m) >= 0
      ensures EnoughFor(Now(), u, SpareAt(old(Where()), old(bm.Ids()), calls, |calls|, m))
      ensures LinksStay(old(Now()), Now())
    {
      hide *;
      ValidIs();
      ghost var x, ids := Where(), bm.Ids();
      states := [Now()];
      RunStarts(x, ids, calls, Now(), First(), m);
      WhereFirst();
      MappedFirst();
      LinksSelf(Now());
      for k := 0 to |calls|
        invariant Valid() && Secure() && Universe(u) && Where() == x && bm.Ids() == IdsAt(x, ids, calls, k)
        invariant |states| == k + 1 && states[0] == old(Now()) && states[k] == Now()
        invariant Followed(x, ids, calls, k, states, First()) && LinksStay(old(Now()), Now())
        invariant Account() + LostAt(x, ids, calls, k) == old(Account())
        invariant SpareAt(x, ids, calls, k, m) >= 0 && EnoughFor(Now(), u, SpareAt(x, ids, calls, k, m))
      {
        OrderlyAt(x, ids, calls, k, m);
        ghost var before := Now();
        match calls[k] {
          case Alloc(pages) => StepAlloc(pages, u, SpareAt(x, ids, calls, k, m) - pages);
          case Free(addr) => StepFree(addr, u, SpareAt(x, ids, calls, k, m));
        }
        ValidIs();
        NothingLost(IdsAt(x, ids, calls, k), calls[k]);
        RunStep(x, ids, calls, k, m, states, before, Now(), First());
        LinksStayTrans(old(Now()), before, Now());
        states := states + [Now()];
      }
    }

    lemma WhereFirst()
      requires bm.Sized()
      ensures Page(Where().base) == First()
    {}

    /** The first two allocations of the run below. */
    method DoubleStart(ghost u: set<Slot>) returns (a: nat, b: nat, ghost s1: Sys)
      requires Valid() && Secure() && Universe(u) && EnoughFor(Now(), u, 4) && bm.Ids() == DOUBLE_0
      modifies this`tree, kmem`mem, kmem`free, kmem.bitmap, bm`used, bm`ffa, bm.bm
      ensures Valid() && Secure() && EnoughFor(Now(), u, 2) && bm.Ids() == DOUBLE_2
      ensures a == bm.Address(1) && a != 0 && b != 0
      ensures |bm.Ids()| == 8 && bm.Ids()[1] != 0 && Safe(s1, First(), 8)
      ensures Valloced(old(Now()), s1, DOUBLE_0, DOUBLE_1, First(), a, 1, 1)
      ensures Valloced(s1, Now(), DOUBLE_1, DOUBLE_2, First(), b, 2, 1)
    {
      hide *;
      ghost var i, j, s0 := 0, 0, Now();
      ValidIs();
      MappedFirst();
      RegionIs();
      SecureIs();
      DoubleAlloc1();
      SafeHarmless(s0, bm.Ids(), First(), 1);
      a, i := Valloc(1, u, 3);
      s1 := Now();
      ValidIs();
      RegionIs();
      Double1(s0, s1, bm.Ids(), First(), a, i);
      AllocSafe(s0, s1, DOUBLE_0, bm.Ids(), First(), a, i, 1);
      DoubleAlloc2();
      SafeHarmless(s1, bm.Ids(), First(), 1);
      b, j := Valloc(1, u, 2);
      ValidIs();
      RegionIs();
      Double2(s1, Now(), bm.Ids(), First(), b, j);
      AllocSafe(s1, Now(), DOUBLE_1, bm.Ids(), First(), b, j, 1);
      SecureIs();
    }

    /** A range freed twice: valloc(1), valloc(1), vfree of the first, valloc(2), vfree of the first again
        in a fresh region.  The third allocation gets the freed frame at another page, and the second
        vfree frees it under that page through the entry left behind: the invariant is gone. */
    method DoubleFree(ghost u: set<Slot>)
      requires Valid() && Secure() && Universe(u) && EnoughFor(Now(), u, 4)
      requires bm.Ids() == DOUBLE_0 && bm.Meta() == 1
      modifies this`tree, kmem`mem, kmem`free, kmem.bitmap, bm`used, bm`ffa, bm.bm
      ensures !Valid()
    {
      hide *;
      ValidIs();
      MappedFirst();
      RegionIs();
      SecureIs();
      ghost var s0, first := Now(), First();
      var a, b, s1 := DoubleStart(u);
      ghost var s2, n, k := Now(), 0, 0;
      ValidIs();
      MappedFirst();
      RegionIs();
      SecureIs();
      Eight();
      UniverseIs(u);
      AtBlock(1, a);
      AllocatedKeeps(s2, first, bm.Ids(), 1);
      n := Vfree(a);
      ghost var s3 := Now();
      Double3(s2, s3, bm.Ids(), first, n);
      FreeAccount(s2, s3, DOUBLE_2, bm.Ids(), first, 1, n, u, 2);
      MoreEnough(s3, u, n);
      ValidIs();
      SecureIs();
      RegionIs();
      Eight();
      FreeSafe(s2, s3, DOUBLE_2, bm.Ids(), first, 1, n);
      DoubleAlloc4();
      SafeHarmless(s3, bm.Ids(), first, 2);
      var c;
      c, k := Valloc(2, u, 0);
      ghost var s4 := Now();
      Double4(s3, s4, bm.Ids(), first, c, k);
      ValidIs();
      RegionIs();
      Stale(s0, s1, s2, s3, s4, first, a, b, c, n);
      AtBlock(1, a);
      n := Vfree(a);
    }

    /** In a thread's region, which starts at page 1, an allocation for which no range fits maps its
        second frame at the region's own first page: the ids of the region lose the frame behind them. */
    method FailedValloc(pages: nat, ghost u: set<Slot>) returns (addr: nat)
      requires Valid() && Universe(u) && EnoughFor(Now(), u, pages)
      requires First() == 1 && bm.Blocks() > 0 && NoFit(bm.Ids(), pages) && pages > 1
      modifies this`tree, kmem`mem, kmem`free, kmem.bitmap, bm`used, bm`ffa, bm.bm
      ensures Usable() && addr == 0 && bm.Ids() == old(bm.Ids())
      ensures 0 in Live(bm.Ids()) && FrameOf(Now(), First(), 0) != FrameOf(old(Now()), First(), 0)
    {
      hide *;
      ValidIs();
      RegionIs();
      IdsLive();
      ghost var a, ids, i := Now(), bm.Ids(), 0;
      addr, i := Valloc(pages, u, 0);
      FailedMoves(a, Now(), ids, bm.Ids(), First(), addr, i, pages);
    }

    /** A request for more pages than the region has is such a one. */
    lemma TooManyPages(pages: nat)
      requires Region() && pages > bm.Blocks()
      ensures NoFit(bm.Ids(), pages)
    {}

    /** The ids' own blocks are never free. */
    lemma IdsLive()
      requires Region() && bm.Blocks() > 0
      ensures 0 in Live(bm.Ids())
    {
      bm.Sizes();
      bm.FreePastMeta();
      SomeIds(bm.Blocks());
    }

    lemma AtBlock(i: nat, addr: nat)
      requires Valid() && addr == bm.Address(i) && bm.Meta() <= i < bm.Blocks()
      ensures bm.Sized() && bm.InBlocks(addr) && bm.BlockOf(addr) == i
    {
      hide Mapped, Backed, Tame, Bitmap.Valid;
      bm.Sizes();
    }
  }

  /** A call on the region. */
  datatype Call = Alloc(pages: nat) | Free(addr: nat)

  /** Where a region starts, and the blocks its own ids take. */
  datatype Extent = Extent(base: nat, meta: nat)

  /** bm_free acts on the address. */
  predicate Hits(x: Extent, blocks: nat, addr: nat) {
    x.base + x.meta * PAGE_SIZE <= addr && (addr - x.base) / PAGE_SIZE < blocks
  }

  function BlockAt(x: Extent, addr: nat): nat
    requires x.base <= addr
  {
    (addr - x.base) / PAGE_SIZE
  }

  /** The address is that of an allocated block, or bm_free ignores it. */
  ghost predicate MayFree(x: Extent, ids: Ids, addr: nat) {
    Hits(x, |ids|, addr) ==> ids[BlockAt(x, addr)] != 0
  }

  /** The ids after a call. */
  ghost function Next(x: Extent, ids: Ids, call: Call): Ids {
    match call
    case Alloc(pages) => AfterAlloc(ids, pages)
    case Free(addr) => if Hits(x, |ids|, addr) then AfterFree(ids, BlockAt(x, addr)) else ids
  }

  /** The frames an allocation takes and maps nowhere useful because no range fits. */
  ghost function LostBy(was: Ids, call: Call): nat {
    match call
    case Alloc(pages) => if NoFit(was, pages) then pages else 0
    case Free(_) => 0
  }

  ghost function IdsAt(x: Extent, ids: Ids, calls: seq<Call>, k: nat): Ids
    requires k <= |calls|
  {
    if k == 0 then ids else Next(x, IdsAt(x, ids, calls, k - 1), calls[k - 1])
  }

  ghost function LostAt(x: Extent, ids: Ids, calls: seq<Call>, k: nat): nat
    requires k <= |calls|
  {
    if k == 0 then 0 else LostAt(x, ids, calls, k - 1) + LostBy(IdsAt(x, ids, calls, k - 1), calls[k - 1])
  }

  /** The frames to spare after k calls, of m at the start: what is live or lost is not spare, what came
      back is. */
  ghost function SpareAt(x: Extent, ids: Ids, calls: seq<Call>, k: nat, m: nat): int
    requires k <= |calls|
  {
    m + |Live(ids)| - |Live(IdsAt(x, ids, calls, k))| - LostAt(x, ids, calls, k)
  }

  /** The caller's side of a run: each allocation asks for no more frames than are to spare at that
      moment and, when no range fits, for no more pages than lie before the region; and each address
      given to vfree is that of a block allocated at that moment, or one that bm_free ignores. */
  ghost predicate Orderly(x: Extent, ids: Ids, calls: seq<Call>, m: nat) {
    forall k: nat {:trigger IdsAt(x, ids, calls, k)} :: k < |calls| ==>
      match calls[k]
      case Alloc(pages) =>
        && pages <= SpareAt(x, ids, calls, k, m)
        && (NoFit(IdsAt(x, ids, calls, k), pages) ==> pages <= Page(x.base))
      case Free(addr) => MayFree(x, IdsAt(x, ids, calls, k), addr)
  }

  /** The states of a run: at each, the allocated blocks are backed, and no call moves the frames of
      blocks that were allocated before it. */
  ghost predicate Followed(x: Extent, ids: Ids, calls: seq<Call>, n: nat, states: seq<Sys>, first: nat) {
    && n <= |calls| && |states| == n + 1
    && (forall k: nat {:trigger states[k]} :: k <= n ==> Backed(states[k], first, Live(IdsAt(x, ids, calls, k))))
    && (forall k: nat {:trigger states[k]} :: k < n ==> StepMoves(x, ids, calls, k, states[k], states[k + 1], first))
  }

  ghost predicate StepMoves(x: Extent, ids: Ids, calls: seq<Call>, k: nat, a: Sys, b: Sys, first: nat)
    requires k < |calls|
  {
    Unmoved(a, b, first, Live(IdsAt(x, ids, calls, k)))
  }

  lemma OrderlyAt(x: Extent, ids: Ids, calls: seq<Call>, k: nat, m: nat)
    requires k < |calls| && Orderly(x, ids, calls, m)
    ensures calls[k].Alloc? ==> calls[k].pages <= SpareAt(x, ids, calls, k, m)
    ensures calls[k].Alloc? && NoFit(IdsAt(x, ids, calls, k), calls[k].pages) ==> calls[k].pages <= Page(x.base)
    ensures calls[k].Free? ==> MayFree(x, IdsAt(x, ids, calls, k), calls[k].addr)
  {
    hide SpareAt, MayFree, IdsAt;
    assert IdsAt(x, ids, calls, k) == IdsAt(x, ids, calls, k);
  }

  lemma RunStarts(x: Extent, ids: Ids, calls: seq<Call>, a: Sys, first: nat, m: nat)
    requires Backed(a, first, Live(ids))
    ensures IdsAt(x, ids, calls, 0) == ids && LostAt(x, ids, calls, 0) == 0 && SpareAt(x, ids, calls, 0, m) == m
    ensures Followed(x, ids, calls, 0, [a], first)
  {
    hide Backed, Live;
  }

  lemma RunStep(x: Extent, ids: Ids, calls: seq<Call>, k: nat, m: nat, states: seq<Sys>, a: Sys, b: Sys, first: nat)
    requires k < |calls| && Followed(x, ids, calls, k, states, first) && states[k] == a
    requires var was, now := IdsAt(x, ids, calls, k), Next(x, IdsAt(x, ids, calls, k), calls[k]);
             Backed(b, first, Live(now)) && Unmoved(a, b, first, Live(was))
    ensures Followed(x, ids, calls, k + 1, states + [b], first)
    ensures IdsAt(x, ids, calls, k + 1) == Next(x, IdsAt(x, ids, calls, k), calls[k])
    ensures LostAt(x, ids, calls, k + 1) == LostAt(x, ids, calls, k) + LostBy(IdsAt(x, ids, calls, k), calls[k])
    ensures SpareAt(x, ids, calls, k + 1, m) == SpareAt(x, ids, calls, k, m)
              + |Live(IdsAt(x, ids, calls, k))| - |Live(IdsAt(x, ids, calls, k + 1))|
              - LostBy(IdsAt(x, ids, calls, k), calls[k])
  {
    hide Backed, Live, Next, LostBy, Unmoved;
    assert IdsAt(x, ids, calls, k + 1) == Next(x, IdsAt(x, ids, calls, k), calls[k]);
    hide IdsAt;
    var more := states + [b];
    forall j: nat | j <= k ensures more[j] == states[j] {}
  }

  /** Freeing an allocated block returns one frame a block, which may be asked for again. */
  lemma FreeAccount(a: Sys, b: Sys, was: Ids, now: Ids, first: nat, s: nat, n: nat, u: set<Slot>, m: nat)
    requires Vfreed(a, b, was, now, first, s, n) && was[s] != 0 && Valid(a)
    requires Backed(a, first, Live(was)) && EnoughFor(a, u, m) && Paths(Pages(0, a.limit)) <= u
    ensures Stock(b) + |Live(now)| == Stock(a) + |Live(was)| && |Live(now)| + n == |Live(was)|
    ensures EnoughFor(b, u, m + n)
  {
    hide Live, Ranges, FrameOf, RunLength, Paths, Valid, Paint, Stock, Backed;
    PagesCount(s, n);
    Difference(Live(was), Pages(s, n));
    assert b.tree == a.tree;
    var back := FramesOf(a, first, Pages(s, n)) - {0};
    ReturnedValid(a, b, first, Live(was), Pages(s, n));
    PathsUnion(a.free, back);
    BackInside(a, first, Live(was), Pages(s, n));
    PathsMonotone(back, Pages(0, a.limit));
    ReturnedCount(a, b, first, Live(was), Pages(s, n));
  }

  lemma NextAlloc(x: Extent, ids: Ids, pages: nat)
    ensures Next(x, ids, Alloc(pages)) == AfterAlloc(ids, pages)
  {}

  lemma NothingLost(ids: Ids, call: Call)
    ensures call.Free? ==> LostBy(ids, call) == 0
  {}

  lemma UnmovedSelf(a: Sys, first: nat, blocks: set<nat>)
    ensures Unmoved(a, a, first, blocks)
  {}

  lemma FreeMoves(a: Sys, b: Sys, was: Ids, now: Ids, first: nat, s: nat, n: nat, blocks: set<nat>)
    requires Vfreed(a, b, was, now, first, s, n)
    ensures s < |was| && now == AfterFree(was, s) && Unmoved(a, b, first, blocks)
  {
    hide Leaf, Live, RunLength, Paint, Ranges, Stock;
    forall k: nat ensures FrameOf(b, first, k) == FrameOf(a, first, k) { SameLeaf(a, b, first + k); }
  }

  /** The ids of a fresh region of eight blocks, and after each call of the double free. */
  const DOUBLE_0: Ids := [1, 0, 0, 0, 0, 0, 0, 0]
  const DOUBLE_1: Ids := [1, 2, 0, 0, 0, 0, 0, 0]
  const DOUBLE_2: Ids := [1, 2, 1, 0, 0, 0, 0, 0]
  const DOUBLE_3: Ids := [1, 0, 1, 0, 0, 0, 0, 0]
  const DOUBLE_4: Ids := [1, 0, 1, 2, 2, 0, 0, 0]

  lemma DoubleAlloc1()
    ensures AfterAlloc(DOUBLE_0, 1) == DOUBLE_1 && Fits(DOUBLE_0, 1, 1)
  {
    hide AfterAlloc;
    AllocIs(DOUBLE_0, 1, 1);
    assert Paint(DOUBLE_0, 1, 1, 2) == DOUBLE_1;
  }

  lemma DoubleAlloc2()
    ensures AfterAlloc(DOUBLE_1, 1) == DOUBLE_2 && Fits(DOUBLE_1, 2, 1)
  {
    hide AfterAlloc;
    AllocIs(DOUBLE_1, 1, 2);
    assert Paint(DOUBLE_1, 2, 1, 1) == DOUBLE_2;
  }

  lemma DoubleAlloc4()
    ensures AfterAlloc(DOUBLE_3, 2) == DOUBLE_4 && Fits(DOUBLE_3, 3, 2) && !NoFit(DOUBLE_3, 2)
  {
    hide AfterAlloc;
    assert DOUBLE_3[2] == 1;
    AllocIs(DOUBLE_3, 2, 3);
    assert Paint(DOUBLE_3, 3, 2, 2) == DOUBLE_4;
  }

  lemma Double1(a: Sys, b: Sys, now: Ids, first: nat, addr: nat, i: nat)
    requires Valloced(a, b, DOUBLE_0, now, first, addr, i, 1)
    ensures now == DOUBLE_1 && i == 1 && addr != 0 && |now| == 8 && now[1] != 0
  {
    hide TookPages, Safer, AfterAlloc, Fits, NoFit, Ranges;
    DoubleAlloc1();
    NewBlock(a, b, DOUBLE_0, DOUBLE_1, first, addr, i, 1, 1);
  }

  lemma Double2(a: Sys, b: Sys, now: Ids, first: nat, addr: nat, i: nat)
    requires Valloced(a, b, DOUBLE_1, now, first, addr, i, 1)
    ensures now == DOUBLE_2 && i == 2 && addr != 0 && |now| == 8 && now[1] != 0
  {
    hide TookPages, Safer, AfterAlloc, Fits, NoFit, Ranges;
    DoubleAlloc2();
    NewBlock(a, b, DOUBLE_1, DOUBLE_2, first, addr, i, 2, 1);
  }

  lemma Double3(a: Sys, b: Sys, now: Ids, first: nat, n: nat)
    requires Vfreed(a, b, DOUBLE_2, now, first, 1, n)
    ensures now == DOUBLE_3 && n == 1
  {
    hide Returned, Ranges, Stock, RunLength, Starts, Live, RangeFreed;
    RunLengthUnique(DOUBLE_2, 1, 1);
    assert now == Paint(DOUBLE_2, 1, 1, 0);
  }

  lemma Double4(a: Sys, b: Sys, now: Ids, first: nat, addr: nat, i: nat)
    requires Valloced(a, b, DOUBLE_3, now, first, addr, i, 2)
    ensures now == DOUBLE_4 && i == 3 && addr != 0 && |now| == 8
  {
    hide TookPages, Safer, AfterAlloc, Fits, NoFit, Ranges;
    DoubleAlloc4();
    NewBlock(a, b, DOUBLE_3, DOUBLE_4, first, addr, i, 3, 2);
  }

  /** Where an allocation of that run lies. */
  lemma NewBlock(a: Sys, b: Sys, was: Ids, now: Ids, first: nat, addr: nat, i: nat, at: nat, n: nat)
    requires Valloced(a, b, was, now, first, addr, i, n) && n > 0 && Fits(was, at, n)
    requires at in Live(now) && forall j :: j in Live(now) && j !in Live(was) ==> at <= j
    ensures i == at && addr != 0
  {
    hide TookPages, Safer, AfterAlloc, Ranges;
    assert !NoFit(was, n);
    assert i in Pages(i, n) && at !in Live(was) && at in Pages(i, n);
  }

  lemma MoreEnough(a: Sys, u: set<Slot>, n: nat)
    requires EnoughFor(a, u, 2 + n)
    ensures EnoughFor(a, u, 2)
  {}

  /** The frame freed first is the lowest free one again, so the third allocation gets it, while the
      entry of the freed page still names it. */
  lemma Stale(s0: Sys, s1: Sys, s2: Sys, s3: Sys, s4: Sys, first: nat, a: nat, b: nat, c: nat, n: nat)
    requires Valid(s0) && Safe(s0, first, 8) && first + 8 <= PAGES && a != 0 && b != 0 && c != 0
    requires Safe(s1, first, 8) && Safe(s3, first, 8)
    requires Valloced(s0, s1, DOUBLE_0, DOUBLE_1, first, a, 1, 1)
    requires Valloced(s1, s2, DOUBLE_1, DOUBLE_2, first, b, 2, 1)
    requires Vfreed(s2, s3, DOUBLE_2, DOUBLE_3, first, 1, n)
    requires Valloced(s3, s4, DOUBLE_3, DOUBLE_4, first, c, 3, 2)
    ensures FrameOf(s4, first, 1) == FrameOf(s4, first, 3)
    ensures !Keeps(s4, first, DOUBLE_4, 1)
  {
    hide *;
    var f := FrameOf(s1, first, 1);
    Eight();
    VallocedRange(s0, s1, DOUBLE_0, DOUBLE_1, first, a, 1, 1);
    VallocedRange(s1, s2, DOUBLE_1, DOUBLE_2, first, b, 2, 1);
    VallocedRange(s3, s4, DOUBLE_3, DOUBLE_4, first, c, 3, 2);
    UnmovedAt(s1, s2, first, 8, 2, 1, 1);
    UnmovedAt(s3, s4, first, 8, 3, 2, 1);
    VfreedOne(s2, s3, first, n);
    StaleFree(s2, s3, first, f, n);
    LowFrame(s0, f);
    StillLeast(f, s0.free, s2.free, s3.free, FrameOf(s4, first, 3));
    Doubled(s4, first);
  }

  lemma Eight()
    ensures |DOUBLE_0| == |DOUBLE_1| == |DOUBLE_2| == |DOUBLE_3| == 8
  {}

  /** What a successful allocation in a secure region does. */
  lemma VallocedRange(a: Sys, b: Sys, was: Ids, now: Ids, first: nat, addr: nat, i: nat, n: nat)
    requires Valloced(a, b, was, now, first, addr, i, n) && addr != 0 && n > 0 && Safe(a, first, |was|)
    ensures Safe(b, first, |was|) && Unmoved(a, b, first, Pages(0, |was|) - Pages(i, n))
    ensures Least(FrameOf(b, first, i), a.free) && b.free <= a.free
  {
    hide Safe, FrameOf, TookPages, AfterAlloc, RangeAdded, NoFit;
    TookFree(a, b, first, Live(was), true, i, n);
  }

  lemma UnmovedAt(a: Sys, b: Sys, first: nat, blocks: nat, i: nat, n: nat, j: nat)
    requires Unmoved(a, b, first, Pages(0, blocks) - Pages(i, n)) && j < blocks && !(i <= j < i + n)
    ensures FrameOf(b, first, j) == FrameOf(a, first, j)
  {
    hide FrameOf;
    assert j in Pages(0, blocks) - Pages(i, n);
  }

  lemma VfreedOne(a: Sys, b: Sys, first: nat, n: nat)
    requires Vfreed(a, b, DOUBLE_2, DOUBLE_3, first, 1, n)
    ensures n == 1 && b == Returned(a, first, Pages(1, n))
  {
    hide Returned, Ranges, Stock, RunLength, Starts, Live, RangeFreed, AfterFree;
    RunLengthUnique(DOUBLE_2, 1, 1);
  }

  lemma StillLeast(f: nat, s0: set<nat>, s2: set<nat>, s3: set<nat>, g: nat)
    requires Least(f, s0) && s2 <= s0 && f > 0 && s3 == s2 + ({f} - {0}) && Least(g, s3)
    ensures g == f
  {
    assert f in s3;
  }

  lemma Doubled(a: Sys, first: nat)
    requires FrameOf(a, first, 1) == FrameOf(a, first, 3)
    ensures !Keeps(a, first, DOUBLE_4, 1)
  {
    hide FrameOf, Tables, RunLength;
    assert RunLength(DOUBLE_4, 1) >= 1;
    assert 3 in Live(DOUBLE_4);
    assert FrameOf(a, first, 3) in FramesOf(a, first, Live(DOUBLE_4));
    assert FrameOf(a, first, 1) in FramesOf(a, first, Live(DOUBLE_4));
  }

  lemma StaleFree(a: Sys, b: Sys, first: nat, f: nat, n: nat)
    requires n == 1 && b == Returned(a, first, Pages(1, n)) && FrameOf(a, first, 1) == f
    ensures b.free == a.free + ({f} - {0}) && FrameOf(b, first, 1) == f
  {
    SameLeaf(a, b, first + 1);
    hide Leaf, Frame;
    assert Pages(1, 1) == {1};
    assert FramesOf(a, first, Pages(1, 1)) == {f};
  }

  lemma LowFrame(a: Sys, f: nat)
    requires Valid(a) && Least(f, a.free)
    ensures f > 0
  {}

  /** A range stays recorded, and its pages keep the frames behind them, from any moment of a run to any
      later one, as long as no call in between frees a block of it. */
  lemma {:induction false} RangeKept(x: Extent, ids: Ids, calls: seq<Call>, states: seq<Sys>, first: nat,
                                     i: nat, k: nat, s: nat, n: nat)
    requires i <= k <= |calls| && |states| == |calls| + 1 && Followed(x, ids, calls, |calls|, states, first)
    requires s in Ranges(IdsAt(x, ids, calls, i)) && Ranges(IdsAt(x, ids, calls, i))[s] == n && first + s + n <= PAGES
    requires forall m: nat :: i <= m < k && calls[m].Free? && x.base <= calls[m].addr ==>
               !(s <= BlockAt(x, calls[m].addr) < s + n)
    ensures s in Ranges(IdsAt(x, ids, calls, k)) && Ranges(IdsAt(x, ids, calls, k))[s] == n
    ensures forall j: nat :: s <= j < s + n ==> FrameOf(states[k], first, j) == FrameOf(states[i], first, j)
    decreases k
  {
    hide *;
    if i < k {
      RangeKept(x, ids, calls, states, first, i, k - 1, s, n);
      var was, now := IdsAt(x, ids, calls, k - 1), IdsAt(x, ids, calls, k);
      StepOf(x, ids, calls, states, first, k - 1);
      NextKeeps(x, was, calls[k - 1], s, n);
      StillBehind(states[k - 1], states[k], first, was, s, n);
    }
  }

  lemma StepOf(x: Extent, ids: Ids, calls: seq<Call>, states: seq<Sys>, first: nat, k: nat)
    requires k < |calls| && |states| == |calls| + 1 && Followed(x, ids, calls, |calls|, states, first)
    ensures IdsAt(x, ids, calls, k + 1) == Next(x, IdsAt(x, ids, calls, k), calls[k])
    ensures Unmoved(states[k], states[k + 1], first, Live(IdsAt(x, ids, calls, k)))
  {
    hide Next, Live, Unmoved, Backed;
    assert StepMoves(x, ids, calls, k, states[k], states[k + 1], first);
  }

  lemma StillBehind(a: Sys, b: Sys, first: nat, was: Ids, s: nat, n: nat)
    requires Unmoved(a, b, first, Live(was))
    requires forall j :: s <= j < s + n ==> j in Live(was)
    ensures forall j: nat :: s <= j < s + n ==> FrameOf(b, first, j) == FrameOf(a, first, j)
  {
    hide FrameOf, Live;
  }

  /** One call keeps a range it does not free, and allocates no block of it. */
  lemma NextKeeps(x: Extent, ids: Ids, call: Call, s: nat, n: nat)
    requires s in Ranges(ids) && Ranges(ids)[s] == n
    requires call.Free? && x.base <= call.addr ==> !(s <= BlockAt(x, call.addr) < s + n)
    ensures s in Ranges(Next(x, ids, call)) && Ranges(Next(x, ids, call))[s] == n
    ensures forall j :: s <= j < s + n ==> j in Live(ids)
  {
    hide RunLength, Paint, Fits, ChosenId;
    RangesAt(ids, s);
    match call {
      case Alloc(pages) =>
        var i := FirstFit(ids, pages, 0);
        if pages > 0 && i < |ids| { AllocKeeps(ids, pages, i, s, n); }
      case Free(addr) =>
        if Hits(x, |ids|, addr) { FreeKeeps(ids, BlockAt(x, addr), s, n); }
    }
  }

  lemma AllocKeeps(ids: Ids, pages: nat, i: nat, s: nat, n: nat)
    requires s in Ranges(ids) && Ranges(ids)[s] == n && pages > 0 && Fits(ids, i, pages)
    ensures var now := Paint(ids, i, pages, ChosenId(Repaired, ids, i, pages));
            s in Ranges(now) && Ranges(now)[s] == n
  {
    RangesAt(ids, s);
    hide Ranges, Paint, RunLength;
    PaintAdds(ids, i, pages, ChosenId(Repaired, ids, i, pages));
  }

  /** What clearing the run at t leaves of a range it does not touch. */
  lemma FreeElsewhere(ids: Ids, t: nat, s: nat, n: nat)
    requires Starts(ids, s) && n == RunLength(ids, s) && t < |ids| && !(s <= t < s + n)
    ensures var now := AfterFree(ids, t);
            && |now| == |ids| && s + n <= |ids| && Starts(now, s)
            && (forall j :: s <= j < s + n ==> now[j] == now[s]) && (s + n < |now| ==> now[s + n] != now[s])
  {
    var now, len := AfterFree(ids, t), RunLength(ids, t);
    hide Paint, RunLength;
    assert t + len <= s || s + n <= t;
    assert now[s] == ids[s] && (s > 0 ==> now[s - 1] == ids[s - 1] || now[s - 1] == 0);
  }

  lemma FreeKeeps(ids: Ids, t: nat, s: nat, n: nat)
    requires s in Ranges(ids) && Ranges(ids)[s] == n && t < |ids| && !(s <= t < s + n)
    ensures s in Ranges(AfterFree(ids, t)) && Ranges(AfterFree(ids, t))[s] == n
  {
    hide *;
    RangesAt(ids, s);
    FreeElsewhere(ids, t, s, n);
    RunLengthUnique(AfterFree(ids, t), s, n);
    RangesAt(AfterFree(ids, t), s);
  }

  lemma BackInside(a: Sys, first: nat, live: set<nat>, gone: set<nat>)
    requires Backed(a, first, live) && gone <= live
    ensures FramesOf(a, first, gone) - {0} <= Pages(0, a.limit)
  {
    hide FrameOf;
  }

  lemma ReturnedCount(a: Sys, b: Sys, first: nat, live: set<nat>, gone: set<nat>)
    requires Valid(a) && Backed(a, first, live) && gone <= live && b == Returned(a, first, gone)
    ensures |b.free| == |a.free| + |gone|
  {
    assert FramesOf(a, first, gone) - {0} == FramesOf(a, first, gone) by { NotZero(a, first, live); }
    FreedCounts(a, b, first, live, gone);
  }

  lemma AllocAccount(a: Sys, b: Sys, was: Ids, now: Ids, first: nat, addr: nat, i: nat, n: nat)
    requires n > 0 && Valloced(a, b, was, now, first, addr, i, n)
    ensures Stock(b) + |Live(now)| + LostBy(was, Alloc(n)) == Stock(a) + |Live(was)|
    ensures |Live(now)| + LostBy(was, Alloc(n)) == |Live(was)| + n
    ensures now == AfterAlloc(was, n)
  {
    TookStock(a, b, first, Live(was), addr != 0, i, n);
    hide NoFit, Stock, Live, Fits, Ranges, TookPages, Safer, AfterAlloc;
    if addr != 0 {
      PagesCount(i, n);
      DisjointUnion(Live(was), Pages(i, n));
    } else {
      NoAlloc(was, n);
    }
  }

  lemma AllocNothing(a: Sys, ids: Ids, first: nat)
    ensures AfterAlloc(ids, 0) == ids && LostBy(ids, Alloc(0)) == 0 && Unmoved(a, a, first, Live(ids))
  {
    hide FrameOf, Live;
  }

  /** A region that was secure still is, when a range fits or the loop ends before the region. */
  lemma AllocSafe(a: Sys, b: Sys, was: Ids, now: Ids, first: nat, addr: nat, i: nat, n: nat)
    requires Valloced(a, b, was, now, first, addr, i, n) && (NoFit(was, n) ==> n <= first) && Safe(a, first, |was|)
    ensures Safe(b, first, |was|) && |now| == |was|
  {
    hide Safe, FrameOf, TookPages, Live, Fits, Ranges, NoFit;
    AllocLength(was, n);
  }

  lemma AllocLength(ids: Ids, n: nat)
    ensures |AfterAlloc(ids, n)| == |ids|
  {
    hide Fits, ChosenId;
  }

  lemma FreeSafe(a: Sys, b: Sys, was: Ids, now: Ids, first: nat, s: nat, n: nat)
    requires Vfreed(a, b, was, now, first, s, n) && Safe(a, first, |was|)
    ensures Safe(b, first, |was|) && |now| == |was|
  {
    hide *;
    VfreedParts(a, b, was, now, first, s, n);
    SafeParts(a, first, |was|);
    SafeParts(b, first, |was|);
    if Apart(a, first, |was|) { ReturnedApart(a, b, first, |was|, s, n); }
  }

  lemma VfreedParts(a: Sys, b: Sys, was: Ids, now: Ids, first: nat, s: nat, n: nat)
    requires Vfreed(a, b, was, now, first, s, n)
    ensures b == Returned(a, first, Pages(s, n)) && s + n <= |was| && |now| == |was| && StoreOf(b).keys == StoreOf(a).keys
    ensures Tabled(StoreOf(a), first, |was|) ==> Tabled(StoreOf(b), first, |was|)
  {
    hide Live, Ranges, Starts, Stock, FramesOf, Path;
  }

  lemma ReturnedApart(a: Sys, b: Sys, first: nat, blocks: nat, s: nat, n: nat)
    requires Apart(a, first, blocks) && b == Returned(a, first, Pages(s, n)) && s + n <= blocks
    ensures Apart(b, first, blocks)
  {
    forall k: nat ensures FrameOf(b, first, k) == FrameOf(a, first, k) { SameFrame(a, b, first, k); }
    hide FrameOf;
  }

  /** A thread's region never stands in the way of its own allocations, nor does the kernel's. */
  lemma SafeHarmless(a: Sys, ids: Ids, first: nat, n: nat)
    requires Safe(a, first, |ids|) && (NoFit(ids, n) ==> n <= first)
    ensures Harmless(a, ids, first, n)
  {
    SafeParts(a, first, |ids|);
    LiveInside(ids);
    var i := FirstFit(ids, n, 0);
    FitOrNot(ids, n);
    hide *;
    SafeSparesIf(StoreOf(a), first, |ids|, Live(ids), i < |ids|, i, n);
    HarmlessIs(a, ids, first, n);
  }

  /** Exactly then. */
  lemma SafeHarmlessOnly(a: Sys, ids: Ids, first: nat, n: nat)
    requires Safe(a, first, |ids|) && 0 in Live(ids) && 0 < first
    ensures Harmless(a, ids, first, n) <==> !NoFit(ids, n) || n <= first
  {
    SafeParts(a, first, |ids|);
    LiveInside(ids);
    var i := FirstFit(ids, n, 0);
    FitOrNot(ids, n);
    hide *;
    SafeSpares(StoreOf(a), first, |ids|, Live(ids), i < |ids|, i, n);
    HarmlessIs(a, ids, first, n);
  }

  lemma HarmlessIs(a: Sys, ids: Ids, first: nat, n: nat)
    ensures var i := FirstFit(ids, n, 0);
            Harmless(a, ids, first, n) <==> AllSpared(StoreOf(a), first, Live(ids), i < |ids|, i, n)
  {
    hide AllSpared, StoreOf, Live, FirstFit;
  }

  lemma LiveInside(ids: Ids)
    ensures Live(ids) <= Pages(0, |ids|)
  {}

  lemma FitOrNot(ids: Ids, n: nat)
    ensures var i := FirstFit(ids, n, 0);
            && (i < |ids| <==> !NoFit(ids, n)) && (i < |ids| ==> i + n <= |ids| && Pages(i, n) !! Live(ids))
  {}

  lemma AllocatedKeeps(a: Sys, first: nat, ids: Ids, s: nat)
    requires s < |ids| && ids[s] != 0
    ensures Keeps(a, first, ids, s)
  {}

  lemma FreedTogether(x: Extent, ids: Ids, addr: nat)
    requires MayFree(x, ids, addr)
    ensures Hits(x, |ids|, addr) ==> ids[BlockAt(x, addr)] != 0
    ensures Hits(x, |ids|, addr) ==> Next(x, ids, Free(addr)) == AfterFree(ids, BlockAt(x, addr))
    ensures !Hits(x, |ids|, addr) ==> Next(x, ids, Free(addr)) == ids
  {
    hide AfterFree, Hits;
  }

  lemma DisjointUnion(x: set<nat>, y: set<nat>)
    requires x !! y
    ensures |x + y| == |x| + |y|
  {}

  lemma RegionAddress(base: nat, i: nat, n: nat, blocks: nat)
    requires 0 < base && base % PAGE_SIZE == 0 && i + n <= blocks
    requires base + blocks * PAGE_SIZE <= TWO_64 && Page(base) + blocks <= PAGES
    ensures base + i * PAGE_SIZE + n * PAGE_SIZE <= TWO_64
    ensures n > 0 || i < blocks ==> Page(base + i * PAGE_SIZE) == Page(base) + i
  {}

  lemma PathsWithin(v: nat, n: nat, v': nat, n': nat)
    requires v' <= v && v + n <= v' + n'
    ensures Paths(Pages(v, n)) <= Paths(Pages(v', n'))
  {
    PathsUnion(Pages(v, n), Pages(v', n'));
    assert Pages(v, n) + Pages(v', n') == Pages(v', n');
  }

  lemma {:induction false} PagesCount(v: nat, n: nat)
    ensures |Pages(v, n)| == n
  {
    if n > 0 { PagesCount(v, n - 1); }
  }

  lemma DivCeilPages(n: nat)
    requires n <= PAGES
    ensures DivCeil(n * PAGE_SIZE, PAGE_SIZE) == n
  {}

  lemma FreeBelow(a: Sys)
    requires PageTree.Valid(a)
    ensures |a.free| <= a.limit <= PAGES
  {
    PagesCount(0, a.limit);
    assert a.free <= Pages(0, a.limit);
    Subset(a.free, Pages(0, a.limit));
  }

  /** The blocks an allocation adds. */
  lemma LiveGrows(ids: Ids, i: nat, n: nat, c: bv8)
    requires Fits(ids, i, n) && c != 0
    ensures Live(Paint(ids, i, n, c)) == Live(ids) + Pages(i, n) && Pages(i, n) !! Live(ids)
    ensures i + n <= |ids|
  {}

  /** The ids with one range more; its blocks were free. */
  ghost predicate RangeAdded(was: Ids, now: Ids, i: nat, n: nat) {
    && Fits(was, i, n)
    && Ranges(now) == Ranges(was)[i := n]
    && Live(now) == Live(was) + Pages(i, n) && Pages(i, n) !! Live(was)
  }

  /** The tables can be walked from p4, whatever is free. */
  ghost predicate Walks(a: Sys, p4: nat) {
    Valid(a.(free := {})) && ROOT in a.tree && p4 == a.tree[ROOT] * PAGE_SIZE
  }

  /** What vfree did: the run of blocks from s is free, and exactly the frames its pages name came back;
      from an allocated block one frame a page, and from the start of a range that is the range. */
  ghost predicate Vfreed(a: Sys, b: Sys, was: Ids, now: Ids, first: nat, s: nat, n: nat) {
    && s < |was| && n == RunLength(was, s) && now == AfterFree(was, s)
    && b == Returned(a, first, Pages(s, n))
    && (was[s] != 0 ==> Live(now) == Live(was) - Pages(s, n) && Pages(s, n) <= Live(was) && Stock(b) == Stock(a) + n)
    && (Starts(was, s) ==> RangeFreed(was, now, s, n))
  }

  /** The ids after bm_free from block s. */
  ghost function AfterFree(ids: Ids, s: nat): Ids
    requires s < |ids|
  {
    Paint(ids, s, RunLength(ids, s), 0)
  }

  lemma LiveShrinks(ids: Ids, s: nat, n: nat)
    requires s < |ids| && n == RunLength(ids, s) && ids[s] != 0
    ensures Live(Paint(ids, s, n, 0)) == Live(ids) - Pages(s, n) && Pages(s, n) <= Live(ids)
    ensures s + n <= |ids|
  {
    hide RunLength, Paint;
  }

  /** A run of free blocks is painted as it is. */
  lemma FreeStays(ids: Ids, s: nat)
    requires s < |ids| && ids[s] == 0
    ensures AfterFree(ids, s) == ids
  {
    hide RunLength, Paint;
  }

  /** a with the frames that the pages of some blocks name free; a page that names none gives address 0,
      which pmm_clear_bit ignores. */
  ghost function Returned(a: Sys, first: nat, gone: set<nat>): Sys {
    a.(free := a.free + (FramesOf(a, first, gone) - {0}))
  }

  lemma StillWalks(a: Sys, b: Sys, first: nat, gone: set<nat>, p4: nat)
    requires Walks(a, p4) && b == Returned(a, first, gone)
    ensures Walks(b, p4)
  {
    assert b.(free := {}) == a.(free := {});
  }

  lemma NoneReturned(a: Sys, first: nat, s: nat)
    ensures Returned(a, first, Pages(s, 0)) == a
  {
    assert FramesOf(a, first, Pages(s, 0)) == {};
    assert a.free + ({} - {0}) == a.free;
  }

  /** The page of block s + k still translates to the frame it named, which comes back next. */
  lemma OneReturned(a: Sys, b: Sys, first: nat, blocks: nat, s: nat, k: nat, p4: nat)
    requires Walks(a, p4) && Tame(a, first, blocks) && s + k < blocks && b == Returned(a, first, Pages(s, k))
    ensures var f := FrameOf(a, first, s + k);
            && Translation(b, first + s + k) == f * PAGE_SIZE && f < a.limit
            && Returned(a, first, Pages(s, k + 1)) == b.(free := b.free + ({f} - {0}))
    ensures Walks(b, p4)
  {
    hide Leaf, Frame, Valid;
    SameLeaf(a, b, first + s + k);
    assert b.(free := {}) == a.(free := {});
    assert Pages(s, k + 1) == Pages(s, k) + {s + k};
    assert FramesOf(a, first, Pages(s, k + 1)) == FramesOf(a, first, Pages(s, k)) + {FrameOf(a, first, s + k)};
  }

  lemma ReturnedValid(a: Sys, b: Sys, first: nat, live: set<nat>, gone: set<nat>)
    requires PageTree.Valid(a) && Backed(a, first, live) && gone <= live && b == Returned(a, first, gone)
    ensures PageTree.Valid(b) && Backed(b, first, live - gone) && Stock(b) == Stock(a) + |gone|
  {
    assert FramesOf(a, first, gone) - {0} == FramesOf(a, first, gone);
    FreedCounts(a, b, first, live, gone);
    BackedFreed(a, b, first, live, gone);
  }

  /** The caller's side of vfree keeping the invariant: the block is allocated, or no page of the run of
      free blocks there still names a page table or the frame behind a live page. */
  ghost predicate Keeps(a: Sys, first: nat, ids: Ids, s: nat) {
    s < |ids| && (ids[s] != 0 || forall j: nat {:trigger FrameOf(a, first, j)} :: s <= j < s + RunLength(ids, s) ==>
      FrameOf(a, first, j) !in Tables(a) && FrameOf(a, first, j) !in FramesOf(a, first, Live(ids)))
  }

  /** vfree keeps the tables a tree and every live page backed exactly in that case. */
  lemma VfreeKeeps(a: Sys, b: Sys, first: nat, ids: Ids, now: Ids, s: nat, n: nat, blocks: nat)
    requires Valid(a) && Backed(a, first, Live(ids)) && Tame(a, first, blocks)
    requires s < |ids| == blocks && n == RunLength(ids, s) && now == AfterFree(ids, s)
    requires b == Returned(a, first, Pages(s, n))
    ensures Valid(b) && Backed(b, first, Live(now)) <==> Keeps(a, first, ids, s)
    ensures Tame(b, first, blocks)
  {
    hide RunLength, Paint, Live, Leaf, Frame;
    StillTame(a, b, first, blocks);
    if ids[s] != 0 {
      LiveShrinks(ids, s, n);
      hide FrameOf, Valid, Backed;
      ReturnedValid(a, b, first, Live(ids), Pages(s, n));
    } else {
      FreeStays(ids, s);
      hide FrameOf;
      ZeroRun(a, b, first, ids, s, n, blocks);
    }
  }

  lemma StillTame(a: Sys, b: Sys, first: nat, blocks: nat)
    requires Tame(a, first, blocks) && b == a.(free := b.free)
    ensures Tame(b, first, blocks) && forall k: nat :: FrameOf(b, first, k) == FrameOf(a, first, k)
  {
    hide Leaf, Frame;
    forall k: nat ensures FrameOf(b, first, k) == FrameOf(a, first, k) { SameLeaf(a, b, first + k); }
  }

  lemma ZeroRun(a: Sys, b: Sys, first: nat, ids: Ids, s: nat, n: nat, blocks: nat)
    requires Valid(a) && Backed(a, first, Live(ids)) && Tame(a, first, blocks)
    requires s < |ids| == blocks && n == RunLength(ids, s) && ids[s] == 0
    requires b == Returned(a, first, Pages(s, n)) && forall k: nat :: FrameOf(b, first, k) == FrameOf(a, first, k)
    ensures Valid(b) && Backed(b, first, Live(ids)) <==> Keeps(a, first, ids, s)
  {
    hide RunLength, Live, FrameOf;
    var back := FramesOf(a, first, Pages(s, n)) - {0};
    NotZero(a, first, Live(ids));
    assert Valid(b) <==> back !! Tables(a) by { FreeMoreValid(a, b, back); }
    assert Backed(b, first, Live(ids)) <==> back !! FramesOf(a, first, Live(ids)) by {
      FreeMoreBacked(a, b, first, Live(ids), back);
    }
    hide Valid, Backed;
    if Keeps(a, first, ids, s) {
      forall f | f in back ensures f !in Tables(a) && f !in FramesOf(a, first, Live(ids)) {
        var j :| j in Pages(s, n) && FrameOf(a, first, j) == f;
      }
    } else {
      var j: nat :| s <= j < s + n && (FrameOf(a, first, j) in Tables(a) ||
                    FrameOf(a, first, j) in FramesOf(a, first, Live(ids)));
      assert j in Pages(s, n) && FrameOf(a, first, j) in FramesOf(a, first, Pages(s, n));
      assert FrameOf(a, first, j) in back;
    }
  }

  lemma NotZero(a: Sys, first: nat, live: set<nat>)
    requires Valid(a) && Backed(a, first, live)
    ensures 0 !in Tables(a) && 0 !in FramesOf(a, first, live)
  {}

  lemma FreeMoreValid(a: Sys, b: Sys, back: set<nat>)
    requires Valid(a) && b == a.(free := a.free + back) && forall f :: f in back ==> 0 < f < a.limit
    ensures Valid(b) <==> back !! Tables(a)
  {
    hide Linked, Shape;
    if exists f :: f in back && f in Tables(a) {
      var f :| f in back && f in Tables(a);
      var x :| x in a.tree && a.tree[x] == f;
      assert b.tree[x] in b.free;
    } else {
      forall x | x in a.tree ensures a.tree[x] !in back { assert a.tree[x] in Tables(a); }
    }
  }

  lemma FreeMoreBacked(a: Sys, b: Sys, first: nat, live: set<nat>, back: set<nat>)
    requires Backed(a, first, live) && b == a.(free := a.free + back)
    requires forall k: nat :: FrameOf(b, first, k) == FrameOf(a, first, k)
    ensures Backed(b, first, live) <==> back !! FramesOf(a, first, live)
  {
    hide FrameOf;
    if exists f :: f in back && f in FramesOf(a, first, live) {
      var f :| f in back && f in FramesOf(a, first, live);
      var j :| j in live && FrameOf(a, first, j) == f;
      assert FrameOf(b, first, j) in b.free;
    } else {
      forall j | j in live ensures FrameOf(b, first, j) !in b.free {
        assert FrameOf(a, first, j) in FramesOf(a, first, live);
      }
    }
  }

  lemma VfreedIs(a: Sys, b: Sys, first: nat, was: Ids, now: Ids, s: nat, n: nat)
    requires Valid(a) && Backed(a, first, Live(was)) && s < |was| && n == RunLength(was, s) && now == AfterFree(was, s)
    requires b == Returned(a, first, Pages(s, n))
    ensures Vfreed(a, b, was, now, first, s, n)
  {
    hide RunLength, Paint, FrameOf, Valid, Backed, Ranges, Stock, Live;
    if was[s] != 0 {
      LiveShrinks(was, s, n);
      ReturnedValid(a, b, first, Live(was), Pages(s, n));
      PagesCount(s, n);
    }
    if Starts(was, s) {
      ClearRemoves(was, s);
      RangesAt(was, s);
    }
  }

  lemma LiveAtStart(ids: Ids, meta: nat)
    requires meta <= |ids| && forall j: nat :: j < |ids| ==> ids[j] == if j < meta then 1 else 0
    ensures Live(ids) == Pages(0, meta)
  {}

  lemma NothingBacked(a: Sys, first: nat)
    ensures Backed(a, first, {})
  {}

  lemma BackedSubset(a: Sys, first: nat, live: set<nat>, some: set<nat>)
    requires Backed(a, first, live) && some <= live
    ensures Backed(a, first, some)
  {
    hide FrameOf;
  }

  /** The call spares every live page and every page it has mapped itself; known before the call. */
  ghost predicate Harmless(a: Sys, ids: Ids, first: nat, n: nat) {
    var i := FirstFit(ids, n, 0);
    AllSpared(StoreOf(a), first, Live(ids), i < |ids|, i, n)
  }

  /** What valloc did: one range more, and n frames taken and mapped from its first page on; or, when
      nothing fits, the same ids and the frames mapped from page 0 on. */
  ghost predicate Valloced(a: Sys, b: Sys, was: Ids, now: Ids, first: nat, addr: nat, i: nat, n: nat) {
    && (addr == 0 <==> NoFit(was, n))
    && now == AfterAlloc(was, n) && (addr != 0 ==> RangeAdded(was, now, i, n))
    && TookPages(a, b, first, Live(was), addr != 0, i, n) && Safer(a, b, first, |was|, addr != 0, i, n)
  }

  lemma VallocedIs(a: Sys, b: Sys, was: Ids, now: Ids, first: nat, addr: nat, i: nat, n: nat)
    requires addr == 0 ==> NoFit(was, n)
    requires addr != 0 ==> RangeAdded(was, now, i, n)
    requires now == AfterAlloc(was, n)
    requires TookPages(a, b, first, Live(was), addr != 0, i, n) && Safer(a, b, first, |was|, addr != 0, i, n)
    ensures Valloced(a, b, was, now, first, addr, i, n)
  {
    hide TookPages, Safer, AfterAlloc, Ranges, Live;
  }

  lemma VallocKept(a: Sys, b: Sys, was: Ids, now: Ids, first: nat, addr: nat, i: nat, n: nat)
    requires TookPages(a, b, first, Live(was), addr != 0, i, n) && Backed(a, first, Live(was))
    requires i == FirstFit(was, n, 0) && (addr == 0 <==> i == |was|)
    requires addr == 0 ==> now == was
    requires addr != 0 ==> Live(now) == Live(was) + Pages(i, n)
    ensures Backed(b, first, Live(now)) && Unmoved(a, b, first, Live(was)) <==> Harmless(a, was, first, n)
  {
    FirstFitBound(was, n);
    AddedIs(Live(was), addr != 0, i, n);
    hide *;
    KeptExactly(a, b, first, Live(was), addr != 0, i, n);
    HarmlessIs(a, was, first, n);
  }

  lemma FirstFitBound(ids: Ids, n: nat)
    ensures FirstFit(ids, n, 0) <= |ids|
  {}

  lemma AddedIs(live: set<nat>, found: bool, i: nat, n: nat)
    ensures live + Added(found, i, n) == if found then live + Pages(i, n) else live
  {}

  lemma VallocTagged(a: Sys, b: Sys, was: Ids, now: Ids, first: nat, addr: nat, i: nat, n: nat, flags: nat)
    requires Wrote(a, b, first, Live(was), addr != 0, i, n, flags) && Tagged(a, first, Live(was), flags)
    requires i == FirstFit(was, n, 0) && (addr == 0 <==> i == |was|)
    requires addr == 0 ==> now == was
    requires addr != 0 ==> Live(now) == Live(was) + Pages(i, n)
    ensures Harmless(a, was, first, n) ==> Tagged(b, first, Live(now), flags)
  {
    FirstFitBound(was, n);
    AddedIs(Live(was), addr != 0, i, n);
    hide *;
    WroteIs(a, b, first, Live(was), addr != 0, i, n, flags);
    HarmlessIs(a, was, first, n);
  }

  /** Freeing changes no entry. */
  lemma TaggedFreed(a: Sys, b: Sys, first: nat, was: Ids, now: Ids, s: nat, n: nat, flags: nat)
    requires Tagged(a, first, Live(was), flags) && s < |was| && now == AfterFree(was, s)
    requires b == Returned(a, first, Pages(s, n))
    ensures Tagged(b, first, Live(now), flags)
  {
    LiveLess(was, now, s);
    hide AfterFree, Live, FramesOf;
    forall j: nat ensures FrameOf(b, first, j) == FrameOf(a, first, j) && LeafOf(b, first, j) == LeafOf(a, first, j) {
      SameFrame(a, b, first, j);
      SameLeaf(a, b, first + j);
    }
    hide FrameOf, LeafOf;
    forall j | j in Live(now) ensures LeafOf(b, first, j) == FrameOf(b, first, j) * PAGE_SIZE + flags {
      assert LeafOf(a, first, j) == FrameOf(a, first, j) * PAGE_SIZE + flags;
    }
  }

  lemma LiveLess(was: Ids, now: Ids, s: nat)
    requires s < |was| && now == AfterFree(was, s)
    ensures Live(now) <= Live(was)
  {
    hide RunLength;
  }

  lemma NothingAsked(a: Sys, ids: Ids, first: nat)
    ensures Harmless(a, ids, first, 0) && Unmoved(a, a, first, Live(ids))
  {}

  lemma LinksSelf(a: Sys)
    requires Valid(a)
    ensures LinksStay(a, a)
  {
    hide Mmu.Writing, Mmu.Linking, Linked;
  }

  lemma FreeLinks(a: Sys, b: Sys, was: Ids, now: Ids, first: nat, s: nat, n: nat)
    requires Vfreed(a, b, was, now, first, s, n) && Valid(a)
    ensures LinksStay(a, b)
  {
    hide Live, Ranges, Starts, Stock, FramesOf, RunLength, AfterFree, Linked;
    assert forall x :: Link(b, x) == Link(a, x);
    hide Link;
  }

  lemma TookFree(z: Sys, a: Sys, first: nat, live: set<nat>, found: bool, i: nat, k: nat)
    requires TookPages(z, a, first, live, found, i, k)
    ensures a.free <= z.free && a.limit == z.limit && (k == 0 ==> a.free == z.free)
  {
    hide Stock, Fresher, Progress, AllSpared;
  }

  lemma TookStock(z: Sys, a: Sys, first: nat, live: set<nat>, found: bool, i: nat, k: nat)
    requires TookPages(z, a, first, live, found, i, k)
    ensures Stock(a) + k == Stock(z)
  {
    hide Stock, Fresher, Progress, AllSpared, StoreAt;
  }

  lemma TookTame(z: Sys, a: Sys, first: nat, live: set<nat>, found: bool, i: nat, k: nat, blocks: nat)
    requires TookPages(z, a, first, live, found, i, k) && Tame(z, first, blocks) && first + blocks <= PAGES && Valid(z)
    ensures Tame(a, first, blocks)
  {
    hide FrameOf, Stock, Progress, AllSpared, StoreAt, Shape, Linked;
  }

  lemma VallocedFits(a: Sys, b: Sys, was: Ids, now: Ids, first: nat, addr: nat, i: nat, n: nat)
    requires Valloced(a, b, was, now, first, addr, i, n) && !NoFit(was, n) && Safe(a, first, |was|)
    ensures addr != 0 && TookPages(a, b, first, Live(was), true, i, n) && Safe(b, first, |now|) && |now| == |was|
    ensures now == AfterAlloc(was, n) && Live(now) == Live(was) + Pages(i, n) && i + n <= |was|
  {
    AllocLength(was, n);
    hide Safe, FrameOf, TookPages, Live, Ranges, NoFit, AfterAlloc, Unmoved, Least;
  }

  /** The page of a live block that the loop from address 0 reaches is lost. */
  lemma FailedMoves(a: Sys, b: Sys, was: Ids, now: Ids, first: nat, addr: nat, i: nat, n: nat)
    requires Valloced(a, b, was, now, first, addr, i, n) && NoFit(was, n) && 0 < first < n && first < PAGES
    requires Backed(a, first, Live(was)) && 0 in Live(was)
    ensures addr == 0 && now == was && FrameOf(b, first, 0) != FrameOf(a, first, 0)
  {
    NoAlloc(was, n);
    hide FrameOf, Stock, Progress, AllSpared, StoreAt, Safer, AfterAlloc, NoFit, RangeAdded;
    assert FrameOf(b, first, 0) in a.free;
  }

  lemma RangeAddedLive(was: Ids, now: Ids, i: nat, n: nat)
    ensures RangeAdded(was, now, i, n) ==>
              Live(now) == Live(was) + Pages(i, n) && Pages(i, n) !! Live(was) && i + n <= |was|
  {
    hide Live, Ranges;
  }

  /** The lowest block from i on at which n blocks fit; the number of blocks when there is none. */
  function FirstFit(ids: Ids, n: nat, i: nat): (r: nat)
    requires i <= |ids|
    ensures i <= r <= |ids| && (r < |ids| ==> Fits(ids, r, n)) && forall j: nat :: i <= j < r ==> !Fits(ids, j, n)
    decreases |ids| - i
  {
    if i < |ids| && !Fits(ids, i, n) then FirstFit(ids, n, i + 1) else i
  }

  /** The ids after bm_alloc of n blocks, with the repaired accessors. */
  ghost function AfterAlloc(ids: Ids, n: nat): Ids {
    var i := FirstFit(ids, n, 0);
    if n == 0 || i == |ids| then ids else Paint(ids, i, n, ChosenId(Repaired, ids, i, n))
  }

  lemma AllocIs(ids: Ids, n: nat, i: nat)
    requires n > 0 && Fits(ids, i, n) && forall j: nat :: j < i ==> !Fits(ids, j, n)
    ensures AfterAlloc(ids, n) == Paint(ids, i, n, ChosenId(Repaired, ids, i, n))
  {
    hide Paint, ChosenId;
    assert FirstFit(ids, n, 0) == i;
  }

  lemma FirstFitIs(ids: Ids, n: nat, i: nat)
    requires if i == |ids| then NoFit(ids, n) else Fits(ids, i, n) && forall j: nat :: j < i ==> !Fits(ids, j, n)
    ensures i == FirstFit(ids, n, 0)
  {}

  lemma NoAlloc(ids: Ids, n: nat)
    requires NoFit(ids, n)
    ensures AfterAlloc(ids, n) == ids
  {
    hide Paint, ChosenId;
  }

  lemma InitTagged(a: Sys, b: Sys, first: nat, pages: nat, flags: nat)
    requires Wrote(a, b, first, {}, true, 0, pages, flags)
    ensures AllSpared(StoreOf(a), first, {}, true, 0, pages) ==> Tagged(b, first, Pages(0, pages), flags)
  {
    hide *;
    WroteIs(a, b, first, {}, true, 0, pages, flags);
    AddedIs({}, true, 0, pages);
    assert {} + Pages(0, pages) == Pages(0, pages);
    NothingTagged(a, first, flags);
  }

  lemma NothingTagged(a: Sys, first: nat, flags: nat)
    ensures Tagged(a, first, {}, flags)
  {}

  lemma TaggedAt(a: Sys, first: nat, live: set<nat>, flags: nat, j: nat)
    requires Tagged(a, first, live, flags) && j in live
    ensures LeafOf(a, first, j) == FrameOf(a, first, j) * PAGE_SIZE + flags
  {
    hide FrameOf, LeafOf;
  }

  lemma FrameSmall(a: Sys, first: nat, live: set<nat>, j: nat)
    requires Backed(a, first, live) && j in live && Valid(a)
    ensures FrameOf(a, first, j) < 0x100_0000_0000
  {
    hide FrameOf, Tables, Shape, Linked;
  }

  lemma EntryBits(f: nat, flags: nat)
    requires flags == 3 || flags == 7
    ensures var e := f * PAGE_SIZE + flags;
            e % 2 == 1 && e / 2 % 2 == 1 && (e / 4 % 2 == 1 <==> flags == 7) && e / 4096 == f
  {
    Mmu.FlagBits(f, flags);
    Mmu.FrameBits(f, flags);
  }

  lemma GrantsIs(e: nat, user: bool)
    ensures Mmu.Grants(e, user) == if e % 2 == 0 then Mmu.Fault
                                   else Mmu.Access(e / 4096 % 0x100_0000_0000, e / 2 % 2 == 1, user && e / 4 % 2 == 1)
  {}

  lemma TaggedSubset(a: Sys, first: nat, live: set<nat>, some: set<nat>, flags: nat)
    requires Tagged(a, first, live, flags) && some <= live
    ensures Tagged(a, first, some, flags)
  {
    hide FrameOf, LeafOf;
  }

  /** The first region of pages and ids. */
  lemma PagesMore(m: nat, n: nat)
    requires m <= n
    ensures Pages(0, m) <= Pages(0, n)
  {}

  lemma IdsBacked(a: Sys, b: Sys, first: nat, pages: nat)
    requires TookPages(a, b, first, {}, true, 0, pages)
    ensures Backed(b, first, Pages(0, pages)) <==> AllSpared(StoreOf(a), first, {}, true, 0, pages)
    ensures pages <= 1 ==> AllSpared(StoreOf(a), first, {}, true, 0, pages)
    ensures Stock(b) + pages == Stock(a)
  {
    hide *;
    TookStock(a, b, first, {}, true, 0, pages);
    OneSpared(StoreOf(a), first, pages);
    NothingBacked(a, first);
    AddedIs({}, true, 0, pages);
    assert {} + Pages(0, pages) == Pages(0, pages);
    KeptExactly(a, b, first, {}, true, 0, pages);
    UnmovedNone(a, b, first);
  }

  lemma UnmovedNone(a: Sys, b: Sys, first: nat)
    ensures Unmoved(a, b, first, {})
  {}

  lemma OneSpared(p: Store, first: nat, pages: nat)
    ensures pages <= 1 ==> AllSpared(p, first, {}, true, 0, pages)
  {
    hide TablesOf, StoreAt;
  }

  /** In a region within the first 512 pages, all served by one table of leaves, the first page mapped
      provides for all. */
  lemma InitSafe(a: Sys, b: Sys, first: nat, blocks: nat, pages: nat)
    requires TookPages(a, b, first, {}, true, 0, pages) && Safer(a, b, first, blocks, true, 0, pages)
    requires 0 < first && pages <= blocks && (blocks > 0 ==> pages > 0)
    ensures Safe(a, first, blocks) ==> Safe(b, first, blocks) && AllSpared(StoreOf(a), first, {}, true, 0, pages)
    ensures first + blocks <= 512 ==> Safe(b, first, blocks)
  {
    TookStore(a, b, first, {}, true, 0, pages);
    SafeParts(a, first, blocks);
    SafeParts(b, first, blocks);
    hide Safe, AllSpared, TookPages, FrameOf, StoreAt, Path, Unmoved;
    if Safe(a, first, blocks) { SafeSparesIf(StoreOf(a), first, blocks, {}, true, 0, pages); }
    if first + blocks <= 512 && pages > 0 {
      FirstTabled(StoreOf(a), first, pages);
      forall q: nat | 0 < q < first + blocks ensures Path(q) <= StoreOf(b).keys { OnePath(q, first); }
    }
  }

  lemma TookStore(z: Sys, a: Sys, first: nat, live: set<nat>, found: bool, i: nat, k: nat)
    requires TookPages(z, a, first, live, found, i, k)
    ensures StoreOf(a) == StoreAt(StoreOf(z), From(first, found, i), k)
  {
    hide Stock, Fresher, Progress, AllSpared, StoreAt;
  }

  lemma {:induction false} FirstTabled(p: Store, v: nat, k: nat)
    requires 0 < k && 0 < v
    ensures Path(v) <= StoreAt(p, v, k).keys
    decreases k
  {
    hide TablesOf, Path, Paths;
    if k > 1 { FirstTabled(p, v, k - 1); }
  }

  lemma OnePath(q: nat, v: nat)
    requires q < 512 && v < 512
    ensures Path(q) == Path(v)
  {
    PathIs(q);
    PathIs(v);
  }

  ghost function Live(ids: Ids): set<nat> {
    set j | 0 <= j < |ids| && ids[j] != 0
  }

  lemma SomeIds(blocks: nat)
    requires 0 < blocks <= PAGES
    ensures DivCeil(DivCeil(blocks, BLOCKS_PER_INT), PAGE_SIZE) > 0
  {}

  /** The pages init_vmm maps hold the blocks the ids need, and are not more than the region. */
  lemma IdPages(n: nat)
    requires n <= PAGES
    ensures BmBlocks(n * PAGE_SIZE, PAGE_SIZE) <= DivCeil(n, PAGE_SIZE) <= n
    ensures n > 0 ==> DivCeil(n, PAGE_SIZE) > 0
    ensures n <= PAGE_SIZE ==> DivCeil(n, PAGE_SIZE) <= 1
  {}

  /** A range that bm_alloc found, or the whole region's first pages. */
  ghost predicate RangeIs(addr: nat, n: nat, i: nat, first: nat, live: set<nat>, blocks: nat, u: set<Slot>) {
    && addr != 0 && Page(addr) == first + i && i + n <= blocks && addr + n * PAGE_SIZE <= TWO_64
    && Pages(i, n) !! live && Paths(Pages(first + i, n)) <= u
  }

  lemma RangeReserved(addr: nat, n: nat, i: nat, first: nat, live: set<nat>, blocks: nat, u: set<Slot>)
    requires addr != 0 && Page(addr) == first + i && i + n <= blocks && addr + n * PAGE_SIZE <= TWO_64
    requires Pages(i, n) !! live && Paths(Pages(first + i, n)) <= u
    ensures RangeIs(addr, n, i, first, live, blocks, u)
  {
    hide Page, Paths;
  }

  lemma WholeRange(base: nat, n: nat, first: nat, blocks: nat, u: set<Slot>)
    requires 0 < base && Page(base) == first && n <= blocks && base + blocks * PAGE_SIZE < TWO_64
    requires Paths(Pages(first, blocks)) <= u
    ensures RangeIs(base, n, 0, first, {}, blocks, u)
  {
    PathsWithin(first, n, first, blocks);
    hide Page, Paths;
  }

  /** Page k of the loop: behind block i + k, or from address 0 at page k itself. */
  lemma AddressStep(addr: nat, n: nat, i: nat, k: nat, first: nat, virtual: nat, live: set<nat>, blocks: nat,
                    u: set<Slot>)
    requires k < n <= PAGES && virtual == (addr + k * PAGE_SIZE) % TWO_64 && 0 < first && first + blocks <= PAGES
    requires if addr == 0 then Paths(Pages(0, n)) <= u else RangeIs(addr, n, i, first, live, blocks, u)
    requires forall j :: j in live ==> first + j < PAGES
    ensures virtual < TWO_64 && Page(virtual) == From(first, addr != 0, i) + k
    ensures virtual != 0 ==> Page(virtual) != 0
    ensures Page(virtual) != 0 ==> Path(Page(virtual)) <= u
    ensures StepFits(first, live, addr != 0, i, k) && (addr != 0 ==> i + k < blocks)
  {
    hide *;
    FromIs(first, addr != 0, i);
    if addr != 0 {
      RangePage(addr, n, i, k, first, virtual, live, blocks, u);
    } else {
      FirstPages(n, k, virtual, first, live, i, u);
    }
  }

  lemma FromIs(first: nat, found: bool, i: nat)
    ensures From(first, found, i) == if found then first + i else 0
  {}

  lemma RangePage(addr: nat, n: nat, i: nat, k: nat, first: nat, virtual: nat, live: set<nat>, blocks: nat, u: set<Slot>)
    requires k < n && virtual == (addr + k * PAGE_SIZE) % TWO_64 && 0 < first && first + blocks <= PAGES
    requires RangeIs(addr, n, i, first, live, blocks, u) && forall j :: j in live ==> first + j < PAGES
    ensures virtual < TWO_64 && Page(virtual) == first + i + k && Path(Page(virtual)) <= u
    ensures StepFits(first, live, true, i, k) && i + k < blocks
  {
    hide Paths, Path;
    PageOfRange(addr, addr, k);
    PathInPaths(first + i + k, Pages(first + i, n));
  }

  lemma FirstPages(n: nat, k: nat, virtual: nat, first: nat, live: set<nat>, i: nat, u: set<Slot>)
    requires k < n <= PAGES && virtual == (k * PAGE_SIZE) % TWO_64 && Paths(Pages(0, n)) <= u
    requires 0 < first && forall j :: j in live ==> first + j < PAGES
    ensures virtual < TWO_64 && Page(virtual) == k && (virtual != 0 ==> k != 0) && Path(k) <= u
    ensures StepFits(first, live, false, i, k)
  {
    PagesBelow(k, n);
    hide *;
    SmallPage(k);
    PathInPaths(k, Pages(0, n));
    FitsNowhere(first, live, i, k);
  }

  lemma PagesBelow(k: nat, n: nat)
    requires k < n <= PAGES
    ensures k in Pages(0, n) && k < PAGES && TWO_64 > 0 && PAGE_SIZE > 0
  {}

  lemma SmallPage(k: nat)
    requires k < PAGES
    ensures k * PAGE_SIZE % TWO_64 == k * PAGE_SIZE < TWO_64 && Page(k * PAGE_SIZE) == k
    ensures k == 0 ==> k * PAGE_SIZE == 0
  {}

  lemma FitsNowhere(first: nat, live: set<nat>, i: nat, k: nat)
    requires k < PAGES && 0 < first && forall j :: j in live ==> first + j < PAGES
    ensures StepFits(first, live, false, i, k)
  {}

  lemma VirtualPage(addr: nat, k: nat, n: nat, page: nat, virtual: nat)
    requires k < n && addr + n * PAGE_SIZE < TWO_64 + PAGE_SIZE && Page(addr) == page && page + n <= PAGES
    requires virtual == (addr + k * PAGE_SIZE) % TWO_64
    ensures Page(virtual) == page + k && virtual < TWO_64
  {
    assert addr + k * PAGE_SIZE < TWO_64;
  }

  /** The page of an address inside block s of the region. */
  lemma PageOfBlock(base: nat, addr: nat, s: nat, n: nat, blocks: nat, size: nat)
    requires base % PAGE_SIZE == 0 && base <= addr && s == (addr - base) / PAGE_SIZE
    requires s + n <= blocks && blocks * PAGE_SIZE <= size && base + size < TWO_64 && Page(base) + blocks <= PAGES
    requires n > 0
    ensures Page(addr) == Page(base) + s && addr + n * PAGE_SIZE < TWO_64 + PAGE_SIZE
  {}

  lemma MakeTaken(a: Sys, b: Sys, c: Sys, q: nat, f: nat, flags: nat)
    requires Least(f, a.free) && b == a.(free := a.free - {f})
    requires q == 0 ==> c == b
    requires q != 0 ==> Extends(b, c, Path(q), map[q := f * PAGE_SIZE + flags]) && Draws(b, c, Path(q))
    ensures PageTaken(a, c, q, flags)
  {
    hide Extends, Draws, Path;
    assert f == NextFree(a.free);
  }

  lemma EnoughNonempty(a: Sys, u: set<Slot>, n: nat)
    requires EnoughFor(a, u, n) && n > 0
    ensures a.free != {}
  {}
}