/** What the processor makes of page tables (section 4.5 of the Intel SDM, Volume 3A): the walk over four
    levels of words in memory, with the present, writable and user bits of every entry. */
module Mmu {
  import opened Bits
  import opened KernelH
  import opened PageTree

  datatype Access = Fault | Access(frame: nat, writable: bool, user: bool)

  /** The 9-bit index into a table of level l. */
  function Index9(q: nat, l: nat): nat {
    (if l == 4 then q / 0x800_0000 else if l == 3 then q / 0x4_0000 else if l == 2 then q / 512 else q) % 512
  }

  /** The walk for virtual page q from a table of level l in frame f.  Bit 0 of an entry says that it is
      present, bit 1 that it may be written through, bit 2 that user code may go through it; bits 12 to 51
      are the next frame. */
  function WalkFrom(m: Memory, f: nat, q: nat, l: nat, writable: bool, user: bool): Access
    requires 1 <= l <= 4
    decreases l
  {
    var e := Entry(m, f, Index9(q, l));
    var frame, w, u := e / 4096 % 0x100_0000_0000, writable && e / 2 % 2 == 1, user && e / 4 % 2 == 1;
    if e % 2 == 0 then Fault
    else if l == 1 then Access(frame, w, u)
    else WalkFrom(m, frame, q, l - 1, w, u)
  }

  /** From the root table, in frame `root`. */
  function Walk(m: Memory, root: nat, q: nat): Access {
    WalkFrom(m, root, q, 4, true, true)
  }

  /** What a leaf entry gives when all links above it may be written and, if user is set, used. */
  function Grants(e: nat, user: bool): Access {
    if e % 2 == 0 then Fault else Access(e / 4096 % 0x100_0000_0000, e / 2 % 2 == 1, user && e / 4 % 2 == 1)
  }

  /** Every link is present, may be written through, and may be used by user code or not. */
  ghost predicate Linking(a: Sys, user: bool) {
    forall s {:trigger Link(a, s)} :: s in a.tree && s.level < 4 ==>
      Link(a, s) % 2 == 1 && Link(a, s) / 2 % 2 == 1 && (Link(a, s) / 4 % 2 == 1 <==> user)
  }

  /** Every link is present and may be written through. */
  ghost predicate Writing(a: Sys) {
    forall s {:trigger Link(a, s)} :: s in a.tree && s.level < 4 ==> Link(a, s) % 2 == 1 && Link(a, s) / 2 % 2 == 1
  }

  lemma LinkingWrites(a: Sys, user: bool)
    requires Linking(a, user)
    ensures Writing(a)
  {
    hide Link;
  }

  lemma IndexIs9(q: nat, l: nat)
    requires q < PAGES && 1 <= l <= 4
    ensures Index9(q, l) == Prefix(q, l - 1) % 512
  {
    PathIs(q);
    QuotientsOf(q);
    assert Prefix(q, 0) == q;
  }

  lemma QuotientsOf(q: nat)
    ensures q / 0x4_0000 == q / 512 / 512 && q / 0x800_0000 == q / 512 / 512 / 512
  {
    hide *;
  }

  /** One level: the entry read at page q's table is the link of the next table, or not present. */
  lemma Level(a: Sys, q: nat, l: nat)
    requires Valid(a) && Writing(a) && 1 <= l <= 3 && At(q, l + 1) in a.tree
    ensures var e := Entry(a.mem, a.tree[At(q, l + 1)], Prefix(q, l) % 512);
            && (e % 2 == 1 <==> At(q, l) in a.tree)
            && (At(q, l) in a.tree ==>
                  e / 4096 % 0x100_0000_0000 == a.tree[At(q, l)] && e / 2 % 2 == 1 && Link(a, At(q, l)) == e)
  {
    StepIs(a, q, l);
    ParentOf(q, l);
    hide Valid, Prefix;
    if At(q, l) in a.tree { assert Link(a, At(q, l)) == Entry(a.mem, a.tree[At(q, l + 1)], Prefix(q, l) % 512); }
  }

  /** From any table on the page's path the walk ends at the leaf of the page; whether user code may take it
      depends on the links. */
  lemma {:induction false} WalkEnds(a: Sys, q: nat, l: nat, user: bool) returns (u: bool)
    requires Valid(a) && Writing(a) && q < PAGES && 1 <= l <= 4 && At(q, l) in a.tree
    ensures WalkFrom(a.mem, a.tree[At(q, l)], q, l, true, user) == Grants(Leaf(a, q), u)
    ensures user && Linking(a, true) ==> Grants(Leaf(a, q), u) == Grants(Leaf(a, q), true)
    ensures !user || (l == 4 && Linking(a, false)) ==> Grants(Leaf(a, q), u) == Grants(Leaf(a, q), false)
    decreases l
  {
    hide *;
    if l == 1 {
      u := user;
      LeafEnds(a, q, user);
    } else if At(q, l - 1) in a.tree {
      var e := Entry(a.mem, a.tree[At(q, l)], Index9(q, l));
      GoesOn(a, q, l, user, e);
      u := WalkEnds(a, q, l - 1, user && e / 4 % 2 == 1);
    } else {
      u := user;
      Stops(a, q, l, user);
      NoLeaf(a, q, l - 1);
    }
  }

  lemma LeafEnds(a: Sys, q: nat, user: bool)
    requires q < PAGES && At(q, 1) in a.tree
    ensures WalkFrom(a.mem, a.tree[At(q, 1)], q, 1, true, user) == Grants(Leaf(a, q), user)
  {
    hide *;
    IndexIs9(q, 1);
    WalkFromIs(a.mem, a.tree[At(q, 1)], q, 1, user);
    LeafIs(a, q);
  }

  lemma GoesOn(a: Sys, q: nat, l: nat, user: bool, e: nat)
    requires Valid(a) && Writing(a) && q < PAGES && 2 <= l <= 4 && At(q, l) in a.tree && At(q, l - 1) in a.tree
    requires e == Entry(a.mem, a.tree[At(q, l)], Index9(q, l))
    ensures WalkFrom(a.mem, a.tree[At(q, l)], q, l, true, user) ==
            WalkFrom(a.mem, a.tree[At(q, l - 1)], q, l - 1, true, user && e / 4 % 2 == 1)
    ensures Linking(a, true) ==> e / 4 % 2 == 1
    ensures Linking(a, false) ==> e / 4 % 2 == 0
  {
    hide *;
    IndexIs9(q, l);
    WalkFromIs(a.mem, a.tree[At(q, l)], q, l, user);
    Level(a, q, l - 1);
    LevelUser(a, q, l - 1);
  }

  lemma Stops(a: Sys, q: nat, l: nat, user: bool)
    requires Valid(a) && Writing(a) && q < PAGES && 2 <= l <= 4 && At(q, l) in a.tree && At(q, l - 1) !in a.tree
    ensures WalkFrom(a.mem, a.tree[At(q, l)], q, l, true, user) == Fault
  {
    hide *;
    IndexIs9(q, l);
    WalkFromIs(a.mem, a.tree[At(q, l)], q, l, user);
    Level(a, q, l - 1);
  }

  lemma LevelUser(a: Sys, q: nat, l: nat)
    requires At(q, l) in a.tree && 1 <= l <= 3
    ensures Linking(a, true) ==> Link(a, At(q, l)) / 4 % 2 == 1
    ensures Linking(a, false) ==> Link(a, At(q, l)) / 4 % 2 == 0
  {
    hide Link, Prefix;
  }

  lemma LeafIs(a: Sys, q: nat)
    requires At(q, 1) in a.tree
    ensures Leaf(a, q) == Entry(a.mem, a.tree[At(q, 1)], Prefix(q, 0) % 512)
  {
    assert Prefix(q, 0) == q;
  }

  /** Without a table at some level there is no leaf. */
  lemma NoLeaf(a: Sys, q: nat, l: nat)
    requires Valid(a) && 1 <= l <= 3 && At(q, l) !in a.tree
    ensures Leaf(a, q) == 0 && forall u :: Grants(0, u) == Fault
    decreases l
  {
    if l > 1 {
      NoneBelow(a, q, l - 1);
      hide Valid, Leaf, Prefix;
      NoLeaf(a, q, l - 1);
    }
  }

  lemma WalkFromIs(m: Memory, f: nat, q: nat, l: nat, user: bool)
    requires 1 <= l <= 4
    ensures var e := Entry(m, f, Index9(q, l));
            && (e % 2 == 0 ==> WalkFrom(m, f, q, l, true, user) == Fault && forall u :: Grants(e, u) == Fault)
            && (e % 2 == 1 && l == 1 ==> WalkFrom(m, f, q, l, true, user) == Grants(e, user))
            && (e % 2 == 1 && l > 1 && e / 2 % 2 == 1 ==>
                  WalkFrom(m, f, q, l, true, user) ==
                  WalkFrom(m, e / 4096 % 0x100_0000_0000, q, l - 1, true, user && e / 4 % 2 == 1))
            && (l == 1 ==> WalkFrom(m, f, q, l, true, user) == Grants(e, user))
  {
    hide Entry, Index9;
  }

  /** The processor's walk over a tree of tables ends at the leaf of the page. */
  lemma WalkIs(a: Sys, q: nat, user: bool)
    requires Valid(a) && Linking(a, user) && q < PAGES
    ensures ROOT in a.tree && Walk(a.mem, a.tree[ROOT], q) == Grants(Leaf(a, q), user)
  {
    hide *;
    LinkingWrites(a, user);
    RootAt(a, q);
    var u := WalkEnds(a, q, 4, true);
    WalkRoot(a.mem, a.tree[ROOT], q);
  }

  lemma RootAt(a: Sys, q: nat)
    requires Valid(a) && q < PAGES
    ensures ROOT in a.tree && At(q, 4) == ROOT
  {
    PathIs(q);
  }

  lemma WalkRoot(m: Memory, root: nat, q: nat)
    ensures Walk(m, root, q) == WalkFrom(m, root, q, 4, true, true)
  {}

  /** In a tree whose links are mixed, as the kernel's, the frame and the right to write are still the
      leaf's, and a supervisor page is one. */
  lemma WalkMixed(a: Sys, q: nat)
    requires Valid(a) && Writing(a) && q < PAGES
    ensures ROOT in a.tree
    ensures Leaf(a, q) % 2 == 0 ==> Walk(a.mem, a.tree[ROOT], q) == Fault
    ensures Leaf(a, q) % 2 == 1 && Leaf(a, q) / 4 % 2 == 0 ==>
              Walk(a.mem, a.tree[ROOT], q) == Access(Leaf(a, q) / 4096 % 0x100_0000_0000, Leaf(a, q) / 2 % 2 == 1, false)
  {
    hide Valid, Writing, Leaf, WalkFrom, Linking;
    RootAt(a, q);
    var u := WalkEnds(a, q, 4, true);
  }

  /** What translate_addr reports is the frame that the processor finds, if it finds one. */
  lemma FrameFound(a: Sys, q: nat)
    requires Valid(a) && Writing(a) && q < PAGES
    ensures ROOT in a.tree
    ensures var x := Walk(a.mem, a.tree[ROOT], q); x != Fault ==> x.frame * 4096 == Translation(a, q)
  {
    hide Valid, Writing, Leaf, WalkFrom, Linking;
    RootAt(a, q);
    var u := WalkEnds(a, q, 4, true);
  }

  /** New tables are linked like the old ones. */
  lemma LinkingKept(a: Sys, b: Sys, slots: set<Slot>, over: map<nat, nat>, user: bool)
    requires Valid(a) && Linking(a, user) && Extends(a, b, slots, over)
    requires a.link / 2 % 2 == 1 && (a.link / 4 % 2 == 1 <==> user)
    ensures Linking(b, user) && b.tree[ROOT] == a.tree[ROOT]
  {
    hide *;
    ExtendsLinks(a, b, slots, over);
    forall s {:trigger Link(b, s)} | s in b.tree && s.level < 4
      ensures Link(b, s) % 2 == 1 && Link(b, s) / 2 % 2 == 1 && (Link(b, s) / 4 % 2 == 1 <==> user)
    {
      if s in a.tree { LinkingAt(a, s, user); } else { FlagBits(b.tree[s], a.link); }
    }
    MakeLinking(b, user);
  }

  lemma ExtendsLinks(a: Sys, b: Sys, slots: set<Slot>, over: map<nat, nat>)
    requires Valid(a) && Extends(a, b, slots, over)
    ensures ROOT in a.tree && ROOT in b.tree && b.tree[ROOT] == a.tree[ROOT] && a.link < PAGE_SIZE && a.link % 2 == 1
    ensures forall s {:trigger Link(b, s)} :: s in b.tree && s.level < 4 ==>
              Link(b, s) == if s in a.tree then Link(a, s) else b.tree[s] * PAGE_SIZE + a.link
  {
    hide Link, LeavesAre, Untouched, Linked;
  }

  lemma LinkingAt(a: Sys, s: Slot, user: bool)
    requires Linking(a, user) && s in a.tree && s.level < 4
    ensures Link(a, s) % 2 == 1 && Link(a, s) / 2 % 2 == 1 && (Link(a, s) / 4 % 2 == 1 <==> user)
  {
    hide Link;
  }

  lemma MakeLinking(a: Sys, user: bool)
    requires forall s {:trigger Link(a, s)} :: s in a.tree && s.level < 4 ==>
               Link(a, s) % 2 == 1 && Link(a, s) / 2 % 2 == 1 && (Link(a, s) / 4 % 2 == 1 <==> user)
    ensures Linking(a, user)
  {
    hide Link;
  }

  lemma FlagBits(f: nat, flags: nat)
    requires flags < PAGE_SIZE
    ensures (f * PAGE_SIZE + flags) % 2 == flags % 2
    ensures (f * PAGE_SIZE + flags) / 2 % 2 == flags / 2 % 2 && (f * PAGE_SIZE + flags) / 4 % 2 == flags / 4 % 2
  {
    assert f * PAGE_SIZE + flags == 4096 * f + flags;
    LowBits(f, flags, 4096 * f + flags);
  }

  lemma LowBits(f: nat, flags: nat, e: nat)
    requires e == 4096 * f + flags
    ensures e % 2 == flags % 2 && e / 2 % 2 == flags / 2 % 2 && e / 4 % 2 == flags / 4 % 2
  {
    hide *;
    Halve(2048 * f, flags);
    Halve(1024 * f, flags / 2);
    Halve(512 * f, flags / 2 / 2);
    Quarter(e);
    Quarter(flags);
  }

  lemma Halve(x: nat, y: nat)
    ensures (2 * x + y) / 2 == x + y / 2 && (2 * x + y) % 2 == y % 2
  {}

  lemma Quarter(e: nat)
    ensures e / 4 == e / 2 / 2
  {}

  /** After an extension, the walk for every page: explicitly mapped pages as their entries say, new tables'
      pages to those tables, supervisor and writable, every other page as before. */
  lemma WalkAfter(a: Sys, b: Sys, slots: set<Slot>, over: map<nat, nat>, q: nat, user: bool)
    requires Valid(a) && Linking(a, user) && Extends(a, b, slots, over) && q < PAGES
    requires a.link / 2 % 2 == 1 && (a.link / 4 % 2 == 1 <==> user)
    ensures ROOT in a.tree && Walk(b.mem, a.tree[ROOT], q) ==
              if q in over then Grants(over[q], user)
              else if q in Taken(a, b) then Access(q, true, false)
              else Walk(a.mem, a.tree[ROOT], q)
  {
    hide *;
    LinkingKept(a, b, slots, over, user);
    ExtendsValid(a, b, slots, over);
    WalkIs(a, q, user);
    WalkIs(b, q, user);
    LeafAfter(a, b, slots, over, q);
    ExpectedIs(a, Taken(a, b), over, q);
    TableGrants(q, user);
  }

  lemma ExtendsValid(a: Sys, b: Sys, slots: set<Slot>, over: map<nat, nat>)
    requires Extends(a, b, slots, over)
    ensures Valid(b)
  {}

  lemma ExpectedIs(a: Sys, taken: set<nat>, over: map<nat, nat>, q: nat)
    ensures Expected(a, taken, over, q) == if q in over then over[q]
                                           else if q in taken then q * PAGE_SIZE + KERNEL_PT_ENTRY else Leaf(a, q)
  {}

  lemma TableGrants(q: nat, user: bool)
    requires q < PAGES
    ensures Grants(q * PAGE_SIZE + KERNEL_PT_ENTRY, user) == Access(q, true, false)
  {
    LinkFlags(q, KERNEL_PT_ENTRY);
    FlagBits(q, KERNEL_PT_ENTRY);
  }

  lemma WritingKept(a: Sys, b: Sys, slots: set<Slot>, over: map<nat, nat>)
    requires Valid(a) && Writing(a) && Extends(a, b, slots, over) && a.link / 2 % 2 == 1
    ensures Writing(b)
  {
    hide *;
    ExtendsLinks(a, b, slots, over);
    forall s {:trigger Link(b, s)} | s in b.tree && s.level < 4
      ensures Link(b, s) % 2 == 1 && Link(b, s) / 2 % 2 == 1
    {
      if s in a.tree { WritingAt(a, s); } else { FlagBits(b.tree[s], a.link); }
    }
    MakeWriting(b);
  }

  lemma WritingAt(a: Sys, s: Slot)
    requires Writing(a) && s in a.tree && s.level < 4
    ensures Link(a, s) % 2 == 1 && Link(a, s) / 2 % 2 == 1
  {
    hide Link;
  }

  lemma MakeWriting(a: Sys)
    requires forall s {:trigger Link(a, s)} :: s in a.tree && s.level < 4 ==>
               Link(a, s) % 2 == 1 && Link(a, s) / 2 % 2 == 1
    ensures Writing(a)
  {
    hide Link;
  }

  /** What map_addr writes into a leaf: the frame of the address, with the flags' bits. */
  lemma EntryGrants(physical: nat, flags: nat, user: bool)
    requires physical < TWO_64 && flags < PAGE_SIZE && flags % 2 == 1
    ensures Grants(Or(AlignAddr(physical), flags), user) ==
            Access(physical / 4096 % 0x100_0000_0000, flags / 2 % 2 == 1, user && flags / 4 % 2 == 1)
  {
    hide Or, AlignAddr;
    AlignAddrIs(physical);
    EntryIs(AlignAddr(physical), flags);
    FlagBits(physical / PAGE_SIZE, flags);
    FrameBits(physical / PAGE_SIZE, flags);
  }

  lemma FrameBits(f: nat, flags: nat)
    requires flags < PAGE_SIZE
    ensures (f * PAGE_SIZE + flags) / 4096 == f
  {
    assert f * PAGE_SIZE + flags == 4096 * f + flags;
  }

  /** Page v was mapped, the frames `tables` became page tables, and nothing else changed for the
      processor. */
  ghost predicate OnlyPage(m: Memory, m': Memory, root: nat, v: nat, x: Access, tables: set<nat>) {
    forall q: nat :: q < 0x10_0000_0000 ==>
      Walk(m', root, q) == if q == v then x else if q in tables then Access(q, true, false) else Walk(m, root, q)
  }

  /** That is what mapping one page comes to. */
  lemma PageWalks(a: Sys, b: Sys, v: nat, physical: nat, flags: nat, user: bool)
    requires Valid(a) && Linking(a, user) && v < PAGES && physical < TWO_64 && flags < PAGE_SIZE && flags % 2 == 1
    requires a.link / 2 % 2 == 1 && (a.link / 4 % 2 == 1 <==> user)
    requires Extends(a, b, Path(v), map[v := Or(AlignAddr(physical), flags)])
    ensures Linking(b, user) && ROOT in a.tree
    ensures OnlyPage(a.mem, b.mem, a.tree[ROOT], v,
                     Access(physical / 4096 % 0x100_0000_0000, flags / 2 % 2 == 1, user && flags / 4 % 2 == 1),
                     a.free - b.free)
  {
    hide *;
    var over := map[v := Or(AlignAddr(physical), flags)];
    LinkingKept(a, b, Path(v), over, user);
    ExtendsLinks(a, b, Path(v), over);
    EntryGrants(physical, flags, user);
    TakenFrames(a, b, Path(v), over);
    PagesIs();
    var x := Access(physical / 4096 % 0x100_0000_0000, flags / 2 % 2 == 1, user && flags / 4 % 2 == 1);
    forall q: nat | q < 0x10_0000_0000
      ensures Walk(b.mem, a.tree[ROOT], q) ==
                if q == v then x else if q in a.free - b.free then Access(q, true, false)
                else Walk(a.mem, a.tree[ROOT], q)
    {
      WalkAfter(a, b, Path(v), over, q, user);
    }
    MakeOnlyPage(a.mem, b.mem, a.tree[ROOT], v, x, a.free - b.free);
  }

  lemma PagesIs()
    ensures PAGES == 0x10_0000_0000
  {}

  lemma TakenFrames(a: Sys, b: Sys, slots: set<Slot>, over: map<nat, nat>)
    requires Extends(a, b, slots, over)
    ensures a.free - b.free == Taken(a, b)
  {
    assert Grows(a, b, slots);
    hide Extends, Taken;
  }

  lemma MakeOnlyPage(m: Memory, m': Memory, root: nat, v: nat, x: Access, tables: set<nat>)
    requires forall q: nat :: q < 0x10_0000_0000 ==>
               Walk(m', root, q) == if q == v then x else if q in tables then Access(q, true, false) else Walk(m, root, q)
    ensures OnlyPage(m, m', root, v, x, tables)
  {
    hide Walk;
  }
}
