/** Four-level page tables as trees, independent of the code that builds them.

    A table is named by its slot: its level (4 for the root, 1 for the tables that hold leaves) and
    the page-number prefix it serves.  A ghost map from slots to frames describes which frames are
    tables.  A map gives a slot one frame, so asking that it be injective says that no frame is
    linked from two entries or at two levels. */
module PageTree {
  import opened Bits
  import opened KernelH

  /** Physical memory as seen by the paging code: the written words by frame and index. */
  type Memory = map<(nat, nat), nat>

  datatype Slot = Slot(level: nat, prefix: nat)

  type Tree = map<Slot, nat>

  const ROOT := Slot(4, 0)

  function Entry(m: Memory, f: nat, i: nat): nat {
    if (f, i) in m then m[(f, i)] else 0
  }

  /** The page number without its last `level` base-512 digits. */
  function Prefix(q: nat, level: nat): nat {
    if level == 0 then q else Prefix(q, level - 1) / 512
  }

  /** The slot of the level-`level` table that serves page q. */
  function At(q: nat, level: nat): Slot {
    Slot(level, Prefix(q, level))
  }

  function Parent(s: Slot): Slot { Slot(s.level + 1, s.prefix / 512) }
  function Index(s: Slot): nat { s.prefix % 512 }
  function Child(s: Slot, i: nat): Slot
    requires s.level > 0
  {
    Slot(s.level - 1, s.prefix * 512 + i)
  }

  /** The slots of the three tables below the root on the path to page q. */
  function Path(q: nat): set<Slot> { {At(q, 1), At(q, 2), At(q, 3)} }

  lemma PathIs(q: nat)
    ensures At(q, 0) == Slot(0, q) && At(q, 1) == Slot(1, q / 512)
    ensures At(q, 2) == Slot(2, q / 512 / 512) && At(q, 3) == Slot(3, q / 512 / 512 / 512)
    ensures q < PAGES ==> At(q, 4) == ROOT
  {
    assert Prefix(q, 1) == q / 512;
    assert Prefix(q, 2) == q / 512 / 512;
    assert Prefix(q, 3) == q / 512 / 512 / 512;
  }

  function Paths(frames: set<nat>): set<Slot> {
    set f, l | f in frames && l in {1, 2, 3} :: At(f, l)
  }

  /** Memory, the set of free frames, the tables of one root, the number of managed frames, and the
      flags that links to new tables carry. */
  datatype Sys = Sys(mem: Memory, free: set<nat>, tree: Tree, limit: nat, link: nat)

  ghost predicate Shape(t: Tree) {
    && ROOT in t
    && (forall s :: s in t ==> 1 <= s.level <= 4)
    && (forall s :: s in t && s.level == 4 ==> s == ROOT)
    && (forall s {:trigger Parent(s)} :: s in t && s.level < 4 ==> Parent(s) in t)
    && (forall s, s' :: s in t && s' in t && t[s] == t[s'] ==> s == s')
  }

  /** Every present entry of a table above level 1 links the table of its slot, and no other does. */
  ghost predicate Linked(m: Memory, t: Tree)
    requires Shape(t)
  {
    && (forall s {:trigger Parent(s)} :: s in t && s.level < 4 ==>
          Entry(m, t[Parent(s)], Index(s)) % 2 == 1 && Frame(Entry(m, t[Parent(s)], Index(s))) == t[s])
    && (forall s, i: nat :: s in t && s.level > 1 && i < 512 && Entry(m, t[s], i) % 2 == 1 ==> Child(s, i) in t)
  }

  ghost predicate Valid(a: Sys) {
    && Shape(a.tree)
    && Linked(a.mem, a.tree)
    && a.limit <= PAGES && a.link < PAGE_SIZE && a.link % 2 == 1
    && (forall s :: s in a.tree ==> 0 < a.tree[s] < a.limit && a.tree[s] !in a.free)
    && (forall f :: f in a.free ==> 0 < f < a.limit)
  }

  /** The level-1 entry that decides page q, or 0 when no level-1 table serves it. */
  function Leaf(a: Sys, q: nat): nat {
    if At(q, 1) in a.tree then Entry(a.mem, a.tree[At(q, 1)], q % 512) else 0
  }

  /** The entry that links the table of slot s into its parent. */
  function Link(a: Sys, s: Slot): nat {
    if Parent(s) in a.tree then Entry(a.mem, a.tree[Parent(s)], Index(s)) else 0
  }

  /** What page q maps to after the frames `taken` were identity-mapped and `over` was mapped. */
  function Expected(a: Sys, taken: set<nat>, over: map<nat, nat>, q: nat): nat {
    if q in over then over[q]
    else if q in taken then q * PAGE_SIZE + KERNEL_PT_ENTRY
    else Leaf(a, q)
  }

  function Tables(a: Sys): set<nat> { a.tree.Values }

  function Taken(a: Sys, b: Sys): set<nat> { Tables(b) - Tables(a) }

  /** The added tables: on the paths `slots`, on the paths that identity-map the added tables, and
      nowhere else; their frames were free. */
  ghost predicate Grows(a: Sys, b: Sys, slots: set<Slot>) {
    && b.limit == a.limit && b.link == a.link
    && (forall s :: s in a.tree ==> s in b.tree && b.tree[s] == a.tree[s])
    && Taken(a, b) <= a.free
    && b.free == a.free - Taken(a, b)
    && b.tree.Keys == a.tree.Keys + slots + Paths(Taken(a, b))
  }

  ghost predicate LeavesAre(a: Sys, b: Sys, taken: set<nat>, over: map<nat, nat>) {
    forall q: nat :: q < PAGES ==> Leaf(b, q) == Expected(a, taken, over, q)
  }

  /** Old links are kept word for word; new ones carry the link flags. */
  ghost predicate LinksKept(a: Sys, b: Sys) {
    forall s {:trigger Link(b, s)} :: s in b.tree && s.level < 4 ==>
      Link(b, s) == if s in a.tree then Link(a, s) else b.tree[s] * PAGE_SIZE + a.link
  }

  ghost predicate Untouched(a: Sys, b: Sys) {
    forall f: nat, i: nat :: f !in Tables(b) ==> Entry(b.mem, f, i) == Entry(a.mem, f, i)
  }

  /** b is a with page tables added and the pages of `over` mapped as it says: every other page,
      every other link and every word outside b's tables is as it was, except that each frame taken
      as a table is identity-mapped. */
  ghost predicate Extends(a: Sys, b: Sys, slots: set<Slot>, over: map<nat, nat>) {
    && Valid(b)
    && Grows(a, b, slots)
    && LeavesAre(a, b, Taken(a, b), over)
    && LinksKept(a, b)
    && Untouched(a, b)
  }

  lemma ExtendsSelf(a: Sys, slots: set<Slot>)
    requires Valid(a) && slots <= a.tree.Keys
    ensures Extends(a, a, slots, map[])
  {}

  lemma PathsUnion(x: set<nat>, y: set<nat>)
    ensures Paths(x + y) == Paths(x) + Paths(y)
  {}

  lemma PathsMonotone(x: set<nat>, y: set<nat>)
    requires x <= y
    ensures Paths(x) <= Paths(y)
  {
    PathsUnion(x, y);
    assert x + y == y;
  }

  lemma PathsAdd(n: nat, x: set<nat>)
    ensures Paths({n} + x) == Path(n) + Paths(x)
  {
    PathsUnion({n}, x);
    assert Paths({n}) == Path(n);
  }

  lemma TakenTrans(a: Sys, b: Sys, c: Sys, s1: set<Slot>, s2: set<Slot>)
    requires Grows(a, b, s1) && Grows(b, c, s2)
    ensures Taken(a, c) == Taken(a, b) + Taken(b, c)
    ensures Tables(a) <= Tables(b) <= Tables(c)
  {
    forall s | s in a.tree ensures a.tree[s] in Tables(b) { assert b.tree[s] in Tables(b); }
    forall s | s in b.tree ensures b.tree[s] in Tables(c) { assert c.tree[s] in Tables(c); }
  }

  lemma GrowsTrans(a: Sys, b: Sys, c: Sys, s1: set<Slot>, s2: set<Slot>)
    requires Grows(a, b, s1) && Grows(b, c, s2)
    ensures Grows(a, c, s1 + s2)
  {
    TakenTrans(a, b, c, s1, s2);
    PathsUnion(Taken(a, b), Taken(b, c));
  }

  lemma LeavesTrans(a: Sys, b: Sys, c: Sys, t1: set<nat>, o1: map<nat, nat>, t2: set<nat>, o2: map<nat, nat>)
    requires LeavesAre(a, b, t1, o1) && LeavesAre(b, c, t2, o2)
    ensures LeavesAre(a, c, t1 + t2, (o1 - t2) + o2)
  {
    forall q: nat | q < PAGES
      ensures Leaf(c, q) == Expected(a, t1 + t2, (o1 - t2) + o2, q)
    {
      assert Leaf(c, q) == Expected(b, t2, o2, q);
      assert Leaf(b, q) == Expected(a, t1, o1, q);
    }
  }

  lemma KeptTrans(a: Sys, b: Sys, c: Sys, s1: set<Slot>, s2: set<Slot>)
    requires Grows(a, b, s1) && Grows(b, c, s2)
    requires LinksKept(a, b) && LinksKept(b, c) && Untouched(a, b) && Untouched(b, c)
    ensures LinksKept(a, c) && Untouched(a, c)
  {
    TakenTrans(a, b, c, s1, s2);
  }

  /** Two extensions in a row are one.  A page mapped by the first keeps its entry unless the second
      maps it again or takes the frame of that number as a table. */
  lemma ExtendsTrans(a: Sys, b: Sys, c: Sys, s1: set<Slot>, o1: map<nat, nat>, s2: set<Slot>, o2: map<nat, nat>)
    requires Extends(a, b, s1, o1) && Extends(b, c, s2, o2)
    ensures Extends(a, c, s1 + s2, (o1 - Taken(b, c)) + o2)
    ensures Taken(a, c) == Taken(a, b) + Taken(b, c)
  {
    TakenTrans(a, b, c, s1, s2);
    GrowsTrans(a, b, c, s1, s2);
    LeavesTrans(a, b, c, Taken(a, b), o1, Taken(b, c), o2);
    KeptTrans(a, b, c, s1, s2);
  }

  /** Memory after frame n was linked from word (parent, i) and then cleared. */
  ghost predicate TableLinked(m: Memory, m': Memory, parent: nat, i: nat, n: nat, link: nat) {
    forall f: nat, j: nat ::
      Entry(m', f, j) == if f == n && j < 512 then 0
                         else if f == parent && j == i then n * PAGE_SIZE + link
                         else Entry(m, f, j)
  }

  /** The code's two steps, a store into the parent and then clearing the frame, do that. */
  lemma LinkedThenCleared(m: Memory, m': Memory, parent: nat, i: nat, n: nat, link: nat)
    requires forall f: nat, j: nat :: Entry(m', f, j) ==
               if f == n && j < 512 then 0 else Entry(m[(parent, i) := n * PAGE_SIZE + link], f, j)
    ensures TableLinked(m, m', parent, i, n, link)
  {}

  ghost predicate CanAdd(a: Sys, s: Slot, n: nat) {
    && 1 <= s.level <= 3 && s !in a.tree && Parent(s) in a.tree && n in a.free
  }

  lemma SameSlot(s: Slot, s': Slot)
    requires Parent(s) == Parent(s') && Index(s) == Index(s')
    ensures s == s'
  {}

  lemma LinkFlags(n: nat, flags: nat)
    requires n < PAGES && flags < PAGE_SIZE
    ensures (n * PAGE_SIZE + flags) % 2 == flags % 2 && Frame(n * PAGE_SIZE + flags) == n
  {
    assert n * PAGE_SIZE + flags == 4096 * n + flags;
    LinkParts(n, flags, 4096 * n + flags);
  }

  lemma LinkParts(n: nat, flags: nat, e: nat)
    requires flags < 4096 && e == 4096 * n + flags
    ensures e / 4096 == n && e % 2 == flags % 2
  {
    hide *;
    assert e == 2 * (2048 * n) + flags;
  }

  /** b is a after the free frame n was taken, linked as the table of slot s, and cleared. */
  ghost predicate Adds(a: Sys, b: Sys, s: Slot, n: nat) {
    && CanAdd(a, s, n)
    && TableLinked(a.mem, b.mem, a.tree[Parent(s)], Index(s), n, a.link)
    && b == a.(mem := b.mem, free := a.free - {n}, tree := a.tree[s := n])
  }

  lemma AddedShape(t: Tree, s: Slot, n: nat)
    requires Shape(t) && 1 <= s.level <= 3 && s !in t && Parent(s) in t && n !in t.Values
    ensures Shape(t[s := n])
  {
    assert forall x :: x in t ==> t[x] in t.Values;
  }

  /** No other slot's link shares the word of s. */
  lemma OtherLink(a: Sys, b: Sys, s: Slot, n: nat, x: Slot)
    requires Valid(a) && Adds(a, b, s, n)
    requires x in a.tree && x.level < 4
    ensures Parent(x) in a.tree && Link(b, x) == Link(a, x)
  {
    var p, p' := Parent(x), Parent(s);
    assert a.tree[p] != n;
    if a.tree[p] == a.tree[p'] && Index(x) == Index(s) {
      SameSlot(x, s);
      assert false;
    }
  }

  /** A cleared frame linked into an empty entry gives a valid tree with one more table. */
  lemma AddedIsValid(a: Sys, b: Sys, s: Slot, n: nat)
    requires Valid(a) && Adds(a, b, s, n)
    ensures Valid(b)
  {
    LinkFlags(n, a.link);
    AddedShape(a.tree, s, n);
    forall x {:trigger Parent(x)} | x in b.tree && x.level < 4
      ensures Link(b, x) % 2 == 1 && Frame(Link(b, x)) == b.tree[x]
    {
      if x != s { OtherLink(a, b, s, n, x); }
    }
    forall x, i: nat | x in b.tree && x.level > 1 && i < 512 && Entry(b.mem, b.tree[x], i) % 2 == 1
      ensures Child(x, i) in b.tree
    {
      assert x in a.tree;
      if x == Parent(s) && i == Index(s) { assert Child(x, i) == s; }
    }
  }

  lemma AddedTables(a: Sys, b: Sys, s: Slot, n: nat)
    requires Valid(a) && Adds(a, b, s, n)
    ensures Tables(b) == Tables(a) + {n} && Taken(a, b) == {n}
  {
    assert b.tree[s] == n;
    forall f | f in Tables(a) ensures f in Tables(b) {
      var x :| x in a.tree && a.tree[x] == f;
      assert b.tree[x] == f;
    }
  }

  /** It changes no leaf and no other link. */
  lemma AddedKeeps(a: Sys, b: Sys, s: Slot, n: nat)
    requires Valid(a) && Adds(a, b, s, n)
    ensures LeavesAre(a, b, {}, map[]) && LinksKept(a, b) && Untouched(a, b)
  {
    AddedTables(a, b, s, n);
    forall x {:trigger Link(b, x)} | x in b.tree && x.level < 4
      ensures Link(b, x) == if x in a.tree then Link(a, x) else b.tree[x] * PAGE_SIZE + a.link
    {
      if x != s { OtherLink(a, b, s, n, x); }
    }
    forall q: nat | q < PAGES
      ensures Leaf(b, q) == Leaf(a, q)
    {
      if At(q, 1) in a.tree { assert a.tree[At(q, 1)] != a.tree[Parent(s)]; }
    }
  }

  /** Linking an added table and then identity-mapping it is an extension by that one slot. */
  lemma AddedAndMapped(a: Sys, b: Sys, c: Sys, s: Slot, n: nat)
    requires Valid(a) && Adds(a, b, s, n)
    requires Extends(b, c, Path(n), map[n := n * PAGE_SIZE + KERNEL_PT_ENTRY])
    ensures Extends(a, c, {s}, map[])
  {
    AddedKeeps(a, b, s, n);
    AddedTaken(a, b, c, s, n);
    AddedTables(a, b, s, n);
    assert Grows(a, c, {s}) by { AddedGrows(a, b, c, s, n); }
    assert LinksKept(a, c) && Untouched(a, c) by { AddedLinks(a, b, c, s, n); }
    AddedLeaves(a, b, c, n);
  }

  lemma AddedTaken(a: Sys, b: Sys, c: Sys, s: Slot, n: nat)
    requires Valid(a) && Adds(a, b, s, n) && Grows(b, c, Path(n))
    ensures Tables(b) <= Tables(c) && Taken(a, c) == {n} + Taken(b, c)
  {
    AddedTables(a, b, s, n);
    forall x | x in b.tree ensures b.tree[x] in Tables(c) { assert c.tree[x] in Tables(c); }
    forall f | f in Tables(b) ensures f in Tables(c) {
      var x :| x in b.tree && b.tree[x] == f;
    }
  }

  lemma AddedGrows(a: Sys, b: Sys, c: Sys, s: Slot, n: nat)
    requires n in a.free
    requires b.limit == a.limit && b.link == a.link && b.free == a.free - {n} && b.tree.Keys == a.tree.Keys + {s}
    requires forall x :: x in a.tree ==> x in b.tree && b.tree[x] == a.tree[x]
    requires Taken(a, c) == {n} + Taken(b, c)
    requires Grows(b, c, Path(n))
    ensures Grows(a, c, {s})
  {
    PathsAdd(n, Taken(b, c));
    assert c.free == a.free - Taken(a, c);
  }

  lemma AddedLinks(a: Sys, b: Sys, c: Sys, s: Slot, n: nat)
    requires b == a.(mem := b.mem, free := a.free - {n}, tree := a.tree[s := n])
    requires Tables(b) <= Tables(c) && Grows(b, c, Path(n)) && Shape(c.tree)
    requires LinksKept(a, b) && LinksKept(b, c) && Untouched(a, b) && Untouched(b, c)
    ensures LinksKept(a, c) && Untouched(a, c)
  {}

  lemma AddedLeaves(a: Sys, b: Sys, c: Sys, n: nat)
    requires LeavesAre(a, b, {}, map[])
    requires LeavesAre(b, c, Taken(b, c), map[n := n * PAGE_SIZE + KERNEL_PT_ENTRY])
    requires Taken(a, c) == {n} + Taken(b, c)
    ensures LeavesAre(a, c, Taken(a, c), map[])
  {
    forall q: nat | q < PAGES
      ensures Leaf(c, q) == Expected(a, Taken(a, c), map[], q)
    {
      assert Leaf(c, q) == Expected(b, Taken(b, c), map[n := n * PAGE_SIZE + KERNEL_PT_ENTRY], q);
      assert Leaf(b, q) == Expected(a, {}, map[], q);
    }
  }

  /** Writing the leaf of a page whose tables exist maps that page and nothing else. */
  lemma LeafWritten(a: Sys, b: Sys, v: nat, e: nat)
    requires Valid(a) && v < PAGES && At(v, 1) in a.tree
    requires b == a.(mem := a.mem[(a.tree[At(v, 1)], v % 512) := e])
    ensures Extends(a, b, {}, map[v := e])
  {
    var p1 := a.tree[At(v, 1)];
    assert Taken(a, b) == {} && Paths({}) == {};
    forall q: nat | q < PAGES
      ensures Leaf(b, q) == Expected(a, {}, map[v := e], q)
    {
      if At(q, 1) in a.tree && q != v && q % 512 == v % 512 && a.tree[At(q, 1)] == p1 {
        assert At(q, 1) == At(v, 1);
        PathIs(q);
        PathIs(v);
        assert false;
      }
    }
    LeafKeepsLinks(a, b, v, e);
  }

  lemma LeafKeepsLinks(a: Sys, b: Sys, v: nat, e: nat)
    requires Valid(a) && v < PAGES && At(v, 1) in a.tree
    requires b == a.(mem := a.mem[(a.tree[At(v, 1)], v % 512) := e])
    ensures Valid(b) && LinksKept(a, b)
  {
    forall x {:trigger Parent(x)} | x in b.tree && x.level < 4
      ensures Link(b, x) == Link(a, x)
    {
      assert a.tree[Parent(x)] != a.tree[At(v, 1)];
    }
  }

  lemma ExtendsTables(a: Sys, b: Sys, s: Slot, over: map<nat, nat>)
    requires Extends(a, b, {s}, over)
    ensures Valid(b) && s in b.tree && forall x :: x in a.tree ==> x in b.tree && b.tree[x] == a.tree[x]
  {}

  /** The three levels of one path added in turn are one extension by that path. */
  lemma PathAdded(a: Sys, b3: Sys, b2: Sys, b1: Sys, q: nat)
    requires Extends(a, b3, {At(q, 3)}, map[]) && Extends(b3, b2, {At(q, 2)}, map[])
    requires Extends(b2, b1, {At(q, 1)}, map[])
    ensures Extends(a, b1, Path(q), map[])
  {
    hide Extends;
    var none: map<nat, nat> := map[];
    ExtendsTrans(a, b3, b2, {At(q, 3)}, none, {At(q, 2)}, none);
    assert none - Taken(b3, b2) + none == none;
    ExtendsTrans(a, b2, b1, {At(q, 3)} + {At(q, 2)}, none, {At(q, 1)}, none);
    assert none - Taken(b2, b1) + none == none;
    assert {At(q, 3)} + {At(q, 2)} + {At(q, 1)} == Path(q);
  }

  /** Its leaf written, the page is mapped. */
  lemma PageMapped(a: Sys, b: Sys, c: Sys, q: nat, e: nat)
    requires q < PAGES && At(q, 1) in b.tree && c == b.(mem := b.mem[(b.tree[At(q, 1)], q % 512) := e])
    requires Valid(b) && Extends(a, b, Path(q), map[])
    ensures Extends(a, c, Path(q), map[q := e]) && Valid(c)
  {
    hide Extends, Path, Valid;
    LeafKeepsLinks(b, c, q, e);
    LeafWritten(b, c, q, e);
    var none: map<nat, nat> := map[];
    ExtendsTrans(a, b, c, Path(q), none, {}, map[q := e]);
    assert Path(q) + {} == Path(q);
    assert none - Taken(b, c) + map[q := e] == map[q := e];
  }

  /** The four indices map_addr computes lead down the path of the page. */
  lemma WalkIndices(virtual: nat)
    requires virtual < TWO_64
    ensures var q, v := Page(virtual), AlignAddr(virtual);
            && q < PAGES && At(q, 4) == ROOT && {At(q, 1), At(q, 2), At(q, 3)} == Path(q)
            && P4Entry(v) == Prefix(q, 3) % 512 && P3Entry(v) == Prefix(q, 2) % 512
            && P2Entry(v) == Prefix(q, 1) % 512 && P1Entry(v) == q % 512
  {
    hide AlignAddr, P1Entry, P2Entry, P3Entry, P4Entry;
    IndicesOfAligned(virtual);
    PathIs(Page(virtual));
  }

  lemma WalkUnaligned(v: nat)
    ensures var q := Page(v);
            && q < PAGES && At(q, 4) == ROOT && {At(q, 1), At(q, 2), At(q, 3)} == Path(q)
            && P4Entry(v) == Prefix(q, 3) % 512 && P3Entry(v) == Prefix(q, 2) % 512
            && P2Entry(v) == Prefix(q, 1) % 512 && P1Entry(v) == q % 512
  {
    hide P1Entry, P2Entry, P3Entry, P4Entry;
    IndicesAre(v);
    PathIs(Page(v));
  }

  // ---- How many frames are needed -------------------------------------------------------------

  /** Every slot that mapping pages of `slots` could ever need lies in u, and each one still without
      a table can be given a free frame. */
  ghost predicate Enough(a: Sys, u: set<Slot>) {
    Paths(a.free) <= u && |u - a.tree.Keys| <= |a.free|
  }

  lemma ValuesWithout(t: Tree, s: Slot)
    requires s in t && forall x, y :: x in t && y in t && t[x] == t[y] ==> x == y
    ensures t.Values == (t - {s}).Values + {t[s]} && t[s] !in (t - {s}).Values
  {
    var r := t - {s};
    forall f | f in t.Values ensures f in r.Values + {t[s]} {
      var x :| x in t && t[x] == f;
      if x != s { assert r[x] == f; }
    }
  }

  lemma {:induction false} CountTables(t: Tree)
    requires forall s, s' :: s in t && s' in t && t[s] == t[s'] ==> s == s'
    ensures |t.Values| == |t.Keys|
  {
    if t.Keys != {} {
      var s :| s in t;
      var r := t - {s};
      CountTables(r);
      assert t.Keys == r.Keys + {s};
      ValuesWithout(t, s);
    } else {
      assert t.Values == {};
    }
  }

  /** An extension turns free frames into tables one for one. */
  lemma TablesConserved(a: Sys, b: Sys, slots: set<Slot>)
    requires Valid(a) && Valid(b) && Grows(a, b, slots)
    ensures |b.tree.Keys - a.tree.Keys| == |Taken(a, b)| == |a.free| - |b.free|
    ensures |Tables(b)| + |b.free| == |Tables(a)| + |a.free|
  {
    CountTables(a.tree);
    CountTables(b.tree);
    assert Tables(a) <= Tables(b) by {
      forall s | s in a.tree ensures a.tree[s] in Tables(b) { assert b.tree[s] in Tables(b); }
    }
    Difference(Tables(b), Tables(a));
    Difference(b.tree.Keys, a.tree.Keys);
    Difference(a.free, Taken(a, b));
  }

  lemma Difference<T>(x: set<T>, y: set<T>)
    requires y <= x
    ensures |x - y| == |x| - |y|
  {
    assert x == (x - y) + y;
  }

  lemma Subset<T>(x: set<T>, y: set<T>)
    requires x <= y
    ensures |x| <= |y|
  {
    Difference(y, x);
  }

  lemma PathsSplit(x: set<nat>, y: set<nat>, taken: set<nat>)
    requires taken <= x && y == x - taken
    ensures Paths(x) == Paths(y) + Paths(taken)
  {
    PathsUnion(y, taken);
    assert x == y + taken;
  }

  lemma CountDown(u: set<Slot>, k: set<Slot>, k': set<Slot>)
    requires k <= k' <= k + u
    ensures |u - k'| == |u - k| - |k' - k|
  {
    assert u - k' == (u - k) - (k' - k);
    Difference(u - k, k' - k);
  }

  lemma EnoughToAdd(a: Sys, s: Slot, u: set<Slot>)
    requires Enough(a, u) && s in u && s !in a.tree
    ensures a.free != {}
  {
    assert s in u - a.tree.Keys;
  }

  lemma EnoughAfterAdd(a: Sys, b: Sys, s: Slot, n: nat, u: set<Slot>)
    requires Enough(a, u) && s in u && s !in a.tree && n in a.free
    requires b.free == a.free - {n} && b.tree.Keys == a.tree.Keys + {s}
    ensures Enough(b, u) && Path(n) <= u
  {
    PathsSplit(a.free, b.free, {n});
    PathsAdd(n, {});
    assert {n} + {} == {n};
    assert b.tree.Keys - a.tree.Keys == {s};
    CountDown(u, a.tree.Keys, b.tree.Keys);
  }

  /** Everything map_addr needs to know between linking a new table and identity-mapping it: memory
      holds the new link in the word the missing table's entry was read from, and a cleared frame. */
  lemma LinkStep(a: Sys, b: Sys, s: Slot, n: nat, table: nat, new_: nat)
    requires Valid(a) && CanAdd(a, s, n)
    requires table == a.tree[Parent(s)] * PAGE_SIZE && new_ == n * PAGE_SIZE
    requires b == a.(mem := b.mem, free := a.free - {n}, tree := a.tree[s := n])
    requires forall f: nat, j: nat :: Entry(b.mem, f, j) ==
               if f == new_ / PAGE_SIZE && j < 512 then 0
               else Entry(a.mem[(table / PAGE_SIZE, Index(s)) := Or(new_, a.link)], f, j)
    ensures Adds(a, b, s, n) && Valid(b)
    ensures b.tree[ROOT] == a.tree[ROOT] && 0 < n < PAGES
  {
    var parent := a.tree[Parent(s)];
    assert n < PAGES && table / PAGE_SIZE == parent && new_ / PAGE_SIZE == n;
    EntryIs(new_, a.link);
    hide Valid, Or;
    LinkedThenCleared(a.mem, b.mem, parent, Index(s), n, a.link);
    AddedIsValid(a, b, s, n);
  }

  /** When every free frame's page already has its three tables, mapping a page takes at most three
      frames, all of them for that page's own path: no table is added for another table. */
  lemma AtMostThree(a: Sys, b: Sys, v: nat)
    requires Valid(a) && Valid(b) && Grows(a, b, Path(v))
    requires Paths(a.free) <= a.tree.Keys
    ensures b.tree.Keys == a.tree.Keys + Path(v)
    ensures |Taken(a, b)| == |Path(v) - a.tree.Keys| <= 3
    ensures Paths(b.free) <= b.tree.Keys
  {
    hide Grows;
    OnlyOwnPath(a, b, v);
    assert |Taken(a, b)| == |b.tree.Keys - a.tree.Keys| by { TablesConserved(a, b, Path(v)); }
    Subset(Path(v) - a.tree.Keys, Path(v));
  }

  lemma OnlyOwnPath(a: Sys, b: Sys, v: nat)
    requires Grows(a, b, Path(v)) && Paths(a.free) <= a.tree.Keys
    ensures b.tree.Keys == a.tree.Keys + Path(v) && b.tree.Keys - a.tree.Keys == Path(v) - a.tree.Keys
    ensures Paths(b.free) <= b.tree.Keys
  {
    PathsSplit(a.free, b.free, Taken(a, b));
    OnlyPath(a.tree.Keys, b.tree.Keys, Path(v), Paths(Taken(a, b)));
  }

  lemma OnlyPath(k: set<Slot>, k': set<Slot>, path: set<Slot>, more: set<Slot>)
    requires k' == k + path + more && more <= k
    ensures k' == k + path && k' - k == path - k
  {}

  // ---- Walking the tree -----------------------------------------------------------------------

  /** The entry for page q in the table that serves it at level l + 1. */
  function Step(a: Sys, q: nat, l: nat): nat
    requires At(q, l + 1) in a.tree
  {
    Entry(a.mem, a.tree[At(q, l + 1)], Prefix(q, l) % 512)
  }

  /** The present bit of that entry says whether the next table exists, and the entry names it. */
  lemma StepIs(a: Sys, q: nat, l: nat)
    requires Valid(a) && 1 <= l <= 3 && At(q, l + 1) in a.tree
    ensures Step(a, q, l) % 2 == 1 <==> At(q, l) in a.tree
    ensures At(q, l) in a.tree ==> Frame(Step(a, q, l)) == a.tree[At(q, l)]
  {
    assert Prefix(q, l + 1) == Prefix(q, l) / 512;
    assert Parent(At(q, l)) == At(q, l + 1);
    if Step(a, q, l) % 2 == 1 {
      assert Child(At(q, l + 1), Prefix(q, l) % 512) == At(q, l);
    }
  }

  /** The code's two uses of that entry: `entry & 1` and `entry & SIGN_MASK`. */
  lemma FollowEntry(a: Sys, q: nat, l: nat)
    requires Valid(a) && 1 <= l <= 3 && At(q, l + 1) in a.tree
    ensures And(Step(a, q, l), 1) == 0 <==> At(q, l) !in a.tree
    ensures At(q, l) in a.tree ==> And(Step(a, q, l), SIGN_MASK) == a.tree[At(q, l)] * PAGE_SIZE
  {
    hide And;
    StepIs(a, q, l);
    PresentIs(Step(a, q, l));
    SignMaskIs(Step(a, q, l));
  }

  lemma ParentOf(q: nat, l: nat)
    ensures Parent(At(q, l)) == At(q, l + 1) && Index(At(q, l)) == Prefix(q, l) % 512
  {
    assert Prefix(q, l + 1) == Prefix(q, l) / 512;
  }

  /** A page with no table at some level has none below. */
  lemma NoneBelow(a: Sys, q: nat, l: nat)
    requires Valid(a) && 1 <= l <= 3 && At(q, l + 1) !in a.tree
    ensures At(q, l) !in a.tree
  {
    assert Prefix(q, l + 1) == Prefix(q, l) / 512;
    assert Parent(At(q, l)) == At(q, l + 1);
  }

  // ---- What an extension means for translation ----------------------------------------------------

  /** The address translate_addr reports for page q: 0 when some table on its path is missing. */
  function Translation(a: Sys, q: nat): nat {
    Frame(Leaf(a, q)) * PAGE_SIZE
  }

  /** Every table's frame is mapped to itself, supervisor and writable. */
  ghost predicate SelfMapped(a: Sys) {
    forall f :: f in Tables(a) ==> Leaf(a, f) == f * PAGE_SIZE + KERNEL_PT_ENTRY
  }

  lemma LeafAfter(a: Sys, b: Sys, slots: set<Slot>, over: map<nat, nat>, q: nat)
    requires Extends(a, b, slots, over) && q < PAGES
    ensures Leaf(b, q) == Expected(a, Taken(a, b), over, q)
  {}

  /** One mapping: its page translates to the aligned physical address, every frame taken as a table
      translates to itself, and every other page translates as before. */
  lemma MappingTranslates(a: Sys, b: Sys, v: nat, physical: nat, flags: nat)
    requires Valid(a) && v < PAGES && physical < 0x10_0000_0000_0000 && flags < PAGE_SIZE
    requires Extends(a, b, Path(v), map[v := Or(AlignAddr(physical), flags)])
    ensures Translation(b, v) == AlignAddr(physical)
    ensures forall f :: f in Taken(a, b) && f != v ==> Translation(b, f) == f * PAGE_SIZE
    ensures forall q: nat :: q < PAGES && q != v && q !in Taken(a, b) ==> Translation(b, q) == Translation(a, q)
  {
    hide Or, AlignAddr, Leaf, Extends, Valid, Taken, Frame;
    var over := map[v := Or(AlignAddr(physical), flags)];
    TakenBound(a, b, Path(v), over);
    EntryFrame(physical, flags);
    LeafAfter(a, b, Path(v), over, v);
    forall f | f in Taken(a, b) && f != v ensures Translation(b, f) == f * PAGE_SIZE {
      LeafAfter(a, b, Path(v), over, f);
      LinkFlags(f, KERNEL_PT_ENTRY);
    }
    forall q: nat | q < PAGES && q != v && q !in Taken(a, b) ensures Translation(b, q) == Translation(a, q) {
      LeafAfter(a, b, Path(v), over, q);
    }
  }

  lemma EntryFrame(physical: nat, flags: nat)
    requires physical < 0x10_0000_0000_0000 && flags < PAGE_SIZE
    ensures Frame(Or(AlignAddr(physical), flags)) * PAGE_SIZE == AlignAddr(physical)
  {
    hide Or, AlignAddr;
    AlignAddrIs(physical);
    EntryIs(AlignAddr(physical), flags);
  }

  lemma TakenBound(a: Sys, b: Sys, slots: set<Slot>, over: map<nat, nat>)
    requires Valid(a) && Extends(a, b, slots, over)
    ensures forall f :: f in Taken(a, b) ==> 0 < f < PAGES
  {}

  /** Tables stay self-mapped exactly when no explicit mapping changes the page of one of them. */
  lemma SelfMappedKept(a: Sys, b: Sys, slots: set<Slot>, over: map<nat, nat>)
    requires Valid(a) && SelfMapped(a) && Extends(a, b, slots, over)
    ensures SelfMapped(b) <==> forall f :: f in over.Keys && f in Tables(b) ==> over[f] == f * PAGE_SIZE + KERNEL_PT_ENTRY
  {
    hide Leaf;
    forall f | f in Tables(b)
      ensures f < PAGES && Leaf(b, f) == if f in over then over[f] else f * PAGE_SIZE + KERNEL_PT_ENTRY
    {
      LeafAfter(a, b, slots, over, f);
    }
  }

  // ---- Runs ---------------------------------------------------------------------------------------

  /** A run of mappings: each state extends the one before it by some paths and the given pages. */
  ghost predicate Run(states: seq<Sys>, slots: seq<set<Slot>>, maps: seq<map<nat, nat>>) {
    && |states| == |maps| + 1 && |slots| == |maps|
    && Valid(states[0])
    && forall i {:trigger maps[i]} :: 0 <= i < |maps| ==> Extends(states[i], states[i + 1], slots[i], maps[i])
  }

  /** A whole run is one extension: the tables stay one tree without sharing, no frame is given out
      twice, and only pages the run maps, or frames it takes as tables, change their translation. */
  lemma {:induction false} RunIsExtension(states: seq<Sys>, slots: seq<set<Slot>>, maps: seq<map<nat, nat>>)
    returns (all: set<Slot>, over: map<nat, nat>)
    requires Run(states, slots, maps)
    ensures Extends(states[0], states[|maps|], all, over)
    ensures forall q :: q in over ==> exists i :: 0 <= i < |maps| && q in maps[i] && over[q] == maps[i][q]
    decreases |maps|
  {
    hide Extends, Valid;
    var n := |maps|;
    if n == 0 {
      all, over := {}, map[];
      ExtendsSelf(states[0], {});
    } else {
      var before := maps[..n - 1];
      assert forall i :: 0 <= i < n - 1 ==> before[i] == maps[i];
      all, over := RunIsExtension(states[..n], slots[..n - 1], before);
      assert Extends(states[n - 1], states[n], slots[n - 1], maps[n - 1]);
      ExtendsTrans(states[0], states[n - 1], states[n], all, over, slots[n - 1], maps[n - 1]);
      all := all + slots[n - 1];
      over := (over - Taken(states[n - 1], states[n])) + maps[n - 1];
    }
  }

  /** A page that was mapped at some point of a run and is neither mapped again nor the number of a
      free frame keeps its entry to the end, whatever tables are built meanwhile. */
  lemma MappedPageSurvives(states: seq<Sys>, slots: seq<set<Slot>>, maps: seq<map<nat, nat>>, q: nat)
    requires Run(states, slots, maps) && q < PAGES && q !in states[0].free
    requires forall i :: 0 <= i < |maps| ==> q !in maps[i]
    ensures Leaf(states[|maps|], q) == Leaf(states[0], q)
  {
    var all, over := RunIsExtension(states, slots, maps);
    LeafAfter(states[0], states[|maps|], all, over, q);
  }

  /** Frames are conserved over a run: those that left the free set are exactly the added tables. */
  lemma RunConserves(states: seq<Sys>, slots: seq<set<Slot>>, maps: seq<map<nat, nat>>)
    requires Run(states, slots, maps)
    ensures var a, b := states[0], states[|maps|];
            && Valid(b) && a.free - b.free == Taken(a, b)
            && |Tables(b)| + |b.free| == |Tables(a)| + |a.free|
  {
    var all, over := RunIsExtension(states, slots, maps);
    TablesConserved(states[0], states[|maps|], all);
  }

  // ---- Ranges of pages ----------------------------------------------------------------------------

  /** The pages v, v + 1, ..., v + n - 1. */
  function Pages(v: nat, n: nat): (r: set<nat>)
    ensures forall q :: q in r <==> v <= q < v + n
  {
    if n == 0 then {} else Pages(v, n - 1) + {v + n - 1}
  }

  /** The entries of those pages when they map consecutive frames from the aligned address p. */
  function RangeMap(v: nat, n: nat, p: nat, flags: nat): (r: map<nat, nat>)
    ensures r.Keys == Pages(v, n)
    ensures forall q :: q in r ==> r[q] == Or(p + (q - v) * PAGE_SIZE, flags)
  {
    if n == 0 then map[] else RangeMap(v, n - 1, p, flags)[v + n - 1 := Or(p + (n - 1) * PAGE_SIZE, flags)]
  }

  /** Mapping one more page after a range of pages, none of them the number of a free frame. */
  lemma RangeStep(a: Sys, b: Sys, c: Sys, v: nat, i: nat, p: nat, flags: nat, q: nat, e: nat)
    requires q == v + i && e == Or(p + i * PAGE_SIZE, flags) && Pages(v, i) !! a.free
    requires Extends(a, b, Paths(Pages(v, i)), RangeMap(v, i, p, flags)) && Extends(b, c, Path(q), map[q := e])
    ensures Extends(a, c, Paths(Pages(v, i + 1)), RangeMap(v, i + 1, p, flags))
  {
    hide Extends, Or, Paths, Path;
    KeepMap(a, b, c, Paths(Pages(v, i)), RangeMap(v, i, p, flags), Path(q), map[q := e]);
    RangeGrows(v, i, p, flags);
    PathsAdd(q, Pages(v, i));
  }

  lemma RangeNone(v: nat, p: nat, flags: nat)
    ensures Paths(Pages(v, 0)) == {} && RangeMap(v, 0, p, flags) == map[]
  {}

  lemma RangeGrows(v: nat, i: nat, p: nat, flags: nat)
    ensures Pages(v, i + 1) == {v + i} + Pages(v, i)
    ensures RangeMap(v, i + 1, p, flags) == RangeMap(v, i, p, flags) + map[v + i := Or(p + i * PAGE_SIZE, flags)]
  {
    hide Or;
  }

  /** Pages that are not numbers of free frames stay mapped through a later extension. */
  lemma KeepMap(a: Sys, b: Sys, c: Sys, s1: set<Slot>, o1: map<nat, nat>, s2: set<Slot>, o2: map<nat, nat>)
    requires Extends(a, b, s1, o1) && Extends(b, c, s2, o2) && o1.Keys !! a.free
    ensures Extends(a, c, s2 + s1, o1 + o2)
  {
    assert o1 - Taken(b, c) == o1 by { assert Taken(b, c) <= b.free <= a.free; }
    hide Extends;
    ExtendsTrans(a, b, c, s1, o1, s2, o2);
    assert s1 + s2 == s2 + s1;
  }

  lemma PathInPaths(q: nat, pages: set<nat>)
    requires q in pages
    ensures Path(q) <= Paths(pages)
  {}

  // ---- Kernel entries -----------------------------------------------------------------------------

  ghost function EntryPages(e: KernelEntry): set<nat> { Pages(Page(e.vaddr), e.numPages) }

  /** Each page of a kernel entry is mapped to the frame the entry records for it. */
  ghost predicate Loaded(e: KernelEntry, k: Sys) {
    forall q :: q in EntryPages(e) ==>
      Translation(k, q) == AlignAddr(e.paddr) + (q - Page(e.vaddr)) * PAGE_SIZE
  }
}
