/** Which frames map_addr takes: the lowest free ones, just so many as there are tables to add, where
    each frame taken needs the tables of its own page too. */
module Draw {
  import opened KernelH
  import opened PageTree
  import opened Frames

  /** f is the lowest of the frames. */
  ghost predicate Least(f: nat, frames: set<nat>) {
    f in frames && forall g :: g in frames ==> f <= g
  }

  /** x are the lowest of the free frames. */
  ghost predicate Lower(x: set<nat>, free: set<nat>) {
    x <= free && forall f, g :: f in x && g in free && g !in x ==> f < g
  }

  /** The slots still without a table when `slots` and the pages of the frames x are asked for. */
  function Missing(keys: set<Slot>, slots: set<Slot>, x: set<nat>): set<Slot> {
    (slots + Paths(x)) - keys
  }

  /** The frames x are enough for those. */
  ghost predicate Serves(keys: set<Slot>, slots: set<Slot>, x: set<nat>) {
    |Missing(keys, slots, x)| <= |x|
  }

  /** Some of the lowest free frames are enough: known before the call. */
  ghost predicate Suffices(keys: set<Slot>, free: set<nat>, slots: set<Slot>) {
    exists x: set<nat> :: Lower(x, free) && Serves(keys, slots, x)
  }

  /** t are the frames drawn: as many as missing slots, and no fewer of the lowest would do. */
  ghost predicate Drawing(keys: set<Slot>, free: set<nat>, slots: set<Slot>, t: set<nat>) {
    && Lower(t, free) && |Missing(keys, slots, t)| == |t|
    && forall x: set<nat> :: Lower(x, free) && x < t ==> !Serves(keys, slots, x)
  }

  // ---- The frames as a function of the state before --------------------------------------------

  lemma {:induction false} LeastExists(frames: set<nat>)
    requires frames != {}
    ensures exists f :: Least(f, frames)
  {
    var g :| g in frames;
    var rest := frames - {g};
    assert frames == rest + {g};
    if rest == {} {
      assert Least(g, frames);
    } else {
      LeastExists(rest);
      var f :| Least(f, rest);
      assert Least(if f < g then f else g, frames);
    }
  }

  ghost function NextFree(frames: set<nat>): (f: nat)
    requires frames != {}
    ensures Least(f, frames)
  {
    LeastExists(frames);
    var f :| Least(f, frames);
    f
  }

  lemma LowerMore(x: set<nat>, free: set<nat>)
    requires Lower(x, free) && x != free
    ensures free - x != {} && Lower(x + {NextFree(free - x)}, free)
  {
    var g :| g in free && g !in x;
    assert g in free - x;
    var f := NextFree(free - x);
    assert Least(f, free - x);
    forall h | h in free && h !in x ensures f <= h {
      assert h in free - x;
    }
  }

  /** From x on, one more frame at a time until there are enough or no more. */
  ghost function DrawnFrom(keys: set<Slot>, free: set<nat>, slots: set<Slot>, x: set<nat>): (t: set<nat>)
    requires Lower(x, free)
    ensures x <= t && Lower(t, free)
    decreases free - x
  {
    if Serves(keys, slots, x) || x == free then x
    else
      LowerMore(x, free);
      DrawnFrom(keys, free, slots, x + {NextFree(free - x)})
  }

  ghost function Drawn(keys: set<Slot>, free: set<nat>, slots: set<Slot>): (t: set<nat>) {
    DrawnFrom(keys, free, slots, {})
  }

  lemma {:induction false} DrawnFromIs(keys: set<Slot>, free: set<nat>, slots: set<Slot>, x: set<nat>, t: set<nat>)
    requires Drawing(keys, free, slots, t) && Lower(x, free) && x <= t
    ensures DrawnFrom(keys, free, slots, x) == t
    decreases free - x
  {
    hide Missing, Paths;
    if x != t {
      LowerMore(x, free);
      var f, g :| f == NextFree(free - x) && g in t - x;
      assert f in t;
      DrawnFromIs(keys, free, slots, x + {f}, t);
    }
  }

  /** The frames drawn are the function's. */
  lemma DrawnIs(keys: set<Slot>, free: set<nat>, slots: set<Slot>, t: set<nat>)
    requires Drawing(keys, free, slots, t)
    ensures Drawn(keys, free, slots) == t
  {
    DrawnFromIs(keys, free, slots, {}, t);
  }

  // ---- How drawings compose ----------------------------------------------------------------------

  lemma LowerChain(x: set<nat>, y: set<nat>, free: set<nat>)
    requires Lower(x, free) && Lower(y, free)
    ensures x <= y || y <= x
  {
    assert forall f, g :: f in x && f !in y && g in y && g !in x ==> f < g < f;
  }

  lemma Union<T>(x: set<T>, y: set<T>)
    requires x !! y
    ensures |x + y| == |x| + |y|
  {}

  lemma ServesFewer(keys: set<Slot>, s: set<Slot>, s': set<Slot>, x: set<nat>)
    requires s <= s' && Serves(keys, s', x)
    ensures Serves(keys, s, x)
  {
    Subset(Missing(keys, s, x), Missing(keys, s', x));
  }

  lemma SufficesFewer(keys: set<Slot>, free: set<nat>, s: set<Slot>, s': set<Slot>)
    requires s <= s' && Suffices(keys, free, s')
    ensures Suffices(keys, free, s)
  {
    var x: set<nat> :| Lower(x, free) && Serves(keys, s', x);
    ServesFewer(keys, s, s', x);
  }

  lemma NothingDrawn(keys: set<Slot>, free: set<nat>, slots: set<Slot>)
    requires slots <= keys
    ensures Drawing(keys, free, slots, {}) && Suffices(keys, free, slots)
  {
    assert Missing(keys, slots, {}) == {};
    assert Lower({}, free) && Serves(keys, slots, {});
  }

  lemma SomethingDrawn(keys: set<Slot>, free: set<nat>, slots: set<Slot>, s: Slot)
    requires Suffices(keys, free, slots) && s in slots && s !in keys
    ensures free != {}
  {
    var x: set<nat> :| Lower(x, free) && Serves(keys, slots, x);
    assert s in Missing(keys, slots, x);
  }

  /** Taking frame n for slot s leaves the slots of n's own page to be found. */
  lemma MissingOne(keys: set<Slot>, s: Slot, n: nat, y: set<nat>)
    requires s !in keys
    ensures Missing(keys, {s}, {n} + y) == {s} + Missing(keys + {s}, Path(n), y)
    ensures |Missing(keys, {s}, {n} + y)| == 1 + |Missing(keys + {s}, Path(n), y)|
  {
    PathsAdd(n, y);
    Union({s}, Missing(keys + {s}, Path(n), y));
  }

  lemma AddSuffices(keys: set<Slot>, free: set<nat>, s: Slot, n: nat)
    requires Suffices(keys, free, {s}) && s !in keys && Least(n, free)
    ensures Suffices(keys + {s}, free - {n}, Path(n))
  {
    var x: set<nat> :| Lower(x, free) && Serves(keys, {s}, x);
    assert s in Missing(keys, {s}, x);
    var g :| g in x;
    assert n in x;
    var y := x - {n};
    assert x == {n} + y;
    hide Missing, Paths, Path;
    MissingOne(keys, s, n, y);
    assert Lower(y, free - {n}) && Serves(keys + {s}, Path(n), y);
  }

  lemma AddDraws(keys: set<Slot>, free: set<nat>, s: Slot, n: nat, t: set<nat>)
    requires s !in keys && Least(n, free) && Drawing(keys + {s}, free - {n}, Path(n), t)
    ensures Drawing(keys, free, {s}, {n} + t)
  {
    hide Missing, Paths, Path;
    MissingOne(keys, s, n, t);
    Union({n}, t);
    forall x: set<nat> | Lower(x, free) && x < {n} + t ensures !Serves(keys, {s}, x) {
      if n in x {
        var y := x - {n};
        assert x == {n} + y && Lower(y, free - {n}) && y < t;
        MissingOne(keys, s, n, y);
      } else {
        assert forall g :: g in x ==> g < n <= g;
        NoFrames(keys, s, x);
      }
    }
  }

  lemma NoFrames(keys: set<Slot>, s: Slot, x: set<nat>)
    requires s !in keys && x == {}
    ensures !Serves(keys, {s}, x)
  {
    assert s in Missing(keys, {s}, x);
  }

  /** What is missing for two sets of slots is what is missing for the first and then for the second. */
  lemma MissingBoth(keys: set<Slot>, s1: set<Slot>, s2: set<Slot>, t: set<nat>, y: set<nat>)
    ensures Missing(keys, s1 + s2, t + y) == Missing(keys, s1, t) + Missing(keys + s1 + Paths(t), s2, y)
    ensures |Missing(keys, s1 + s2, t + y)| == |Missing(keys, s1, t)| + |Missing(keys + s1 + Paths(t), s2, y)|
  {
    PathsUnion(t, y);
    hide Paths;
    Union(Missing(keys, s1, t), Missing(keys + s1 + Paths(t), s2, y));
  }

  lemma LowerRest(x: set<nat>, t: set<nat>, free: set<nat>)
    requires Lower(x, free) && t <= x
    ensures Lower(x - t, free - t) && x == t + (x - t) && |x| == |t| + |x - t|
  {
    Union(t, x - t);
    assert x == t + (x - t);
  }

  lemma DrawnFirst(keys: set<Slot>, free: set<nat>, s1: set<Slot>, s2: set<Slot>, t: set<nat>, x: set<nat>)
    requires Drawing(keys, free, s1, t) && Lower(x, free) && Serves(keys, s1 + s2, x)
    ensures t <= x
  {
    hide Missing, Paths;
    LowerChain(t, x, free);
    ServesFewer(keys, s1, s1 + s2, x);
  }

  /** What is left after a drawing is enough for the rest. */
  lemma RestSuffices(keys: set<Slot>, free: set<nat>, s1: set<Slot>, s2: set<Slot>, t: set<nat>)
    requires Drawing(keys, free, s1, t) && Suffices(keys, free, s1 + s2)
    ensures Suffices(keys + s1 + Paths(t), free - t, s2)
  {
    hide Missing, Paths;
    var x: set<nat> :| Lower(x, free) && Serves(keys, s1 + s2, x);
    DrawnFirst(keys, free, s1, s2, t, x);
    LowerRest(x, t, free);
    MissingBoth(keys, s1, s2, t, x - t);
    assert Lower(x - t, free - t) && Serves(keys + s1 + Paths(t), s2, x - t);
  }

  /** Two drawings in a row are one. */
  lemma DrawsTrans(keys: set<Slot>, free: set<nat>, s1: set<Slot>, s2: set<Slot>, t1: set<nat>, t2: set<nat>)
    requires Drawing(keys, free, s1, t1) && Drawing(keys + s1 + Paths(t1), free - t1, s2, t2)
    ensures Drawing(keys, free, s1 + s2, t1 + t2)
  {
    hide Missing, Paths;
    MissingBoth(keys, s1, s2, t1, t2);
    Union(t1, t2);
    forall x: set<nat> | Lower(x, free) && Serves(keys, s1 + s2, x) ensures !(x < t1 + t2) {
      DrawnFirst(keys, free, s1, s2, t1, x);
      LowerRest(x, t1, free);
      MissingBoth(keys, s1, s2, t1, x - t1);
      assert Serves(keys + s1 + Paths(t1), s2, x - t1);
    }
  }

  // ---- On states ---------------------------------------------------------------------------------

  /** Frames enough for mapping pages with these paths. */
  ghost predicate Supplied(a: Sys, slots: set<Slot>) {
    Suffices(a.tree.Keys, a.free, slots)
  }

  /** b has just the tables that asking for `slots` in a draws. */
  ghost predicate Draws(a: Sys, b: Sys, slots: set<Slot>) {
    Drawing(a.tree.Keys, a.free, slots, Taken(a, b))
  }

  lemma SelfDraws(a: Sys, slots: set<Slot>)
    requires slots <= a.tree.Keys
    ensures Draws(a, a, slots) && Supplied(a, slots)
  {
    NothingDrawn(a.tree.Keys, a.free, slots);
  }

  lemma AddedSupply(a: Sys, b: Sys, s: Slot, n: nat)
    requires Adds(a, b, s, n) && Supplied(a, {s}) && Least(n, a.free)
    ensures Supplied(b, Path(n))
  {
    AddSuffices(a.tree.Keys, a.free, s, n);
    assert b.tree.Keys == a.tree.Keys + {s};
  }

  lemma AddedDraws(a: Sys, b: Sys, c: Sys, s: Slot, n: nat)
    requires Valid(a) && Adds(a, b, s, n) && Least(n, a.free)
    requires Grows(b, c, Path(n)) && Draws(b, c, Path(n))
    ensures Draws(a, c, {s})
  {
    hide *;
    AddedTaken(a, b, c, s, n);
    AddsIs(a, b, s, n);
    DrawsIs(b, c, Path(n));
    AddDraws(a.tree.Keys, a.free, s, n, Taken(b, c));
    DrawsIs(a, c, {s});
  }

  lemma AddsIs(a: Sys, b: Sys, s: Slot, n: nat)
    requires Adds(a, b, s, n)
    ensures s !in a.tree.Keys && b.tree.Keys == a.tree.Keys + {s} && b.free == a.free - {n}
  {}

  lemma DrawsIs(a: Sys, b: Sys, slots: set<Slot>)
    ensures Draws(a, b, slots) <==> Drawing(a.tree.Keys, a.free, slots, Taken(a, b))
  {}

  lemma RestSupplied(a: Sys, b: Sys, s1: set<Slot>, s2: set<Slot>)
    requires Grows(a, b, s1) && Draws(a, b, s1) && Supplied(a, s1 + s2)
    ensures Supplied(b, s2)
  {
    RestSuffices(a.tree.Keys, a.free, s1, s2, Taken(a, b));
  }

  lemma DrawsBoth(a: Sys, b: Sys, c: Sys, s1: set<Slot>, s2: set<Slot>)
    requires Grows(a, b, s1) && Grows(b, c, s2) && Draws(a, b, s1) && Draws(b, c, s2)
    ensures Draws(a, c, s1 + s2)
  {
    TakenTrans(a, b, c, s1, s2);
    DrawsTrans(a.tree.Keys, a.free, s1, s2, Taken(a, b), Taken(b, c));
  }

  /** No state that extends a by the lowest free frames exists unless there are enough of them. */
  lemma OnlySupplied(a: Sys, b: Sys, slots: set<Slot>, over: map<nat, nat>)
    requires Valid(a) && Extends(a, b, slots, over) && Lower(Taken(a, b), a.free)
    ensures Supplied(a, slots)
  {
    TablesConserved(a, b, slots);
    assert Missing(a.tree.Keys, slots, Taken(a, b)) == b.tree.Keys - a.tree.Keys;
    assert Serves(a.tree.Keys, slots, Taken(a, b));
  }

  /** The counting bound is more than is needed. */
  lemma EnoughSupplies(a: Sys, slots: set<Slot>, u: set<Slot>)
    requires Enough(a, u) && slots <= u
    ensures Supplied(a, slots)
  {
    Subset(Missing(a.tree.Keys, slots, a.free), u - a.tree.Keys);
    assert Lower(a.free, a.free) && Serves(a.tree.Keys, slots, a.free);
  }

  // ---- In map_addr -------------------------------------------------------------------------------

  lemma NeedsFrame(a: Sys, s: Slot)
    requires Supplied(a, {s}) && s !in a.tree
    ensures a.free != {}
  {
    SomethingDrawn(a.tree.Keys, a.free, {s}, s);
  }

  /** When every free frame's page has its tables, so has the page of the frame just taken. */
  lemma OwnPath(a: Sys, b: Sys, s: Slot, n: nat)
    requires Adds(a, b, s, n)
    ensures Paths(a.free) <= a.tree.Keys ==> Path(n) <= b.tree.Keys
  {
    PathInPaths(n, a.free);
  }

  lemma ExtendsIs(a: Sys, b: Sys, slots: set<Slot>, over: map<nat, nat>)
    requires Extends(a, b, slots, over)
    ensures Grows(a, b, slots) && Valid(b)
  {}

  lemma SupplyFirst(a: Sys, s1: set<Slot>, s2: set<Slot>)
    requires Supplied(a, s1 + s2)
    ensures Supplied(a, s1)
  {
    SufficesFewer(a.tree.Keys, a.free, s1, s1 + s2);
  }

  lemma SupplyRest(a: Sys, b: Sys, s1: set<Slot>, s2: set<Slot>)
    requires Extends(a, b, s1, map[]) && Draws(a, b, s1) && Supplied(a, s1 + s2)
    ensures Supplied(b, s2) && a.tree.Keys <= b.tree.Keys
    ensures Paths(a.free) <= a.tree.Keys ==> Paths(b.free) <= b.tree.Keys
  {
    ExtendsIs(a, b, s1, map[]);
    RestSupplied(a, b, s1, s2);
    PathsSplit(a.free, b.free, Taken(a, b));
  }

  lemma PathSum(q: nat)
    ensures Path(q) == {At(q, 3)} + {At(q, 2)} + {At(q, 1)}
  {}

  lemma PathDrawn(a: Sys, b3: Sys, b2: Sys, b1: Sys, q: nat)
    requires Extends(a, b3, {At(q, 3)}, map[]) && Extends(b3, b2, {At(q, 2)}, map[])
    requires Extends(b2, b1, {At(q, 1)}, map[])
    requires Draws(a, b3, {At(q, 3)}) && Draws(b3, b2, {At(q, 2)}) && Draws(b2, b1, {At(q, 1)})
    ensures Draws(a, b1, Path(q))
  {
    hide *;
    ExtendsIs(a, b3, {At(q, 3)}, map[]);
    ExtendsIs(b3, b2, {At(q, 2)}, map[]);
    ExtendsIs(b2, b1, {At(q, 1)}, map[]);
    PathSum(q);
    DrawsBoth(a, b3, b2, {At(q, 3)}, {At(q, 2)});
    GrowsTrans(a, b3, b2, {At(q, 3)}, {At(q, 2)});
    DrawsBoth(a, b2, b1, {At(q, 3)} + {At(q, 2)}, {At(q, 1)});
  }

  lemma SameDraws(a: Sys, b: Sys, c: Sys, slots: set<Slot>)
    requires Draws(a, b, slots) && c.tree == b.tree
    ensures Draws(a, c, slots)
  {}

  lemma LowerTaken(a: Sys, b: Sys, slots: set<Slot>, over: map<nat, nat>)
    requires Extends(a, b, slots, over) && LowestTaken(a.free, b.free)
    ensures Lower(Taken(a, b), a.free)
  {
    ExtendsIs(a, b, slots, over);
    hide Extends, Taken;
    assert forall g :: g in a.free && g !in Taken(a, b) ==> g in b.free;
  }

  /** Page i of a range that the frames suffice for. */
  lemma PageSupplied(a: Sys, b: Sys, v: nat, i: nat, n: nat, over: map<nat, nat>)
    requires Extends(a, b, Paths(Pages(v, i)), over) && Draws(a, b, Paths(Pages(v, i)))
    requires Supplied(a, Paths(Pages(v, n))) && i < n
    ensures Supplied(b, Path(v + i))
  {
    hide Extends, Draws, Supplied, Paths, Path;
    ExtendsIs(a, b, Paths(Pages(v, i)), over);
    assert Pages(v, n) == Pages(v, i) + Pages(v + i, n - i);
    PathsUnion(Pages(v, i), Pages(v + i, n - i));
    RestSupplied(a, b, Paths(Pages(v, i)), Paths(Pages(v + i, n - i)));
    PathInPaths(v + i, Pages(v + i, n - i));
    FewerSupplied(b, Path(v + i), Paths(Pages(v + i, n - i)));
  }

  lemma FewerSupplied(a: Sys, s: set<Slot>, s': set<Slot>)
    requires s <= s' && Supplied(a, s')
    ensures Supplied(a, s)
  {
    SufficesFewer(a.tree.Keys, a.free, s, s');
  }

  lemma RangeDrawn(a: Sys, b: Sys, c: Sys, v: nat, i: nat, o1: map<nat, nat>, o2: map<nat, nat>)
    requires Extends(a, b, Paths(Pages(v, i)), o1) && Draws(a, b, Paths(Pages(v, i)))
    requires Extends(b, c, Path(v + i), o2) && Draws(b, c, Path(v + i))
    ensures Draws(a, c, Paths(Pages(v, i + 1)))
  {
    hide *;
    ExtendsIs(a, b, Paths(Pages(v, i)), o1);
    ExtendsIs(b, c, Path(v + i), o2);
    DrawsBoth(a, b, c, Paths(Pages(v, i)), Path(v + i));
    RangePaths(v, i);
  }

  lemma RangePaths(v: nat, i: nat)
    ensures Paths(Pages(v, i + 1)) == Paths(Pages(v, i)) + Path(v + i)
  {
    hide Path, Paths;
    assert Pages(v, i + 1) == {v + i} + Pages(v, i);
    PathsAdd(v + i, Pages(v, i));
  }
}
