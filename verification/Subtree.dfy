/** The tables below a slot, as free_page_table visits them. */
module Subtree {
  import opened Bits
  import opened KernelH
  import opened PageTree

  /** x is s or one of the tables below it. */
  ghost predicate Under(x: Slot, s: Slot)
    decreases s.level - x.level
  {
    x == s || (x.level < s.level && Under(Parent(x), s))
  }

  /** x is under one of the first i children of s. */
  ghost predicate UnderChild(x: Slot, s: Slot, i: nat)
    requires s.level > 0
  {
    exists j: nat :: j < i && Under(x, Child(s, j))
  }

  /** The frames of the tables at and below s. */
  ghost function Below(t: Tree, s: Slot): set<nat> {
    set x | x in t && Under(x, s) :: t[x]
  }

  /** The frames of the tables at and below the first i children of s. */
  ghost function BelowChildren(t: Tree, s: Slot, i: nat): set<nat>
    requires s.level > 0
  {
    set x | x in t && UnderChild(x, s, i) :: t[x]
  }

  /** A table strictly below s is under exactly one of its 512 children. */
  lemma UnderSome(x: Slot, s: Slot)
    requires Under(x, s) && x != s && s.level > 0
    ensures UnderChild(x, s, 512)
    ensures forall i: nat, j: nat :: Under(x, Child(s, i)) && Under(x, Child(s, j)) && i < 512 && j < 512 ==> i == j
  {
    UnderAny(x, s);
    forall i: nat, j: nat | Under(x, Child(s, i)) && Under(x, Child(s, j)) && i < 512 && j < 512 ensures i == j {
      UnderOne(x, s, i, j);
    }
  }

  lemma {:induction false} UnderOne(x: Slot, s: Slot, i: nat, j: nat)
    requires s.level > 0 && i < 512 && j < 512 && Under(x, Child(s, i)) && Under(x, Child(s, j))
    ensures i == j
    decreases s.level - x.level
  {
    UnderLevel(x, Child(s, i));
    if x.level + 1 < s.level { UnderOne(Parent(x), s, i, j); }
  }

  lemma {:induction false} UnderAny(x: Slot, s: Slot)
    requires Under(x, s) && x != s && s.level > 0
    ensures UnderChild(x, s, 512)
    decreases s.level - x.level
  {
    if Parent(x) == s {
      assert Child(s, Index(x)) == x;
    } else {
      UnderAny(Parent(x), s);
      var j: nat :| j < 512 && Under(Parent(x), Child(s, j));
      UnderLevel(Parent(x), Child(s, j));
    }
  }

  lemma {:induction false} UnderLevel(x: Slot, s: Slot)
    requires Under(x, s)
    ensures x.level <= s.level
    decreases s.level - x.level
  {
    if x != s { UnderLevel(Parent(x), s); }
  }

  lemma {:induction false} UnderTrans(x: Slot, y: Slot, s: Slot)
    requires Under(x, y) && Under(y, s)
    ensures Under(x, s)
    decreases s.level - x.level
  {
    UnderLevel(y, s);
    UnderLevel(x, y);
    if x != y {
      UnderLevel(Parent(x), y);
      UnderTrans(Parent(x), y, s);
    }
  }

  /** Nothing is below a slot that has no table. */
  lemma {:induction false} NothingBelow(t: Tree, x: Slot, s: Slot)
    requires Shape(t) && x in t && Under(x, s) && s.level < 4
    ensures s in t
    decreases s.level - x.level
  {
    if x != s {
      UnderLevel(Parent(x), s);
      NothingBelow(t, Parent(x), s);
    }
  }

  lemma NextChild(t: Tree, s: Slot, i: nat)
    requires Shape(t) && s in t && s.level > 1 && i < 512
    ensures BelowChildren(t, s, i + 1) == BelowChildren(t, s, i) + Below(t, Child(s, i))
    ensures Child(s, i) !in t ==> Below(t, Child(s, i)) == {}
  {
    forall x | x in t && UnderChild(x, s, i + 1)
      ensures UnderChild(x, s, i) || Under(x, Child(s, i))
    {
      var j: nat :| j < i + 1 && Under(x, Child(s, j));
    }
    if Child(s, i) !in t {
      forall x | x in t ensures !Under(x, Child(s, i)) {
        if Under(x, Child(s, i)) {
          NothingBelow(t, x, Child(s, i));
          assert false;
        }
      }
    }
  }

  lemma NoChildren(t: Tree, s: Slot)
    requires s.level > 0
    ensures BelowChildren(t, s, 0) == {}
  {}

  /** A slot's tables are its own and those of its 512 children. */
  lemma AllChildren(t: Tree, s: Slot)
    requires Shape(t) && s in t
    ensures s.level > 1 ==> Below(t, s) == BelowChildren(t, s, 512) + {t[s]}
    ensures s.level == 1 ==> Below(t, s) == {t[s]}
  {
    if s.level > 1 {
      forall x | x in t && Under(x, s) && x != s ensures UnderChild(x, s, 512) { UnderAny(x, s); }
      forall x | x in t && UnderChild(x, s, 512)
        ensures Under(x, s)
      {
        var j: nat :| j < 512 && Under(x, Child(s, j));
        assert Parent(Child(s, j)) == s;
        UnderTrans(x, Child(s, j), s);
      }
    } else {
      forall x | x in t && Under(x, s) ensures x == s { UnderLevel(x, s); }
    }
  }

  /** Every table is below the root. */
  lemma {:induction false} UnderRoot(t: Tree, x: Slot)
    requires Shape(t) && x in t
    ensures Under(x, ROOT)
    decreases 4 - x.level
  {
    if x.level < 4 {
      assert Parent(x) in t;
      UnderRoot(t, Parent(x));
    }
  }

  /** The subtrees of different children share no frame, and none holds the parent's. */
  lemma BelowApart(t: Tree, s: Slot, i: nat)
    requires Shape(t) && s in t && s.level > 1 && i <= 512
    ensures t[s] !in BelowChildren(t, s, i)
    ensures i < 512 ==> BelowChildren(t, s, i) !! Below(t, Child(s, i))
  {
    forall x | x in t && UnderChild(x, s, i) ensures x != s && (i < 512 ==> !Under(x, Child(s, i))) {
      var j: nat :| j < i && Under(x, Child(s, j));
      UnderLevel(x, Child(s, j));
      if i < 512 && Under(x, Child(s, i)) { UnderOne(x, s, i, j); }
    }
  }

  // ---- Each table once ----------------------------------------------------------------------------

  /** The sequence lists exactly these frames, each once. */
  ghost predicate Once(list: seq<nat>, frames: set<nat>) {
    && (forall i, j :: 0 <= i < j < |list| ==> list[i] != list[j])
    && forall f :: f in list <==> f in frames
  }

  lemma OnceNone()
    ensures Once([], {})
  {}

  lemma OnceOne(f: nat)
    ensures Once([f], {f})
  {}

  lemma OnceJoin(x: seq<nat>, a: set<nat>, y: seq<nat>, b: set<nat>)
    requires Once(x, a) && Once(y, b) && a !! b
    ensures Once(x + y, a + b)
  {
    var l := x + y;
    forall i, j | 0 <= i < j < |l| ensures l[i] != l[j] {
      assert l[i] == (if i < |x| then x[i] else y[i - |x|]) && l[j] == (if j < |x| then x[j] else y[j - |x|]);
      if i < |x| <= j { assert x[i] in x && y[j - |x|] in y; }
    }
  }

  lemma {:induction false} OnceCounts(list: seq<nat>, frames: set<nat>)
    requires Once(list, frames)
    ensures |list| == |frames|
  {
    if list == [] {
      assert frames == {};
    } else {
      var f, rest := list[0], list[1..];
      assert forall g :: g in list <==> g == f || g in rest;
      assert f !in rest;
      OnceCounts(rest, frames - {f});
    }
  }

  /** From the root these are all the tables, as many as the tree has: when none of them was free, the
      free count rises by their number. */
  lemma BelowRoot(t: Tree)
    requires Shape(t)
    ensures Below(t, ROOT) == t.Values && |Below(t, ROOT)| == |t|
    ensures forall free: set<nat> {:trigger free + Below(t, ROOT)} :: free !! t.Values ==>
              |free + Below(t, ROOT)| == |free| + |t|
  {
    CountTables(t);
    forall x | x in t ensures Under(x, ROOT) { UnderRoot(t, x); }
    forall f | f in t.Values ensures f in Below(t, ROOT) {
      var x :| x in t && t[x] == f;
    }
  }

  /** The entry that free_page_table inspects for a child is present exactly when its table exists. */
  lemma ChildEntry(m: Memory, t: Tree, s: Slot, i: nat)
    requires Shape(t) && Linked(m, t) && s in t && s.level > 1 && i < 512
    ensures And(Entry(m, t[s], i), 1) != 0 <==> Child(s, i) in t
    ensures Child(s, i) in t ==> And(Entry(m, t[s], i), SIGN_MASK) == t[Child(s, i)] * PAGE_SIZE
  {
    hide And;
    PresentIs(Entry(m, t[s], i));
    SignMaskIs(Entry(m, t[s], i));
    assert Parent(Child(s, i)) == s && Index(Child(s, i)) == i;
  }
}
