/** The bitmap rows of the physical memory manager as a set of free frames: frame f is bit f % 64 of
    row f / 64, and a clear bit means free. */
module Frames {
  import opened Bits
  import KernelH

  const ROW_BITS: nat := 64
  const ROW_FULL: nat := 0xFFFF_FFFF_FFFF_FFFF

  function FreeFrames(rows: seq<nat>): set<nat> {
    set f | 0 <= f < ROW_BITS * |rows| && !Bit(rows[f / ROW_BITS], f % ROW_BITS)
  }

  /** Frame f is free exactly when bit f % 64 of row f / 64 is 0. */
  lemma FreeIs(rows: seq<nat>, f: nat)
    requires f < 64 * |rows|
    ensures f in FreeFrames(rows) <==> rows[f / 64] / Pow2(f % 64) % 2 == 0
  {
    BitIs(rows[f / 64], f % 64);
  }

  lemma {:induction false} BitIs(x: nat, i: nat)
    ensures Bit(x, i) <==> x / Pow2(i) % 2 == 1
  {
    if i > 0 {
      BitIs(x / 2, i - 1);
      KernelH.DivTwice(x, Pow2(i - 1));
    }
  }

  ghost predicate Words(rows: seq<nat>) {
    forall i :: 0 <= i < |rows| ==> rows[i] <= ROW_FULL
  }

  lemma Pow2Of64()
    ensures Pow2(64) == ROW_FULL + 1
  {
    assert Pow2(8) == 256;
    assert Pow2(16) == 0x1_0000;
    assert Pow2(24) == 0x100_0000;
    assert Pow2(32) == 0x1_0000_0000;
    assert Pow2(40) == 0x100_0000_0000;
    assert Pow2(48) == 0x1_0000_0000_0000;
    assert Pow2(56) == 0x100_0000_0000_0000;
  }

  lemma {:induction false} Pow2Monotone(n: nat, w: nat)
    requires n < w
    ensures Pow2(n) < Pow2(w)
  {
    if n + 1 < w { Pow2Monotone(n, w - 1); }
  }

  /** Or-ing a bit into a row takes exactly that frame out of the free set. */
  lemma SetBit(rows: seq<nat>, f: nat)
    requires Words(rows) && f / ROW_BITS < |rows|
    ensures var rows' := rows[f / ROW_BITS := Or(rows[f / ROW_BITS], Pow2(f % ROW_BITS))];
            Words(rows') && FreeFrames(rows') == FreeFrames(rows) - {f}
  {
    var r, c := f / ROW_BITS, f % ROW_BITS;
    var rows' := rows[r := Or(rows[r], Pow2(c))];
    Pow2Of64();
    Pow2Monotone(c, 64);
    OrBound(rows[r], Pow2(c), 64);
    forall g: nat | g < ROW_BITS * |rows|
      ensures Bit(rows'[g / ROW_BITS], g % ROW_BITS) <==> Bit(rows[g / ROW_BITS], g % ROW_BITS) || g == f
    {
      OrBit(rows[r], Pow2(c), g % ROW_BITS);
      Pow2Bit(c, g % ROW_BITS);
    }
  }

  /** And-ing with the complement of a bit puts exactly that frame into the free set. */
  lemma ClearBit(rows: seq<nat>, f: nat)
    requires Words(rows) && f / ROW_BITS < |rows|
    ensures var rows' := rows[f / ROW_BITS := And(rows[f / ROW_BITS], Not(Pow2(f % ROW_BITS), 64))];
            Words(rows') && FreeFrames(rows') == FreeFrames(rows) + {f}
  {
    var r, c := f / ROW_BITS, f % ROW_BITS;
    var rows' := rows[r := And(rows[r], Not(Pow2(c), 64))];
    AndBound(rows[r], Not(Pow2(c), 64));
    forall g: nat | g < ROW_BITS * |rows|
      ensures Bit(rows'[g / ROW_BITS], g % ROW_BITS) <==> Bit(rows[g / ROW_BITS], g % ROW_BITS) && g != f
    {
      AndBit(rows[r], Not(Pow2(c), 64), g % ROW_BITS);
      NotBit(Pow2(c), 64, g % ROW_BITS);
      Pow2Bit(c, g % ROW_BITS);
    }
  }

  /** A row equal to the full word holds no free frame, and only such a row holds none. */
  lemma FullRow(x: nat)
    requires x <= ROW_FULL
    ensures x == ROW_FULL ==> forall i: nat :: i < ROW_BITS ==> Bit(x, i)
    ensures x != ROW_FULL ==> exists i: nat :: i < ROW_BITS && !Bit(x, i)
  {
    Pow2Of64();
    if x == ROW_FULL {
      forall i: nat | i < ROW_BITS ensures Bit(x, i) { OnesBit(64, i); }
    } else if forall i: nat :: i < ROW_BITS ==> Bit(x, i) {
      AllOnes(x, 64);
      assert false;
    }
  }

  /** The test `row & (1UL << col)` reads the bit. */
  lemma TestBit(x: nat, c: nat)
    ensures And(x, Pow2(c)) == 0 <==> !Bit(x, c)
  {
    if And(x, Pow2(c)) == 0 {
      AndBit(x, Pow2(c), c);
      Pow2Bit(c, c);
      ZeroBit(c);
    } else if !Bit(x, c) {
      NoCommonBit(x, c);
    }
  }

  lemma {:induction false} NoCommonBit(x: nat, c: nat)
    requires !Bit(x, c)
    ensures And(x, Pow2(c)) == 0
    decreases c
  {
    if c > 0 {
      NoCommonBit(x / 2, c - 1);
    } else {
      AndZero(x / 2);
    }
  }

  /** The scan: nothing free below a row and c set bits at its start mean nothing free before bit c. */
  lemma NoneBefore(rows: seq<nat>, r: nat, c: nat)
    requires r < |rows| && c <= ROW_BITS
    requires forall g :: g in FreeFrames(rows) ==> ROW_BITS * r <= g
    requires forall i: nat :: i < c ==> Bit(rows[r], i)
    ensures forall g :: g in FreeFrames(rows) ==> ROW_BITS * r + c <= g
  {
    forall g | g in FreeFrames(rows)
      ensures ROW_BITS * r + c <= g
    {
      assert g / ROW_BITS == r ==> !Bit(rows[r], g % ROW_BITS);
    }
  }

  /** y is what remains of x after its lowest members were taken. */
  ghost predicate LowestTaken(x: set<nat>, y: set<nat>) {
    y <= x && forall f, g :: f in x && f !in y && g in y ==> f < g
  }

  lemma LowestTrans(x: set<nat>, y: set<nat>, z: set<nat>)
    requires LowestTaken(x, y) && LowestTaken(y, z)
    ensures LowestTaken(x, z)
  {}

  lemma LowestSelf(x: set<nat>)
    ensures LowestTaken(x, x)
  {}

  lemma AllFull(rows: seq<nat>)
    requires forall i :: 0 <= i < |rows| ==> rows[i] == ROW_FULL
    ensures Words(rows) && FreeFrames(rows) == {}
  {
    forall f: nat | f < ROW_BITS * |rows| ensures Bit(rows[f / ROW_BITS], f % ROW_BITS) {
      FullRow(rows[f / ROW_BITS]);
    }
  }
}
