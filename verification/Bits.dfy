/** Unsigned machine words as natural numbers, with C's bitwise operators defined bit by bit.
    Every lemma relates one operator to the single bits of its operands or to plain arithmetic,
    so the rest of the project reasons about masks and shifts without bit-vectors. */
module Bits {

  const TWO_64: nat := 0x1_0000_0000_0000_0000

  /** 2 to the power n; also the C expression `1UL << n` while n < 64. */
  function Pow2(n: nat): (p: nat)
    ensures p > 0
  {
    if n == 0 then 1 else 2 * Pow2(n - 1)
  }

  /** Bit number i of x, counted from the least significant one. */
  predicate Bit(x: nat, i: nat) {
    if i == 0 then x % 2 == 1 else Bit(x / 2, i - 1)
  }

  /** C's `a | b`. */
  function Or(a: nat, b: nat): nat
    decreases a + b
  {
    if a == 0 && b == 0 then 0
    else (if a % 2 == 1 || b % 2 == 1 then 1 else 0) + 2 * Or(a / 2, b / 2)
  }

  /** C's `a & b`. */
  function And(a: nat, b: nat): nat
    decreases a
  {
    if a == 0 then 0
    else (if a % 2 == 1 && b % 2 == 1 then 1 else 0) + 2 * And(a / 2, b / 2)
  }

  /** C's `~a` on a word of w bits. */
  function Not(a: nat, w: nat): nat {
    if w == 0 then 0
    else (if a % 2 == 1 then 0 else 1) + 2 * Not(a / 2, w - 1)
  }

  /** C's `x << k`, before truncation to the word. */
  function Shl(x: nat, k: nat): nat {
    if k == 0 then x else 2 * Shl(x, k - 1)
  }

  /** C's `x >> k`. */
  function Shr(x: nat, k: nat): nat {
    if k == 0 then x else Shr(x / 2, k - 1)
  }

  lemma OrHalves(a: nat, b: nat)
    ensures Or(a, b) / 2 == Or(a / 2, b / 2)
    ensures Or(a, b) % 2 == 1 <==> a % 2 == 1 || b % 2 == 1
  {}

  lemma AndHalves(a: nat, b: nat)
    ensures And(a, b) / 2 == And(a / 2, b / 2)
    ensures And(a, b) % 2 == 1 <==> a % 2 == 1 && b % 2 == 1
  {}

  lemma {:induction false} OrBit(a: nat, b: nat, i: nat)
    ensures Bit(Or(a, b), i) <==> Bit(a, i) || Bit(b, i)
    decreases i
  {
    hide Or;
    OrHalves(a, b);
    if i > 0 { OrBit(a / 2, b / 2, i - 1); }
  }

  lemma {:induction false} AndBit(a: nat, b: nat, i: nat)
    ensures Bit(And(a, b), i) <==> Bit(a, i) && Bit(b, i)
    decreases i
  {
    hide And;
    AndHalves(a, b);
    if i > 0 { AndBit(a / 2, b / 2, i - 1); }
  }

  lemma {:induction false} NotBit(a: nat, w: nat, i: nat)
    ensures Bit(Not(a, w), i) <==> i < w && !Bit(a, i)
    decreases w
  {
    if w == 0 {
      ZeroBit(i);
    } else if i > 0 {
      assert Not(a, w) / 2 == Not(a / 2, w - 1);
      NotBit(a / 2, w - 1, i - 1);
    }
  }

  lemma {:induction false} ZeroBit(i: nat)
    ensures !Bit(0, i)
  {
    if i > 0 { ZeroBit(i - 1); }
  }

  lemma {:induction false} Pow2Bit(n: nat, i: nat)
    ensures Bit(Pow2(n), i) <==> i == n
    decreases n
  {
    if n == 0 {
      if i > 0 { ZeroBit(i - 1); }
    } else if i > 0 {
      Pow2Bit(n - 1, i - 1);
    }
  }

  lemma {:induction false} OnesBit(w: nat, i: nat)
    ensures Bit(Pow2(w) - 1, i) <==> i < w
    decreases i
  {
    if w > 0 && i > 0 {
      assert (Pow2(w) - 1) / 2 == Pow2(w - 1) - 1;
      OnesBit(w - 1, i - 1);
    } else if w == 0 {
      ZeroBit(i);
    }
  }

  /** A word of w bits that has all of them set is the all-ones word. */
  lemma {:induction false} AllOnes(x: nat, w: nat)
    requires x < Pow2(w)
    requires forall i: nat :: i < w ==> Bit(x, i)
    ensures x == Pow2(w) - 1
    decreases w
  {
    if w > 0 {
      assert Bit(x, 0);
      forall i: nat | i < w - 1
        ensures Bit(x / 2, i)
      {
        assert Bit(x, i + 1);
      }
      AllOnes(x / 2, w - 1);
    }
  }

  lemma {:induction false} OrBound(a: nat, b: nat, w: nat)
    requires a < Pow2(w) && b < Pow2(w)
    ensures Or(a, b) < Pow2(w)
    decreases w
  {
    if w > 0 { OrBound(a / 2, b / 2, w - 1); }
  }

  lemma {:induction false} AndBound(a: nat, b: nat)
    ensures And(a, b) <= a
    decreases a
  {
    if a > 0 { AndBound(a / 2, b / 2); }
  }

  /** Or-ing a value below 2^k into a value whose low k bits are clear is addition. */
  lemma {:induction false} OrDisjoint(hi: nat, lo: nat, k: nat)
    requires lo < Pow2(k)
    ensures Or(Shl(hi, k), lo) == Shl(hi, k) + lo
    decreases k
  {
    if k == 0 {
      OrZero(hi);
    } else {
      OrDisjoint(hi, lo / 2, k - 1);
    }
  }

  lemma {:induction false} OrZero(a: nat)
    ensures Or(a, 0) == a
  {
    if a > 0 { OrZero(a / 2); }
  }

  /** Masking with w ones that start at bit k keeps that field in place and drops the rest. */
  lemma {:induction false} AndField(a: nat, k: nat, w: nat)
    ensures And(a, Shl(Pow2(w) - 1, k)) == Shl(Shr(a, k) % Pow2(w), k)
    decreases k
  {
    if k == 0 {
      AndLow(a, w);
    } else {
      AndField(a / 2, k - 1, w);
      if a == 0 {
        ShiftZero(k);
        ZeroMod(Pow2(w));
      }
    }
  }

  lemma {:induction false} ShiftZero(k: nat)
    ensures Shl(0, k) == 0 && Shr(0, k) == 0
  {
    if k > 0 { ShiftZero(k - 1); }
  }

  lemma ZeroMod(p: nat)
    requires p > 0
    ensures 0 % p == 0
  {
    DivUnique(0, p, 0, 0);
  }

  lemma {:induction false} AndLow(a: nat, w: nat)
    ensures And(a, Pow2(w) - 1) == a % Pow2(w)
    decreases w
  {
    if w == 0 {
      AndZero(a);
    } else {
      AndLow(a / 2, w - 1);
      ModTwice(a, Pow2(w - 1));
      AndOdd(a, Pow2(w - 1) - 1);
    }
  }

  lemma AndOdd(a: nat, b: nat)
    ensures And(a, 2 * b + 1) == a % 2 + 2 * And(a / 2, b)
  {
    assert (2 * b + 1) / 2 == b && (2 * b + 1) % 2 == 1;
    if a == 0 { assert And(a / 2, b) == 0; }
  }

  lemma {:induction false} AndZero(a: nat)
    ensures And(a, 0) == 0
  {
    if a > 0 { AndZero(a / 2); }
  }

  lemma ModTwice(a: nat, p: nat)
    requires p > 0
    ensures a % (2 * p) == a % 2 + 2 * (a / 2 % p)
  {
    var q, r := a / 2 / p, a / 2 % p;
    assert a == q * (2 * p) + (2 * r + a % 2) by {
      assert a / 2 == q * p + r;
      assert q * (2 * p) == 2 * (q * p);
    }
    DivUnique(a, 2 * p, q, 2 * r + a % 2);
  }

  lemma DivUnique(a: int, d: int, q: int, r: int)
    requires d > 0 && 0 <= r < d && a == q * d + r
    ensures a / d == q && a % d == r
  {
    var q', r' := a / d, a % d;
    var e := q - q';
    assert e * d == r' - r;
    if e != 0 {
      MulGrows(e, d);
      assert false;
    }
  }

  lemma MulGrows(e: int, d: int)
    requires d > 0 && e != 0
    ensures e * d >= d || e * d <= -d
  {
    if e > 0 {
      assert (e - 1) * d >= 0;
    } else {
      assert (-e - 1) * d >= 0;
    }
  }
}
