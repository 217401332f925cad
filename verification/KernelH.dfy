/** The address arithmetic of include/kernel.h: each macro is written with the C operators it uses,
    and a lemma says what it means in plain arithmetic on page numbers. */
module KernelH {
  import opened Bits

  const PAGE_SIZE: nat := 4096
  const KERNEL_PT_ENTRY: nat := 3
  const USER_PT_ENTRY: nat := 7
  const SIGN_MASK: nat := 0x000f_ffff_ffff_f000
  const HIGHER_HALF_OFFSET: nat := 0xFFFF_8000_0000_0000

  /** A loaded segment of the kernel image. */
  datatype KernelEntry = KernelEntry(vaddr: nat, paddr: nat, numPages: nat)

  /** Virtual pages told apart by the four 9-bit indices: the low 48 bits of an address. */
  const PAGES: nat := 0x10_0000_0000

  function AlignAddr(a: nat): nat { And(a, TWO_64 - PAGE_SIZE) }
  function P4Entry(a: nat): nat { And(Shr(a, 39), 0x1FF) }
  function P3Entry(a: nat): nat { And(Shr(a, 30), 0x1FF) }
  function P2Entry(a: nat): nat { And(Shr(a, 21), 0x1FF) }
  function P1Entry(a: nat): nat { And(Shr(a, 12), 0x1FF) }
  function VAddr(a: nat): nat { Or(a, HIGHER_HALF_OFFSET) }
  function PAddr(a: nat): nat { And(a, Not(HIGHER_HALF_OFFSET, 64)) }

  /** DIV_CEIL on 64-bit operands: the sum wraps before the division. */
  function DivCeil(num: nat, d: nat): nat
    requires d > 0
  {
    (num + (d - 1)) % TWO_64 / d
  }

  /** The virtual page of an address, and the physical frame of an address or entry. */
  function Page(a: nat): nat { a / PAGE_SIZE % PAGES }
  function Frame(e: nat): nat { e / PAGE_SIZE % 0x100_0000_0000 }

  lemma Pow2Values()
    ensures Pow2(9) == 512 && Pow2(12) == 4096 && Pow2(17) == 0x2_0000 && Pow2(40) == 0x100_0000_0000
    ensures Pow2(47) == 0x8000_0000_0000 && Pow2(52) == 0x10_0000_0000_0000 && Pow2(64) == TWO_64
  {
    assert Pow2(3) == 8 && Pow2(4) == 16 && Pow2(5) == 32 && Pow2(7) == 128 && Pow2(8) == 256 && Pow2(9) == 512;
    hide Pow2;
    Doubles(9, 3, 8);
    Doubles(12, 5, 32);
    Doubles(17, 8, 256);
    Doubles(25, 8, 256);
    Doubles(33, 7, 128);
    Doubles(40, 7, 128);
    Doubles(47, 5, 32);
    Doubles(52, 8, 256);
    Doubles(60, 4, 16);
  }

  lemma {:induction false} Doubles(a: nat, b: nat, p: nat)
    requires b <= 8 && p == Pow2(b)
    ensures Pow2(a + b) == p * Pow2(a)
    decreases b
  {
    if b > 0 {
      Doubles(a, b - 1, Pow2(b - 1));
      assert 2 * (Pow2(b - 1) * Pow2(a)) == p * Pow2(a);
    }
  }

  lemma {:induction false} ShlIsMul(x: nat, k: nat)
    ensures Shl(x, k) == x * Pow2(k)
  {
    if k > 0 {
      ShlIsMul(x, k - 1);
      assert 2 * (x * Pow2(k - 1)) == x * (2 * Pow2(k - 1));
    }
  }

  lemma {:induction false} ShrIsDiv(x: nat, k: nat)
    ensures Shr(x, k) == x / Pow2(k)
  {
    if k > 0 {
      ShrIsDiv(x / 2, k - 1);
      DivTwice(x, Pow2(k - 1));
    }
  }

  lemma DivTwice(a: nat, p: nat)
    requires p > 0
    ensures a / 2 / p == a / (2 * p)
  {
    var q, r := a / 2 / p, a / 2 % p;
    assert a == q * (2 * p) + (2 * r + a % 2) by {
      assert a / 2 == q * p + r;
      assert q * (2 * p) == 2 * (q * p);
    }
    DivUnique(a, 2 * p, q, 2 * r + a % 2);
  }

  /** A mask of w ones above k zeros selects bits k to k+w-1. */
  lemma MaskIs(a: nat, k: nat, w: nat, pk: nat, pw: nat, mask: nat)
    requires pk == Pow2(k) && pw == Pow2(w) && mask == (pw - 1) * pk
    ensures And(a, mask) == a / pk % pw * pk
  {
    AndField(a, k, w);
    ShlIsMul(pw - 1, k);
    ShlIsMul(Shr(a, k) % pw, k);
    ShrIsDiv(a, k);
  }

  /** ALIGN_ADDR rounds a 64-bit address down to its page. */
  lemma AlignAddrIs(a: nat)
    requires a < TWO_64
    ensures AlignAddr(a) == a / PAGE_SIZE * PAGE_SIZE
  {
    hide Pow2, And;
    Pow2Values();
    MaskIs(a, 12, 52, 4096, 0x10_0000_0000_0000, TWO_64 - 4096);
  }

  /** Masking an entry with SIGN_MASK gives the address of its frame. */
  lemma SignMaskIs(e: nat)
    ensures And(e, SIGN_MASK) == Frame(e) * PAGE_SIZE
  {
    hide Pow2, And;
    Pow2Values();
    MaskIs(e, 12, 40, 4096, 0x100_0000_0000, SIGN_MASK);
  }

  /** The low bit, C's `e & 1`. */
  lemma PresentIs(e: nat)
    ensures And(e, 1) == e % 2
  {
    AndLow(e, 1);
    assert Pow2(1) == 2;
  }

  /** Or-ing flags into a page-aligned address is addition. */
  lemma EntryIs(p: nat, flags: nat)
    requires flags < PAGE_SIZE && p % PAGE_SIZE == 0
    ensures Or(p, flags) == p + flags
  {
    Pow2Values();
    OrDisjoint(p / PAGE_SIZE, flags, 12);
    ShlIsMul(p / PAGE_SIZE, 12);
  }

  lemma IndexIs(a: nat, k: nat, pk: nat)
    requires pk == Pow2(k)
    ensures And(Shr(a, k), 0x1FF) == a / pk % 512
  {
    Pow2Values();
    ShrIsDiv(a, k);
    AndLow(Shr(a, k), 9);
  }

  lemma Digits(a: nat)
    ensures Page(a) % 512 == a / 4096 % 512
    ensures Page(a) / 512 % 512 == a / 0x20_0000 % 512
    ensures Page(a) / 512 / 512 % 512 == a / 0x4000_0000 % 512
    ensures Page(a) / 512 / 512 / 512 % 512 == a / 0x80_0000_0000 % 512
  {
    var n := a / 4096;
    Shifts(a, n);
    DigitsBelow(n, n / PAGES, n % PAGES);
  }

  lemma Shifts(a: nat, n: nat)
    requires n == a / 4096
    ensures a / 0x20_0000 == n / 512
    ensures a / 0x4000_0000 == n / 512 / 512
    ensures a / 0x80_0000_0000 == n / 512 / 512 / 512
  {
    hide *;
  }

  lemma DigitsBelow(n: nat, h: nat, l: nat)
    requires n == 0x10_0000_0000 * h + l && l < 0x10_0000_0000
    ensures n % 512 == l % 512
    ensures n / 512 % 512 == l / 512 % 512
    ensures n / 512 / 512 % 512 == l / 512 / 512 % 512
    ensures n / 512 / 512 / 512 % 512 == l / 512 / 512 / 512 % 512
  {
    NextDigit(n, 0x800_0000 * h, l);
    NextDigit(n / 512, 0x4_0000 * h, l / 512);
    NextDigit(n / 512 / 512, 512 * h, l / 512 / 512);
    NextDigit(n / 512 / 512 / 512, h, l / 512 / 512 / 512);
  }

  lemma NextDigit(n: nat, q: nat, l: nat)
    requires n == 512 * q + l
    ensures n / 512 == q + l / 512 && n % 512 == l % 512
  {
    hide *;
  }

  /** The four indices of an address are the base-512 digits of its page number. */
  lemma IndicesAre(a: nat)
    ensures P1Entry(a) == Page(a) % 512
    ensures P2Entry(a) == Page(a) / 512 % 512
    ensures P3Entry(a) == Page(a) / 512 / 512 % 512
    ensures P4Entry(a) == Page(a) / 512 / 512 / 512 % 512
  {
    assert Pow2(21) == 0x20_0000 && Pow2(30) == 0x4000_0000 && Pow2(39) == 0x80_0000_0000 by {
      Pow2Values();
      Doubles(12, 8, 256);
      Doubles(20, 1, 2);
      Doubles(21, 8, 256);
      Doubles(29, 1, 2);
      Doubles(30, 8, 256);
      Doubles(38, 1, 2);
    }
    assert Pow2(12) == 4096 by { Pow2Values(); }
    Digits(a);
    IndexIs(a, 12, 4096);
    IndexIs(a, 21, 0x20_0000);
    IndexIs(a, 30, 0x4000_0000);
    IndexIs(a, 39, 0x80_0000_0000);
  }

  /** Aligning an address first does not change its page or its indices. */
  lemma IndicesOfAligned(a: nat)
    requires a < TWO_64
    ensures P1Entry(AlignAddr(a)) == Page(a) % 512
    ensures P2Entry(AlignAddr(a)) == Page(a) / 512 % 512
    ensures P3Entry(AlignAddr(a)) == Page(a) / 512 / 512 % 512
    ensures P4Entry(AlignAddr(a)) == Page(a) / 512 / 512 / 512 % 512
  {
    hide AlignAddr, P1Entry, P2Entry, P3Entry, P4Entry;
    AlignAddrIs(a);
    IndicesAre(AlignAddr(a));
  }

  /** PADDR keeps the low 47 bits. */
  lemma PAddrIs(a: nat)
    ensures PAddr(a) == a % 0x8000_0000_0000
  {
    Pow2Values();
    NotHigherHalf();
    AndLow(a, 47);
  }

  /** PADDR undoes VADDR on physical addresses, which VADDR moves up by the higher-half offset. */
  lemma PAddrUndoesVAddr(a: nat)
    requires a < 0x8000_0000_0000
    ensures VAddr(a) == a + HIGHER_HALF_OFFSET && PAddr(VAddr(a)) == a == PAddr(a)
  {
    hide Or, PAddr;
    calc {
      Or(a, HIGHER_HALF_OFFSET);
    == { OrSwap(a, HIGHER_HALF_OFFSET); }
      Or(HIGHER_HALF_OFFSET, a);
    == { AboveLowHalf(a); }
      a + HIGHER_HALF_OFFSET;
    }
    PAddrIs(a);
    PAddrIs(VAddr(a));
  }

  lemma AboveLowHalf(a: nat)
    requires a < 0x8000_0000_0000
    ensures Or(HIGHER_HALF_OFFSET, a) == a + HIGHER_HALF_OFFSET
  {
    HigherHalfIs();
    hide Or, Shl, Pow2;
    OrDisjoint(0x1_FFFF, a, 47);
  }

  lemma HigherHalfIs()
    ensures Shl(0x1_FFFF, 47) == HIGHER_HALF_OFFSET && Pow2(47) == 0x8000_0000_0000
  {
    hide Shl, Pow2;
    Pow2Values();
    ShlIsMul(0x1_FFFF, 47);
  }

  lemma {:induction false} OrSwap(a: nat, b: nat)
    ensures Or(a, b) == Or(b, a)
    decreases a + b
  {
    if a > 0 || b > 0 { OrSwap(a / 2, b / 2); }
  }

  lemma NotHigherHalf()
    ensures Not(HIGHER_HALF_OFFSET, 64) == Pow2(47) - 1
  {
    Pow2Values();
    ShlIsMul(0x1_FFFF, 47);
    NotShifted(0x1_FFFF, 47, 64);
    NotOnes(17);
    ShiftZero(47);
  }

  lemma {:induction false} NotShifted(x: nat, k: nat, w: nat)
    requires k <= w
    ensures Not(Shl(x, k), w) == Shl(Not(x, w - k), k) + Pow2(k) - 1
    decreases k
  {
    if k > 0 { NotShifted(x, k - 1, w - 1); }
  }

  lemma {:induction false} NotOnes(w: nat)
    ensures Not(Pow2(w) - 1, w) == 0
  {
    if w > 0 {
      assert (Pow2(w) - 1) / 2 == Pow2(w - 1) - 1;
      NotOnes(w - 1);
    }
  }

  /** DIV_CEIL is the ceiling exactly when the addition inside it does not wrap;
      when it wraps, the quotient no longer covers the dividend. */
  lemma DivCeilIs(num: nat, d: nat)
    requires 0 < d < TWO_64 && num < TWO_64
    ensures num <= DivCeil(num, d) * d <==> num + d - 1 < TWO_64
    ensures num + d - 1 < TWO_64 ==> DivCeil(num, d) * d < num + d
  {
    var sum := (num + (d - 1)) % TWO_64;
    assert sum == sum / d * d + sum % d;
    if num + d - 1 >= TWO_64 {
      assert sum < num;
    }
  }

  /** The address of frame n: its page number is n, and it is aligned. */
  lemma FrameAddress(n: nat)
    requires n < PAGES
    ensures Page(n * PAGE_SIZE) == n && AlignAddr(n * PAGE_SIZE) == n * PAGE_SIZE
    ensures Or(n * PAGE_SIZE, KERNEL_PT_ENTRY) == n * PAGE_SIZE + KERNEL_PT_ENTRY
    ensures Or(n * PAGE_SIZE, USER_PT_ENTRY) == n * PAGE_SIZE + USER_PT_ENTRY
  {
    hide Or, And, AlignAddr;
    AlignAddrIs(n * PAGE_SIZE);
    EntryIs(n * PAGE_SIZE, KERNEL_PT_ENTRY);
    EntryIs(n * PAGE_SIZE, USER_PT_ENTRY);
  }

  /** The addresses of consecutive pages. */
  lemma PageOfRange(physical: nat, virtual: nat, i: nat)
    requires physical + (i + 1) * PAGE_SIZE <= TWO_64 && virtual + (i + 1) * PAGE_SIZE <= TWO_64
    requires Page(virtual) + i < PAGES
    ensures Page(virtual + i * PAGE_SIZE) == Page(virtual) + i
    ensures AlignAddr(physical + i * PAGE_SIZE) == AlignAddr(physical) + i * PAGE_SIZE
    ensures (physical + i * PAGE_SIZE) % TWO_64 == physical + i * PAGE_SIZE
    ensures (virtual + i * PAGE_SIZE) % TWO_64 == virtual + i * PAGE_SIZE
  {
    hide AlignAddr;
    AlignAddrIs(physical);
    AlignAddrIs(physical + i * PAGE_SIZE);
  }
}
