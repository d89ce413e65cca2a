/**
 * Virtual-address arithmetic of x86-64 4-level paging: the page and slot
 * sizes, the four table indices (bits 47..39, 38..30, 29..21 and 20..12 of an
 * address) and the offsets inside a 4 KiB, 2 MiB and 1 GiB page.
 *
 * Everything is stated on unbounded naturals. The lemmas decompose an address
 * into its index "digits" and relate equal digits to nearby addresses; the
 * page-table proofs use nothing else about division.
 */
module Addresses {

  const BASE_PAGE_SIZE: nat := 0x1000            // 4 KiB
  const LARGE_PAGE_SIZE: nat := 0x20_0000        // 2 MiB
  const HUGE_PAGE_SIZE: nat := 0x4000_0000       // 1 GiB
  const PML4_SLOT_SIZE: nat := 0x80_0000_0000    // 512 GiB, covered by one PML4 entry
  const ADDRESS_SPAN: nat := 0x1_0000_0000_0000  // 2^48, covered by one PML4 table
  const ENTRIES: nat := 512                      // entries per table

  function Pml4Index(v: nat): (i: nat)
    ensures i < ENTRIES
  {
    (v / PML4_SLOT_SIZE) % 512
  }

  function PdptIndex(v: nat): (i: nat)
    ensures i < ENTRIES
  {
    (v / HUGE_PAGE_SIZE) % 512
  }

  function PdIndex(v: nat): (i: nat)
    ensures i < ENTRIES
  {
    (v / LARGE_PAGE_SIZE) % 512
  }

  function PtIndex(v: nat): (i: nat)
    ensures i < ENTRIES
  {
    (v / BASE_PAGE_SIZE) % 512
  }

  function BasePageOffset(v: nat): nat { v % BASE_PAGE_SIZE }

  function LargePageOffset(v: nat): nat { v % LARGE_PAGE_SIZE }

  function HugePageOffset(v: nat): nat { v % HUGE_PAGE_SIZE }

  /** Euclidean division has a unique quotient and remainder. */
  lemma DivUnique(x: int, d: int, q: int, r: int)
    requires d > 0 && 0 <= r < d && x == d * q + r
    ensures x / d == q && x % d == r
  {
    var q', r' := x / d, x % d;
    assert x == d * q' + r';
    assert d * (q' - q) == r - r';
    if q' > q { PositiveMultiple(d, q' - q); }
    if q' < q { PositiveMultiple(d, q - q'); }
  }

  lemma PositiveMultiple(d: int, k: int)
    requires d > 0 && k >= 1
    ensures d * k >= d
  {
  }

  /** The sum of two 4 KiB-aligned values is 4 KiB-aligned. */
  lemma AlignedSum(a: nat, b: nat)
    requires a % BASE_PAGE_SIZE == 0 && b % BASE_PAGE_SIZE == 0
    ensures (a + b) % BASE_PAGE_SIZE == 0
  {
    DivUnique(a + b, BASE_PAGE_SIZE, a / BASE_PAGE_SIZE + b / BASE_PAGE_SIZE, 0);
  }

  /** Of two distinct 4 KiB-aligned values, the larger is at least a page above the smaller. */
  lemma AlignedAbove(a: nat, b: nat)
    requires a % BASE_PAGE_SIZE == 0 && b % BASE_PAGE_SIZE == 0 && a < b
    ensures a + BASE_PAGE_SIZE <= b
  {
    DivUnique(a, BASE_PAGE_SIZE, a / BASE_PAGE_SIZE, 0);
    DivUnique(b, BASE_PAGE_SIZE, b / BASE_PAGE_SIZE, 0);
  }

  /** A multiple of a multiple of 4 KiB is 4 KiB-aligned. */
  lemma AlignedByMultiple(x: nat, s: nat)
    requires s > 0 && s % BASE_PAGE_SIZE == 0 && x % s == 0
    ensures x % BASE_PAGE_SIZE == 0
  {
    var p, q := s / BASE_PAGE_SIZE, x / s;
    assert x == s * q;
    assert s == BASE_PAGE_SIZE * p;
    assert x == BASE_PAGE_SIZE * (p * q);
    DivUnique(x, BASE_PAGE_SIZE, p * q, 0);
  }

  /**
   * A whole number of 2 MiB or 1 GiB pages is a whole number of 4 KiB pages,
   * and that many pages of its own size.
   */
  lemma PageMultiple(n: nat)
    ensures (LARGE_PAGE_SIZE * n) % BASE_PAGE_SIZE == 0 && (HUGE_PAGE_SIZE * n) % BASE_PAGE_SIZE == 0
    ensures (LARGE_PAGE_SIZE * n) % LARGE_PAGE_SIZE == 0 && (LARGE_PAGE_SIZE * n) / LARGE_PAGE_SIZE == n
    ensures (HUGE_PAGE_SIZE * n) % HUGE_PAGE_SIZE == 0 && (HUGE_PAGE_SIZE * n) / HUGE_PAGE_SIZE == n
  {
    DivUnique(LARGE_PAGE_SIZE * n, BASE_PAGE_SIZE, 0x200 * n, 0);
    DivUnique(HUGE_PAGE_SIZE * n, BASE_PAGE_SIZE, 0x4_0000 * n, 0);
    DivUnique(LARGE_PAGE_SIZE * n, LARGE_PAGE_SIZE, n, 0);
    DivUnique(HUGE_PAGE_SIZE * n, HUGE_PAGE_SIZE, n, 0);
  }

  /** One index "digit" at a time. */
  lemma DigitSteps(v: nat)
    ensures v == BASE_PAGE_SIZE * (v / BASE_PAGE_SIZE) + v % BASE_PAGE_SIZE
    ensures v / BASE_PAGE_SIZE == 512 * (v / LARGE_PAGE_SIZE) + PtIndex(v)
    ensures v / LARGE_PAGE_SIZE == 512 * (v / HUGE_PAGE_SIZE) + PdIndex(v)
    ensures v / HUGE_PAGE_SIZE == 512 * (v / PML4_SLOT_SIZE) + PdptIndex(v)
    ensures v / PML4_SLOT_SIZE == 512 * (v / ADDRESS_SPAN) + Pml4Index(v)
  {
  }

  /** Every address is the sum of its digits, its page offset and the bits above bit 47. */
  lemma Decompose(v: nat)
    ensures v == ADDRESS_SPAN * (v / ADDRESS_SPAN) + PML4_SLOT_SIZE * Pml4Index(v)
               + HUGE_PAGE_SIZE * PdptIndex(v) + LARGE_PAGE_SIZE * PdIndex(v)
               + BASE_PAGE_SIZE * PtIndex(v) + BasePageOffset(v)
  {
    DigitSteps(v);
  }

  /** Conversely, digits in range determine the indices and the offsets. */
  lemma Compose(v: nat, h: nat, a: nat, b: nat, c: nat, d: nat, e: nat)
    requires a < 512 && b < 512 && c < 512 && d < 512 && e < BASE_PAGE_SIZE
    requires v == ADDRESS_SPAN * h + PML4_SLOT_SIZE * a + HUGE_PAGE_SIZE * b
                  + LARGE_PAGE_SIZE * c + BASE_PAGE_SIZE * d + e
    ensures Pml4Index(v) == a && PdptIndex(v) == b && PdIndex(v) == c && PtIndex(v) == d
    ensures BasePageOffset(v) == e
    ensures LargePageOffset(v) == BASE_PAGE_SIZE * d + e
    ensures HugePageOffset(v) == LARGE_PAGE_SIZE * c + BASE_PAGE_SIZE * d + e
    ensures v / ADDRESS_SPAN == h
  {
    var q4 := 512 * h + a;
    var q3 := 512 * q4 + b;
    var q2 := 512 * q3 + c;
    var q1 := 512 * q2 + d;
    DivUnique(v, BASE_PAGE_SIZE, q1, e);
    DigitSteps(v);
    DivUnique(q1, 512, q2, d);
    DivUnique(q2, 512, q3, c);
    DivUnique(q3, 512, q4, b);
    DivUnique(q4, 512, h, a);
    DivUnique(v, LARGE_PAGE_SIZE, q2, BASE_PAGE_SIZE * d + e);
    DivUnique(v, HUGE_PAGE_SIZE, q3, LARGE_PAGE_SIZE * c + BASE_PAGE_SIZE * d + e);
  }

  /** The low digits of an address are its offsets. */
  lemma Offsets(v: nat)
    ensures LargePageOffset(v) == BASE_PAGE_SIZE * PtIndex(v) + BasePageOffset(v)
    ensures HugePageOffset(v) == LARGE_PAGE_SIZE * PdIndex(v) + LargePageOffset(v)
  {
    Decompose(v);
    Compose(v, v / ADDRESS_SPAN, Pml4Index(v), PdptIndex(v), PdIndex(v), PtIndex(v), BasePageOffset(v));
  }

  /**
   * Two addresses with the same four indices, the second 4 KiB aligned, lie
   * in the same 4 KiB page modulo the 48-bit span.
   */
  lemma SharedBaseSlot(u: nat, v: nat)
    requires v % BASE_PAGE_SIZE == 0
    requires Pml4Index(u) == Pml4Index(v) && PdptIndex(u) == PdptIndex(v)
    requires PdIndex(u) == PdIndex(v) && PtIndex(u) == PtIndex(v)
    ensures (u - v) % ADDRESS_SPAN < BASE_PAGE_SIZE
  {
    Decompose(u);
    Decompose(v);
    DivUnique(u - v, ADDRESS_SPAN, u / ADDRESS_SPAN - v / ADDRESS_SPAN, BasePageOffset(u));
  }

  /** The same for the first three indices and 2 MiB pages. */
  lemma SharedLargeSlot(u: nat, v: nat)
    requires v % LARGE_PAGE_SIZE == 0
    requires Pml4Index(u) == Pml4Index(v) && PdptIndex(u) == PdptIndex(v) && PdIndex(u) == PdIndex(v)
    ensures (u - v) % ADDRESS_SPAN < LARGE_PAGE_SIZE
  {
    Decompose(u);
    Decompose(v);
    Offsets(u);
    Offsets(v);
    DivUnique(u - v, ADDRESS_SPAN, u / ADDRESS_SPAN - v / ADDRESS_SPAN, LargePageOffset(u));
  }

  /** The same for the first two indices and 1 GiB pages. */
  lemma SharedHugeSlot(u: nat, v: nat)
    requires v % HUGE_PAGE_SIZE == 0
    requires Pml4Index(u) == Pml4Index(v) && PdptIndex(u) == PdptIndex(v)
    ensures (u - v) % ADDRESS_SPAN < HUGE_PAGE_SIZE
  {
    Decompose(u);
    Decompose(v);
    Offsets(u);
    Offsets(v);
    DivUnique(u - v, ADDRESS_SPAN, u / ADDRESS_SPAN - v / ADDRESS_SPAN, HugePageOffset(u));
  }

  /**
   * The virtual position of PDPT slot `pdpt_idx` in PML4 slot `pml4_idx`
   * equals the address exactly when the address is 1 GiB aligned and below
   * 2^48 (the 1 GiB test of map_generic).
   */
  lemma HugeSlotPosition(v: nat)
    ensures PML4_SLOT_SIZE * Pml4Index(v) + HUGE_PAGE_SIZE * PdptIndex(v) == v
            <==> v < ADDRESS_SPAN && v % HUGE_PAGE_SIZE == 0
  {
    Decompose(v);
    Offsets(v);
    if v < ADDRESS_SPAN && v % HUGE_PAGE_SIZE == 0 {
      assert v / ADDRESS_SPAN == 0;
    }
    if PML4_SLOT_SIZE * Pml4Index(v) + HUGE_PAGE_SIZE * PdptIndex(v) == v {
      DivUnique(v, HUGE_PAGE_SIZE, 512 * Pml4Index(v) + PdptIndex(v), 0);
    }
  }

  /** The same at the PD level, for 2 MiB pages. */
  lemma LargeSlotPosition(v: nat)
    ensures PML4_SLOT_SIZE * Pml4Index(v) + HUGE_PAGE_SIZE * PdptIndex(v) + LARGE_PAGE_SIZE * PdIndex(v) == v
            <==> v < ADDRESS_SPAN && v % LARGE_PAGE_SIZE == 0
  {
    Decompose(v);
    Offsets(v);
    if v < ADDRESS_SPAN && v % LARGE_PAGE_SIZE == 0 {
      assert v / ADDRESS_SPAN == 0;
    }
    if PML4_SLOT_SIZE * Pml4Index(v) + HUGE_PAGE_SIZE * PdptIndex(v) + LARGE_PAGE_SIZE * PdIndex(v) == v {
      DivUnique(v, LARGE_PAGE_SIZE, 512 * 512 * Pml4Index(v) + 512 * PdptIndex(v) + PdIndex(v), 0);
    }
  }

  /** An address inside the 1 GiB page at PDPT slot (a, b) has those indices and its offset. */
  lemma InHugePage(a: nat, b: nat, o: nat)
    requires a < 512 && b < 512 && o < HUGE_PAGE_SIZE
    ensures var u := PML4_SLOT_SIZE * a + HUGE_PAGE_SIZE * b + o;
            Pml4Index(u) == a && PdptIndex(u) == b && HugePageOffset(u) == o
  {
    Decompose(o);
    Offsets(o);
    Compose(PML4_SLOT_SIZE * a + HUGE_PAGE_SIZE * b + o, 0, a, b, PdIndex(o), PtIndex(o), BasePageOffset(o));
  }

  /** An address inside the 2 MiB page at PD slot (a, b, c) has those indices and its offset. */
  lemma InLargePage(a: nat, b: nat, c: nat, o: nat)
    requires a < 512 && b < 512 && c < 512 && o < LARGE_PAGE_SIZE
    ensures var u := PML4_SLOT_SIZE * a + HUGE_PAGE_SIZE * b + LARGE_PAGE_SIZE * c + o;
            Pml4Index(u) == a && PdptIndex(u) == b && PdIndex(u) == c && LargePageOffset(u) == o
  {
    Decompose(o);
    Offsets(o);
    Compose(PML4_SLOT_SIZE * a + HUGE_PAGE_SIZE * b + LARGE_PAGE_SIZE * c + o, 0, a, b, c, PtIndex(o), BasePageOffset(o));
  }

  /** An address inside the 4 KiB page at PT slot (a, b, c, d), above bit 47 equal to h. */
  lemma InBasePage(h: nat, a: nat, b: nat, c: nat, d: nat, o: nat)
    requires a < 512 && b < 512 && c < 512 && d < 512 && o < BASE_PAGE_SIZE
    ensures var u := ADDRESS_SPAN * h + PML4_SLOT_SIZE * a + HUGE_PAGE_SIZE * b
                     + LARGE_PAGE_SIZE * c + BASE_PAGE_SIZE * d + o;
            Pml4Index(u) == a && PdptIndex(u) == b && PdIndex(u) == c && PtIndex(u) == d
            && BasePageOffset(u) == o
  {
    Compose(ADDRESS_SPAN * h + PML4_SLOT_SIZE * a + HUGE_PAGE_SIZE * b + LARGE_PAGE_SIZE * c
            + BASE_PAGE_SIZE * d + o, h, a, b, c, d, o);
  }

  /** The walk ignores the bits above bit 47: v and v mod 2^48 have the same indices and offsets. */
  lemma HighBitsIgnored(v: nat)
    ensures var w := v % ADDRESS_SPAN;
            Pml4Index(w) == Pml4Index(v) && PdptIndex(w) == PdptIndex(v) && PdIndex(w) == PdIndex(v)
            && PtIndex(w) == PtIndex(v) && BasePageOffset(w) == BasePageOffset(v)
            && LargePageOffset(w) == LargePageOffset(v) && HugePageOffset(w) == HugePageOffset(v)
  {
    Decompose(v);
    Offsets(v);
    var w := v % ADDRESS_SPAN;
    DivUnique(v, ADDRESS_SPAN, v / ADDRESS_SPAN, v - ADDRESS_SPAN * (v / ADDRESS_SPAN));
    Compose(w, 0, Pml4Index(v), PdptIndex(v), PdIndex(v), PtIndex(v), BasePageOffset(v));
  }

  /** `u` lies in the region of `size` bytes starting at `vbase`, counted modulo 2^48. */
  predicate InRegion(u: nat, vbase: nat, size: nat) {
    (u - vbase) % ADDRESS_SPAN < size
  }

  /** A region inside [vbase + m, vbase + m + n) lies inside [vbase, vbase + m + n). */
  lemma RegionGrow(u: nat, vbase: nat, m: nat, n: nat)
    ensures InRegion(u, vbase + m, n) ==> InRegion(u, vbase, m + n)
  {
    if InRegion(u, vbase + m, n) && m + n < ADDRESS_SPAN {
      var d := (u - vbase - m) % ADDRESS_SPAN;
      DivUnique(u - vbase, ADDRESS_SPAN, (u - vbase - m) / ADDRESS_SPAN, d + m);
    }
  }

  /** A region splits into its first `m` bytes and the rest. */
  lemma RegionSplit(u: nat, vbase: nat, m: nat, size: nat)
    requires m <= size
    ensures InRegion(u, vbase, size) <==> InRegion(u, vbase, m) || InRegion(u, vbase + m, size - m)
  {
    var d := (u - vbase) % ADDRESS_SPAN;
    if m <= d {
      DivUnique(u - vbase - m, ADDRESS_SPAN, (u - vbase) / ADDRESS_SPAN, d - m);
    }
    RegionGrow(u, vbase, m, size - m);
  }

  /** Below 2^48, `vbase + k` lies in the region exactly when `k` is below its size. */
  lemma RegionStart(vbase: nat, k: nat, size: nat)
    requires k < ADDRESS_SPAN
    ensures InRegion(vbase + k, vbase, size) <==> k < size
  {
    DivUnique(k, ADDRESS_SPAN, 0, k);
  }

  /** An address before a region that ends within 2^48 of it is outside it. */
  lemma RegionBefore(vbase: nat, k: nat, m: nat, n: nat)
    requires k < m && m + n <= ADDRESS_SPAN
    ensures !InRegion(vbase + k, vbase + m, n)
  {
    DivUnique(k - m, ADDRESS_SPAN, -1, ADDRESS_SPAN + k - m);
  }
}
