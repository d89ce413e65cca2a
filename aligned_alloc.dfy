/**
 * allocate_pages_aligned: over-allocate by one alignment's worth of pages,
 * keep the aligned part. The raw allocation (allocate_pages, a call into the
 * global allocator with a 4 KiB layout) is a parameter: `paddr` is the base
 * of the pages it returned.
 */
module AlignedAlloc {
  import opened Addresses

  /** usize and u64 values lie below 2^64. */
  const WORD_RANGE: nat := 0x1_0000_0000_0000_0000

  /** usize::is_power_of_two. */
  predicate IsPowerOfTwo(a: nat) {
    a == 1 || (a >= 2 && a % 2 == 0 && IsPowerOfTwo(a / 2))
  }

  /** The outcome of allocate_pages_aligned: the aligned base, or the assertion that stopped it. */
  datatype AlignedOutcome =
    | Allocated(base: nat)
    | CountOverflow   // assert!(actual_how_many >= how_many)
    | Misaligned      // assert_eq!(aligned_paddr % align_to, 0)
    | LostPages       // assert!(bottom + top == actual_how_many - how_many)

  /**
   * actual_how_many: the pages asked for plus one alignment's worth, added
   * with usize wrap-around. It falls below `howMany` exactly when the sum
   * does not fit.
   */
  function ActualPages(howMany: nat, alignTo: nat): (actual: nat)
    requires howMany < WORD_RANGE && alignTo < WORD_RANGE
    ensures actual < WORD_RANGE
    ensures howMany + alignTo / BASE_PAGE_SIZE < WORD_RANGE ==> actual == howMany + alignTo / BASE_PAGE_SIZE
    ensures howMany + alignTo / BASE_PAGE_SIZE >= WORD_RANGE ==> actual < howMany
  {
    (howMany + alignTo / BASE_PAGE_SIZE) % WORD_RANGE
  }

  /** `v & !(a - 1)`: for a power of two `a`, clearing the bits below it rounds down to a multiple of `a`. */
  function AlignDown(v: nat, a: nat): nat
    requires a > 0
  {
    v - v % a
  }

  /**
   * allocate_pages_aligned(how_many, align_to) with the pages allocate_pages
   * returned at `paddr`. Only an overflowing page count stops it; the other
   * two assertions always hold. The base it returns is a multiple of
   * `alignTo`, and its `howMany` pages lie inside the allocated ones.
   */
  function AllocatePagesAligned(howMany: nat, alignTo: nat, paddr: nat): (r: AlignedOutcome)
    requires howMany < WORD_RANGE && alignTo < WORD_RANGE
    requires IsPowerOfTwo(alignTo) && alignTo >= BASE_PAGE_SIZE
    requires paddr % BASE_PAGE_SIZE == 0
    ensures r.CountOverflow? <==> howMany + alignTo / BASE_PAGE_SIZE >= WORD_RANGE
    ensures !r.Misaligned? && !r.LostPages?
    ensures r.Allocated? ==>
              && r.base % alignTo == 0 && r.base % BASE_PAGE_SIZE == 0
              && paddr <= r.base
              && r.base + howMany * BASE_PAGE_SIZE <= paddr + ActualPages(howMany, alignTo) * BASE_PAGE_SIZE
  {
    var alignmentMask := alignTo - 1;
    var actual := ActualPages(howMany, alignTo);
    if actual < howMany then CountOverflow
    else
      var end := paddr + actual * BASE_PAGE_SIZE;
      var aligned := AlignDown(paddr + alignmentMask, alignTo);
      AlignedBottom(alignTo, paddr, aligned);
      UnusedPages(howMany, alignTo / BASE_PAGE_SIZE, actual, paddr, aligned, (aligned - paddr) / BASE_PAGE_SIZE);
      if aligned % alignTo != 0 then Misaligned
      else
        var alignedEnd := aligned + howMany * BASE_PAGE_SIZE;
        var bottom := (aligned - paddr) / BASE_PAGE_SIZE;
        var top := (end - alignedEnd) / BASE_PAGE_SIZE;
        if bottom + top != actual - howMany then LostPages
        else Allocated(aligned)
  }

  /** AlignDown gives a multiple of `a` no more than `a - 1` below its argument. */
  lemma AlignDownBounds(v: nat, a: nat)
    requires a > 0
    ensures AlignDown(v, a) % a == 0 && v - a < AlignDown(v, a) <= v
  {
    DivUnique(AlignDown(v, a), a, v / a, 0);
  }

  /** A power of two is a multiple of every power of two not above it. */
  lemma {:induction false} PowerOfTwoMultiple(a: nat, b: nat)
    requires IsPowerOfTwo(a) && IsPowerOfTwo(b) && b <= a
    ensures a % b == 0
    decreases a
  {
    if b > 1 {
      PowerOfTwoMultiple(a / 2, b / 2);
      var k := (a / 2) / (b / 2);
      assert a / 2 == (b / 2) * k;
      DivUnique(a, b, k, 0);
    }
  }

  /** An alignment of at least 4 KiB is a whole number of pages. */
  lemma AlignmentPages(alignTo: nat)
    requires IsPowerOfTwo(alignTo) && alignTo >= BASE_PAGE_SIZE
    ensures alignTo == BASE_PAGE_SIZE * (alignTo / BASE_PAGE_SIZE)
  {
    assert IsPowerOfTwo(BASE_PAGE_SIZE) by {
      assert IsPowerOfTwo(1) && IsPowerOfTwo(2) && IsPowerOfTwo(4) && IsPowerOfTwo(8) && IsPowerOfTwo(16);
      assert IsPowerOfTwo(32) && IsPowerOfTwo(64) && IsPowerOfTwo(128) && IsPowerOfTwo(256);
      assert IsPowerOfTwo(512) && IsPowerOfTwo(1024) && IsPowerOfTwo(2048);
    }
    PowerOfTwoMultiple(alignTo, BASE_PAGE_SIZE);
  }

  /** A multiple of a whole number of pages is page-aligned. */
  lemma MultipleOfPages(v: nat, alignTo: nat, pages: nat)
    requires alignTo > 0 && v % alignTo == 0 && alignTo == BASE_PAGE_SIZE * pages
    ensures v % BASE_PAGE_SIZE == 0
  {
    var q := v / alignTo;
    assert v == alignTo * q;
    assert v == BASE_PAGE_SIZE * (pages * q) by {
      assert alignTo * q == (BASE_PAGE_SIZE * pages) * q;
    }
    DivUnique(v, BASE_PAGE_SIZE, pages * q, 0);
  }

  /** Two page-aligned addresses lie a whole number of pages apart, fewer than `pages` when they are closer than that many pages. */
  lemma PagesBetween(lo: nat, hi: nat, pages: nat)
    requires lo % BASE_PAGE_SIZE == 0 && hi % BASE_PAGE_SIZE == 0 && lo <= hi < lo + BASE_PAGE_SIZE * pages
    ensures hi - lo == BASE_PAGE_SIZE * ((hi - lo) / BASE_PAGE_SIZE)
    ensures (hi - lo) / BASE_PAGE_SIZE < pages
  {
    DivUnique(lo, BASE_PAGE_SIZE, lo / BASE_PAGE_SIZE, 0);
    DivUnique(hi, BASE_PAGE_SIZE, hi / BASE_PAGE_SIZE, 0);
    var k := hi / BASE_PAGE_SIZE - lo / BASE_PAGE_SIZE;
    assert hi - lo == BASE_PAGE_SIZE * k;
    DivUnique(hi - lo, BASE_PAGE_SIZE, k, 0);
  }

  /**
   * Rounding `paddr + alignTo - 1` down to `alignTo` lands a whole number
   * of pages above `paddr`, at most `alignTo / 4096` of them.
   */
  lemma AlignedBottom(alignTo: nat, paddr: nat, aligned: nat)
    requires IsPowerOfTwo(alignTo) && alignTo >= BASE_PAGE_SIZE
    requires paddr % BASE_PAGE_SIZE == 0
    requires aligned == AlignDown(paddr + alignTo - 1, alignTo)
    ensures aligned % alignTo == 0 && aligned % BASE_PAGE_SIZE == 0 && paddr <= aligned
    ensures aligned == paddr + BASE_PAGE_SIZE * ((aligned - paddr) / BASE_PAGE_SIZE)
    ensures (aligned - paddr) / BASE_PAGE_SIZE <= alignTo / BASE_PAGE_SIZE
  {
    AlignDownBounds(paddr + alignTo - 1, alignTo);
    AlignmentPages(alignTo);
    MultipleOfPages(aligned, alignTo, alignTo / BASE_PAGE_SIZE);
    PagesBetween(paddr, aligned, alignTo / BASE_PAGE_SIZE);
  }

  /**
   * The page counts of allocate_pages_aligned: with the aligned base
   * `bottom` pages above `paddr`, and at most `pages` of them, the `howMany`
   * pages from it end inside the `actual = howMany + pages` allocated, and
   * the pages skipped above number `pages - bottom`.
   */
  lemma UnusedPages(howMany: nat, pages: nat, actual: nat, paddr: nat, aligned: nat, bottom: nat)
    requires actual == howMany + pages
    requires aligned == paddr + BASE_PAGE_SIZE * bottom && bottom <= pages
    ensures aligned + howMany * BASE_PAGE_SIZE <= paddr + actual * BASE_PAGE_SIZE
    ensures (paddr + actual * BASE_PAGE_SIZE - (aligned + howMany * BASE_PAGE_SIZE)) / BASE_PAGE_SIZE
              == pages - bottom
  {
    var rest := paddr + actual * BASE_PAGE_SIZE - (aligned + howMany * BASE_PAGE_SIZE);
    assert rest == BASE_PAGE_SIZE * (pages - bottom);
    DivUnique(rest, BASE_PAGE_SIZE, pages - bottom, 0);
  }
}
