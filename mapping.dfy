/**
 * What map_generic promises, stated on page-table values, and the single
 * steps it is built from. A mapping run from state 0 has made "progress
 * `mapped`" when it only extended the tree, changed no translation outside
 * the first `mapped` bytes of the region, and, if the region was unmapped
 * and no larger than 2^48, translates those bytes to `pbase` onwards.
 */
module Mapping {
  import opened Addresses
  import opened Wrappers
  import opened PageTables
  import MapActions

  /** No address outside the region translates differently. */
  ghost predicate SameOutside(pml4: Table, heap: Heap, pml4': Table, heap': Heap, vbase: nat, size: nat) {
    forall u: nat :: !InRegion(u, vbase, size) ==> Resolve(pml4', heap', u) == Resolve(pml4, heap, u)
  }

  /** No address translates differently at all. */
  ghost predicate SameEverywhere(pml4: Table, heap: Heap, pml4': Table, heap': Heap) {
    forall u: nat :: Resolve(pml4', heap', u) == Resolve(pml4, heap, u)
  }

  /** Every address of [vbase, vbase + size) translates to the same offset from pbase. */
  ghost predicate MapsRange(pml4: Table, heap: Heap, vbase: nat, pbase: nat, size: nat) {
    forall u: nat :: vbase <= u < vbase + size ==> Resolve(pml4, heap, u) == Some(pbase + (u - vbase))
  }

  /** No address of [vbase, vbase + size) translates. */
  ghost predicate Unmapped(pml4: Table, heap: Heap, vbase: nat, size: nat) {
    forall u: nat :: vbase <= u < vbase + size ==> Resolve(pml4, heap, u).None?
  }

  /**
   * The region map_generic can fill: nothing in it is mapped, and it is at
   * most 2^48 bytes long (beyond that the walk, which reads bits 0..47
   * only, meets the start of the region again).
   */
  ghost predicate Fresh(pml4: Table, heap: Heap, vbase: nat, size: nat) {
    size <= ADDRESS_SPAN && Unmapped(pml4, heap, vbase, size)
  }

  ghost predicate Progress(pml4_0: Table, heap_0: Heap, pml4: Table, heap: Heap,
                           vbase: nat, pbase: nat, psize: nat, mapped: nat) {
    && Extends(pml4_0, heap_0, pml4, heap)
    && SameOutside(pml4_0, heap_0, pml4, heap, vbase, mapped)
    && (Fresh(pml4_0, heap_0, vbase, psize) ==> MapsRange(pml4, heap, vbase, pbase, mapped))
  }

  /** Keeping translations outside a region keeps them outside any region that starts there and is longer. */
  lemma SameOutsideGrow(pml4: Table, heap: Heap, pml4': Table, heap': Heap, vbase: nat, m: nat, n: nat)
    requires m <= n && SameOutside(pml4, heap, pml4', heap', vbase, m)
    ensures SameOutside(pml4, heap, pml4', heap', vbase, n)
  {
  }

  lemma ProgressStart(pml4: Table, heap: Heap, vbase: nat, pbase: nat, psize: nat)
    ensures Progress(pml4, heap, pml4, heap, vbase, pbase, psize, 0)
  {
    ExtendsReflexive(pml4, heap);
  }

  /** A step that changes no translation (allocating and hooking in an empty table) keeps progress. */
  lemma ProgressSame(pml4_0: Table, heap_0: Heap, pml4: Table, heap: Heap, pml4': Table, heap': Heap,
                     vbase: nat, pbase: nat, psize: nat, mapped: nat)
    requires Progress(pml4_0, heap_0, pml4, heap, vbase, pbase, psize, mapped)
    requires Extends(pml4, heap, pml4', heap') && SameEverywhere(pml4, heap, pml4', heap')
    ensures Progress(pml4_0, heap_0, pml4', heap', vbase, pbase, psize, mapped)
  {
    ExtendsTransitive(pml4_0, heap_0, pml4, heap, pml4', heap');
  }

  /**
   * Progress `mapped`, followed by a run that maps the remainder from
   * `vbase + mapped` to `pbase + mapped`, is progress over the whole region.
   */
  lemma ProgressCompose(pml4_0: Table, heap_0: Heap, pml4_1: Table, heap_1: Heap, pml4_2: Table, heap_2: Heap,
                        vbase: nat, pbase: nat, psize: nat, mapped: nat)
    requires mapped <= psize
    requires Progress(pml4_0, heap_0, pml4_1, heap_1, vbase, pbase, psize, mapped)
    requires Extends(pml4_1, heap_1, pml4_2, heap_2)
    requires SameOutside(pml4_1, heap_1, pml4_2, heap_2, vbase + mapped, psize - mapped)
    ensures Extends(pml4_0, heap_0, pml4_2, heap_2)
    ensures SameOutside(pml4_0, heap_0, pml4_2, heap_2, vbase, psize)
    ensures Fresh(pml4_0, heap_0, vbase, psize) ==> Fresh(pml4_1, heap_1, vbase + mapped, psize - mapped)
    ensures Fresh(pml4_0, heap_0, vbase, psize) && MapsRange(pml4_2, heap_2, vbase + mapped, pbase + mapped, psize - mapped)
            ==> MapsRange(pml4_2, heap_2, vbase, pbase, psize)
  {
    ExtendsTransitive(pml4_0, heap_0, pml4_1, heap_1, pml4_2, heap_2);
    forall u: nat | !InRegion(u, vbase, psize)
      ensures Resolve(pml4_2, heap_2, u) == Resolve(pml4_0, heap_0, u)
    {
      RegionSplit(u, vbase, mapped, psize);
    }
    if Fresh(pml4_0, heap_0, vbase, psize) {
      forall u: nat | vbase + mapped <= u < vbase + psize
        ensures Resolve(pml4_1, heap_1, u).None?
      {
        RegionStart(vbase, u - vbase, mapped);
      }
      if MapsRange(pml4_2, heap_2, vbase + mapped, pbase + mapped, psize - mapped) {
        forall u: nat | vbase <= u < vbase + mapped
          ensures Resolve(pml4_2, heap_2, u) == Some(pbase + (u - vbase))
        {
          RegionBefore(vbase, u - vbase, mapped, psize - mapped);
        }
      }
    }
  }

  /**
   * A step that maps the `size` bytes at `vbase + mapped` to `pbase + mapped`
   * onwards and changes nothing outside them advances progress by `size`.
   */
  lemma ProgressStep(pml4_0: Table, heap_0: Heap, pml4: Table, heap: Heap, pml4': Table, heap': Heap,
                     vbase: nat, pbase: nat, psize: nat, mapped: nat, size: nat, w: nat, p: nat)
    requires w == vbase + mapped && p == pbase + mapped
    requires Progress(pml4_0, heap_0, pml4, heap, vbase, pbase, psize, mapped)
    requires Extends(pml4, heap, pml4', heap')
    requires SameOutside(pml4, heap, pml4', heap', w, size)
    requires MapsRange(pml4', heap', w, p, size)
    requires mapped + size <= psize
    ensures Progress(pml4_0, heap_0, pml4', heap', vbase, pbase, psize, mapped + size)
  {
    ExtendsTransitive(pml4_0, heap_0, pml4, heap, pml4', heap');
    forall u: nat | !InRegion(u, vbase, mapped + size)
      ensures Resolve(pml4', heap', u) == Resolve(pml4_0, heap_0, u)
    {
      RegionGrow(u, vbase, mapped, size);
    }
    if Fresh(pml4_0, heap_0, vbase, psize) {
      forall u: nat | vbase <= u < vbase + mapped
        ensures Resolve(pml4', heap', u) == Some(pbase + (u - vbase))
      {
        RegionBefore(vbase, u - vbase, mapped, size);
      }
    }
  }

  /**
   * Writing a 1 GiB leaf into the empty PDPT slot whose virtual position is
   * `w` maps [w, w + 1 GiB) onto the leaf and changes nothing else.
   */
  lemma HugeLeafEffect(pml4: Table, heap: Heap, pos: map<nat, seq<nat>>, i4: nat, j: nat, w: nat, leaf: Entry)
    requires WellFormed(pml4, heap, pos)
    requires i4 < ENTRIES && j < ENTRIES && pml4[i4].present && !Slot(heap, pml4[i4].address, j).present
    requires leaf.present && leaf.isPage
    requires w == PML4_SLOT_SIZE * i4 + HUGE_PAGE_SIZE * j
    ensures var heap' := WriteSlot(heap, pml4[i4].address, j, leaf);
            && WellFormed(pml4, heap', pos) && Extends(pml4, heap, pml4, heap')
            && SameOutside(pml4, heap, pml4, heap', w, HUGE_PAGE_SIZE)
            && MapsRange(pml4, heap', w, leaf.address, HUGE_PAGE_SIZE)
  {
    var heap' := WriteSlot(heap, pml4[i4].address, j, leaf);
    WriteHugeLeaf(pml4, heap, pos, i4, j, leaf);
    InHugePage(i4, j, 0);
    forall u: nat | !InRegion(u, w, HUGE_PAGE_SIZE)
      ensures Resolve(pml4, heap', u) == Resolve(pml4, heap, u)
    {
      if Pml4Index(u) == i4 && PdptIndex(u) == j {
        SharedHugeSlot(u, w);
      }
    }
    forall u: nat | w <= u < w + HUGE_PAGE_SIZE
      ensures Resolve(pml4, heap', u) == Some(leaf.address + (u - w))
    {
      InHugePage(i4, j, u - w);
    }
  }

  /** The same for a 2 MiB leaf in the PD under PML4 slot `i4` and PDPT slot `i3`. */
  lemma LargeLeafEffect(pml4: Table, heap: Heap, pos: map<nat, seq<nat>>, i4: nat, i3: nat, j: nat, w: nat,
                        leaf: Entry)
    requires WellFormed(pml4, heap, pos)
    requires i4 < ENTRIES && i3 < ENTRIES && j < ENTRIES && pml4[i4].present
    requires Slot(heap, pml4[i4].address, i3).present && !Slot(heap, pml4[i4].address, i3).isPage
    requires !Slot(heap, Slot(heap, pml4[i4].address, i3).address, j).present
    requires leaf.present && leaf.isPage
    requires w == PML4_SLOT_SIZE * i4 + HUGE_PAGE_SIZE * i3 + LARGE_PAGE_SIZE * j
    ensures var heap' := WriteSlot(heap, Slot(heap, pml4[i4].address, i3).address, j, leaf);
            && WellFormed(pml4, heap', pos) && Extends(pml4, heap, pml4, heap')
            && SameOutside(pml4, heap, pml4, heap', w, LARGE_PAGE_SIZE)
            && MapsRange(pml4, heap', w, leaf.address, LARGE_PAGE_SIZE)
  {
    var heap' := WriteSlot(heap, Slot(heap, pml4[i4].address, i3).address, j, leaf);
    WriteLargeLeaf(pml4, heap, pos, i4, i3, j, leaf);
    InLargePage(i4, i3, j, 0);
    forall u: nat | !InRegion(u, w, LARGE_PAGE_SIZE)
      ensures Resolve(pml4, heap', u) == Resolve(pml4, heap, u)
    {
      if Pml4Index(u) == i4 && PdptIndex(u) == i3 && PdIndex(u) == j {
        SharedLargeSlot(u, w);
      }
    }
    forall u: nat | w <= u < w + LARGE_PAGE_SIZE
      ensures Resolve(pml4, heap', u) == Some(leaf.address + (u - w))
    {
      InLargePage(i4, i3, j, u - w);
    }
  }

  /**
   * The same for a 4 KiB entry in the PT under slots `i4`, `i3` and `i2`;
   * `high` is the part of `w` above bit 47, which the walk ignores.
   */
  lemma BaseEntryEffect(pml4: Table, heap: Heap, pos: map<nat, seq<nat>>, i4: nat, i3: nat, i2: nat, j: nat,
                        high: nat, w: nat, leaf: Entry)
    requires WellFormed(pml4, heap, pos)
    requires i4 < ENTRIES && i3 < ENTRIES && i2 < ENTRIES && j < ENTRIES && pml4[i4].present
    requires Slot(heap, pml4[i4].address, i3).present && !Slot(heap, pml4[i4].address, i3).isPage
    requires Slot(heap, Slot(heap, pml4[i4].address, i3).address, i2).present
    requires !Slot(heap, Slot(heap, pml4[i4].address, i3).address, i2).isPage
    requires !Slot(heap, Slot(heap, Slot(heap, pml4[i4].address, i3).address, i2).address, j).present
    requires leaf.present
    requires w == ADDRESS_SPAN * high + PML4_SLOT_SIZE * i4 + HUGE_PAGE_SIZE * i3
                  + LARGE_PAGE_SIZE * i2 + BASE_PAGE_SIZE * j
    ensures var c := Slot(heap, Slot(heap, pml4[i4].address, i3).address, i2).address;
            var heap' := WriteSlot(heap, c, j, leaf);
            && WellFormed(pml4, heap', pos) && Extends(pml4, heap, pml4, heap')
            && SameOutside(pml4, heap, pml4, heap', w, BASE_PAGE_SIZE)
            && MapsRange(pml4, heap', w, leaf.address, BASE_PAGE_SIZE)
  {
    var c := Slot(heap, Slot(heap, pml4[i4].address, i3).address, i2).address;
    var heap' := WriteSlot(heap, c, j, leaf);
    WriteBaseEntry(pml4, heap, pos, i4, i3, i2, j, leaf);
    InBasePage(high, i4, i3, i2, j, 0);
    forall u: nat | !InRegion(u, w, BASE_PAGE_SIZE)
      ensures Resolve(pml4, heap', u) == Resolve(pml4, heap, u)
    {
      if Pml4Index(u) == i4 && PdptIndex(u) == i3 && PdIndex(u) == i2 && PtIndex(u) == j {
        SharedBaseSlot(u, w);
      }
    }
    forall u: nat | w <= u < w + BASE_PAGE_SIZE
      ensures Resolve(pml4, heap', u) == Some(leaf.address + (u - w))
    {
      InBasePage(high, i4, i3, i2, j, u - w);
    }
  }

  /**
   * One iteration of the 1 GiB loop: the huge leaf for `pbase + mapped`,
   * written into the empty PDPT slot at virtual position `vbase + mapped`,
   * advances progress by 1 GiB.
   */
  lemma HugeStep(pml4_0: Table, heap_0: Heap, pml4: Table, heap: Heap, pos: map<nat, seq<nat>>,
                 vbase: nat, pbase: nat, psize: nat, mapped: nat, i4: nat, j: nat, rights: MapActions.MapAction)
    requires WellFormed(pml4, heap, pos)
    requires Progress(pml4_0, heap_0, pml4, heap, vbase, pbase, psize, mapped)
    requires i4 < ENTRIES && j < ENTRIES && pml4[i4].present && !Slot(heap, pml4[i4].address, j).present
    requires vbase + mapped == PML4_SLOT_SIZE * i4 + HUGE_PAGE_SIZE * j
    requires mapped + HUGE_PAGE_SIZE <= psize
    ensures var heap' := WriteSlot(heap, pml4[i4].address, j, PageLeaf(pbase + mapped, rights));
            WellFormed(pml4, heap', pos)
            && Progress(pml4_0, heap_0, pml4, heap', vbase, pbase, psize, mapped + HUGE_PAGE_SIZE)
  {
    var leaf := PageLeaf(pbase + mapped, rights);
    var heap' := WriteSlot(heap, pml4[i4].address, j, leaf);
    var w := vbase + mapped;
    assert WellFormed(pml4, heap', pos) && Extends(pml4, heap, pml4, heap')
        && SameOutside(pml4, heap, pml4, heap', w, HUGE_PAGE_SIZE)
        && MapsRange(pml4, heap', w, leaf.address, HUGE_PAGE_SIZE) by {
      HugeLeafEffect(pml4, heap, pos, i4, j, w, leaf);
    }
    assert Progress(pml4_0, heap_0, pml4, heap', vbase, pbase, psize, mapped + HUGE_PAGE_SIZE) by {
      ProgressStep(pml4_0, heap_0, pml4, heap, pml4, heap', vbase, pbase, psize, mapped, HUGE_PAGE_SIZE, w, leaf.address);
    }
  }

  /** One iteration of the 2 MiB loop, in the PD under PML4 slot `i4` and PDPT slot `i3`. */
  lemma LargeStep(pml4_0: Table, heap_0: Heap, pml4: Table, heap: Heap, pos: map<nat, seq<nat>>,
                  vbase: nat, pbase: nat, psize: nat, mapped: nat, i4: nat, i3: nat, j: nat,
                  rights: MapActions.MapAction)
    requires WellFormed(pml4, heap, pos)
    requires Progress(pml4_0, heap_0, pml4, heap, vbase, pbase, psize, mapped)
    requires i4 < ENTRIES && i3 < ENTRIES && j < ENTRIES && pml4[i4].present
    requires Slot(heap, pml4[i4].address, i3).present && !Slot(heap, pml4[i4].address, i3).isPage
    requires !Slot(heap, Slot(heap, pml4[i4].address, i3).address, j).present
    requires vbase + mapped == PML4_SLOT_SIZE * i4 + HUGE_PAGE_SIZE * i3 + LARGE_PAGE_SIZE * j
    requires mapped + LARGE_PAGE_SIZE <= psize
    ensures var pd := Slot(heap, pml4[i4].address, i3).address;
            var heap' := WriteSlot(heap, pd, j, PageLeaf(pbase + mapped, rights));
            WellFormed(pml4, heap', pos)
            && Progress(pml4_0, heap_0, pml4, heap', vbase, pbase, psize, mapped + LARGE_PAGE_SIZE)
  {
    var leaf := PageLeaf(pbase + mapped, rights);
    var pd := Slot(heap, pml4[i4].address, i3).address;
    var heap' := WriteSlot(heap, pd, j, leaf);
    var w := vbase + mapped;
    assert WellFormed(pml4, heap', pos) && Extends(pml4, heap, pml4, heap')
        && SameOutside(pml4, heap, pml4, heap', w, LARGE_PAGE_SIZE)
        && MapsRange(pml4, heap', w, leaf.address, LARGE_PAGE_SIZE) by {
      LargeLeafEffect(pml4, heap, pos, i4, i3, j, w, leaf);
    }
    assert Progress(pml4_0, heap_0, pml4, heap', vbase, pbase, psize, mapped + LARGE_PAGE_SIZE) by {
      ProgressStep(pml4_0, heap_0, pml4, heap, pml4, heap', vbase, pbase, psize, mapped, LARGE_PAGE_SIZE, w, leaf.address);
    }
  }

  /**
   * One iteration of the 4 KiB loop that finds the PT slot empty; `high`
   * is the part of `vbase + mapped` above bit 47.
   */
  lemma BaseStep(pml4_0: Table, heap_0: Heap, pml4: Table, heap: Heap, pos: map<nat, seq<nat>>,
                 vbase: nat, pbase: nat, psize: nat, mapped: nat, high: nat, i4: nat, i3: nat, i2: nat, j: nat,
                 rights: MapActions.MapAction)
    requires WellFormed(pml4, heap, pos)
    requires Progress(pml4_0, heap_0, pml4, heap, vbase, pbase, psize, mapped)
    requires i4 < ENTRIES && i3 < ENTRIES && i2 < ENTRIES && j < ENTRIES && pml4[i4].present
    requires Slot(heap, pml4[i4].address, i3).present && !Slot(heap, pml4[i4].address, i3).isPage
    requires Slot(heap, Slot(heap, pml4[i4].address, i3).address, i2).present
    requires !Slot(heap, Slot(heap, pml4[i4].address, i3).address, i2).isPage
    requires !Slot(heap, Slot(heap, Slot(heap, pml4[i4].address, i3).address, i2).address, j).present
    requires vbase + mapped == ADDRESS_SPAN * high + PML4_SLOT_SIZE * i4 + HUGE_PAGE_SIZE * i3
                               + LARGE_PAGE_SIZE * i2 + BASE_PAGE_SIZE * j
    requires mapped + BASE_PAGE_SIZE <= psize
    ensures var pt := Slot(heap, Slot(heap, pml4[i4].address, i3).address, i2).address;
            var heap' := WriteSlot(heap, pt, j, BaseLeaf(pbase + mapped, rights));
            WellFormed(pml4, heap', pos)
            && Progress(pml4_0, heap_0, pml4, heap', vbase, pbase, psize, mapped + BASE_PAGE_SIZE)
  {
    var leaf := BaseLeaf(pbase + mapped, rights);
    var pt := Slot(heap, Slot(heap, pml4[i4].address, i3).address, i2).address;
    var heap' := WriteSlot(heap, pt, j, leaf);
    var w := vbase + mapped;
    assert WellFormed(pml4, heap', pos) && Extends(pml4, heap, pml4, heap')
        && SameOutside(pml4, heap, pml4, heap', w, BASE_PAGE_SIZE)
        && MapsRange(pml4, heap', w, leaf.address, BASE_PAGE_SIZE) by {
      BaseEntryEffect(pml4, heap, pos, i4, i3, i2, j, high, w, leaf);
    }
    assert Progress(pml4_0, heap_0, pml4, heap', vbase, pbase, psize, mapped + BASE_PAGE_SIZE) by {
      ProgressStep(pml4_0, heap_0, pml4, heap, pml4, heap', vbase, pbase, psize, mapped, BASE_PAGE_SIZE, w, leaf.address);
    }
  }

  /**
   * The 4 KiB loop leaves a present PT entry as it is. That can only happen
   * when the region was not fresh: the entry already translated
   * `vbase + mapped`, which the run had not touched yet.
   */
  lemma PresentEntryNotFresh(pml4_0: Table, heap_0: Heap, pml4: Table, heap: Heap,
                             vbase: nat, pbase: nat, psize: nat, mapped: nat, high: nat,
                             i4: nat, i3: nat, i2: nat, j: nat)
    requires Progress(pml4_0, heap_0, pml4, heap, vbase, pbase, psize, mapped)
    requires i4 < ENTRIES && i3 < ENTRIES && i2 < ENTRIES && j < ENTRIES && pml4[i4].present
    requires Slot(heap, pml4[i4].address, i3).present && !Slot(heap, pml4[i4].address, i3).isPage
    requires Slot(heap, Slot(heap, pml4[i4].address, i3).address, i2).present
    requires !Slot(heap, Slot(heap, pml4[i4].address, i3).address, i2).isPage
    requires Slot(heap, Slot(heap, Slot(heap, pml4[i4].address, i3).address, i2).address, j).present
    requires vbase + mapped == ADDRESS_SPAN * high + PML4_SLOT_SIZE * i4 + HUGE_PAGE_SIZE * i3
                               + LARGE_PAGE_SIZE * i2 + BASE_PAGE_SIZE * j
    requires mapped < psize
    ensures !Fresh(pml4_0, heap_0, vbase, psize)
  {
    var w := vbase + mapped;
    InBasePage(high, i4, i3, i2, j, 0);
    assert Resolve(pml4, heap, w).Some?;
    if psize <= ADDRESS_SPAN {
      RegionStart(vbase, mapped, mapped);
      assert Resolve(pml4_0, heap_0, w).Some?;
    }
  }
}
