/**
 * The runs of entries written by the three leaf loops of map_generic
 * (kernel/src/arch/x86_64/vspace.rs): consecutive slots of one table, the
 * k-th for the physical address `pbase` plus k pages. The loops are
 * specified by these functions; what a run does to the translations and
 * which slots it touches is proved here once, by induction on its length.
 */
module LeafRuns {
  import opened Addresses
  import opened PageTables
  import opened Mapping
  import opened Growth
  import MapActions

  /**
   * `n` page leaves of `size` bytes written into slots j0, j0 + 1, ... of the
   * table in `frame`, the k-th for `pbase + size * k`: the 1 GiB loop on a
   * PDPT and the 2 MiB loop on a PD. Every other slot is left as it was.
   */
  function Leaves(heap: Heap, frame: nat, j0: nat, n: nat, size: nat, pbase: nat,
                  rights: MapActions.MapAction): (heap': Heap)
    requires j0 + n <= ENTRIES
    ensures heap'.Keys == heap.Keys
    decreases n
  {
    if n == 0 then heap
    else WriteSlot(Leaves(heap, frame, j0, n - 1, size, pbase, rights), frame, j0 + n - 1,
                   PageLeaf(pbase + size * (n - 1), rights))
  }

  /** Slot `k` of table `b` after a run: the run's leaf inside it, the old entry elsewhere. */
  lemma {:induction false} LeavesSlot(heap: Heap, frame: nat, j0: nat, n: nat, size: nat, pbase: nat,
                                      rights: MapActions.MapAction, b: nat, k: nat)
    requires j0 + n <= ENTRIES && k < ENTRIES
    ensures Slot(Leaves(heap, frame, j0, n, size, pbase, rights), b, k)
            == if b == frame && j0 <= k < j0 + n && frame in heap
               then PageLeaf(pbase + size * (k - j0), rights) else Slot(heap, b, k)
    decreases n
  {
    if n > 0 {
      LeavesSlot(heap, frame, j0, n - 1, size, pbase, rights, b, k);
    }
  }

  /** A run one slot longer is the shorter run plus its last leaf. */
  lemma LeavesLast(heap: Heap, frame: nat, j0: nat, k: nat, size: nat, pbase: nat, rights: MapActions.MapAction)
    requires j0 + k < ENTRIES
    ensures Leaves(heap, frame, j0, k + 1, size, pbase, rights)
            == WriteSlot(Leaves(heap, frame, j0, k, size, pbase, rights), frame, j0 + k, PageLeaf(pbase + size * k, rights))
  {
  }

  /**
   * `heap` is `heap0` after a run of `n` leaves, every one written into a
   * slot that was empty: the state of the 1 GiB and 2 MiB loops.
   */
  ghost predicate LeafRun(heap0: Heap, heap: Heap, frame: nat, j0: nat, n: nat, size: nat, pbase: nat,
                          rights: MapActions.MapAction) {
    && j0 + n <= ENTRIES
    && heap == Leaves(heap0, frame, j0, n, size, pbase, rights)
    && (forall k :: j0 <= k < j0 + n ==> !Slot(heap0, frame, k).present)
  }

  /** A pass of those loops over the empty slot `idx` extends the run by one leaf. */
  lemma LeafRunNext(heap0: Heap, heap: Heap, frame: nat, j0: nat, n: nat, idx: nat, offset: nat, size: nat,
                    pbase: nat, rights: MapActions.MapAction)
    requires LeafRun(heap0, heap, frame, j0, n, size, pbase, rights)
    requires idx == j0 + n < ENTRIES && offset == size * n && !Slot(heap, frame, idx).present
    ensures LeafRun(heap0, WriteSlot(heap, frame, idx, PageLeaf(pbase + offset, rights)), frame, j0, n + 1, size, pbase, rights)
    ensures offset + size == size * (n + 1)
  {
    LeavesLast(heap0, frame, j0, n, size, pbase, rights);
    LeavesSlot(heap0, frame, j0, n, size, pbase, rights, frame, idx);
  }

  /**
   * The 4 KiB loop over `n` slots of the PT in `frame` from `j0`: an empty
   * slot gets the entry for `pbase + 4 KiB * k`, a present one is left alone.
   */
  function BaseEntries(heap: Heap, frame: nat, j0: nat, n: nat, pbase: nat,
                       rights: MapActions.MapAction): (heap': Heap)
    requires j0 + n <= ENTRIES
    ensures heap'.Keys == heap.Keys
    decreases n
  {
    if n == 0 then heap
    else
      var h := BaseEntries(heap, frame, j0, n - 1, pbase, rights);
      if Slot(h, frame, j0 + n - 1).present then h
      else WriteSlot(h, frame, j0 + n - 1, BaseLeaf(pbase + BASE_PAGE_SIZE * (n - 1), rights))
  }

  /** Slot `k` of table `b` after the 4 KiB loop: the new entry where the slot was empty, the old entry elsewhere. */
  lemma {:induction false} BaseEntriesSlot(heap: Heap, frame: nat, j0: nat, n: nat, pbase: nat,
                                           rights: MapActions.MapAction, b: nat, k: nat)
    requires j0 + n <= ENTRIES && k < ENTRIES
    ensures Slot(BaseEntries(heap, frame, j0, n, pbase, rights), b, k)
            == if b == frame && j0 <= k < j0 + n && frame in heap && !Slot(heap, b, k).present
               then BaseLeaf(pbase + BASE_PAGE_SIZE * (k - j0), rights) else Slot(heap, b, k)
    decreases n
  {
    if n > 0 {
      var m := n - 1;
      BaseEntriesSlot(heap, frame, j0, m, pbase, rights, b, k);
      BaseEntriesSlot(heap, frame, j0, m, pbase, rights, frame, j0 + m);
      BaseEntriesLast(heap, frame, j0, m, pbase, rights);
    }
  }

  /** A 4 KiB loop one slot longer: the shorter loop, then the last slot written if it was empty. */
  lemma BaseEntriesLast(heap: Heap, frame: nat, j0: nat, k: nat, pbase: nat, rights: MapActions.MapAction)
    requires j0 + k < ENTRIES
    ensures BaseEntries(heap, frame, j0, k + 1, pbase, rights)
            == if Slot(BaseEntries(heap, frame, j0, k, pbase, rights), frame, j0 + k).present
               then BaseEntries(heap, frame, j0, k, pbase, rights)
               else WriteSlot(BaseEntries(heap, frame, j0, k, pbase, rights), frame, j0 + k,
                              BaseLeaf(pbase + BASE_PAGE_SIZE * k, rights))
  {
  }

  /** `BaseEntriesLast` with the slot and the offset named as the loop names them. */
  lemma BaseEntriesNext(heap: Heap, frame: nat, j0: nat, k: nat, idx: nat, offset: nat, pbase: nat,
                        rights: MapActions.MapAction)
    requires idx == j0 + k < ENTRIES && offset == BASE_PAGE_SIZE * k
    ensures BaseEntries(heap, frame, j0, k + 1, pbase, rights)
            == if Slot(BaseEntries(heap, frame, j0, k, pbase, rights), frame, idx).present
               then BaseEntries(heap, frame, j0, k, pbase, rights)
               else WriteSlot(BaseEntries(heap, frame, j0, k, pbase, rights), frame, idx, BaseLeaf(pbase + offset, rights))
    ensures offset + BASE_PAGE_SIZE == BASE_PAGE_SIZE * (k + 1)
  {
    BaseEntriesLast(heap, frame, j0, k, pbase, rights);
  }

  /**
   * The state after the first `mapped` bytes of the region at `vbase`: the
   * tables are well formed, those bytes are mapped if the region was fresh,
   * nothing else changed, and every slot written lies on the walk of one of
   * them (or of `vbase` itself, before the first page).
   */
  ghost predicate MappedPrefix(pml4_0: Table, heap_0: Heap, pos_0: map<nat, seq<nat>>,
                               pml4: Table, heap: Heap, pos: map<nat, seq<nat>>,
                               vbase: nat, pbase: nat, psize: nat, mapped: nat) {
    && WellFormed(pml4, heap, pos)
    && Progress(pml4_0, heap_0, pml4, heap, vbase, pbase, psize, mapped)
    && Grown(pml4_0, heap_0, pos_0, pml4, heap, pos, vbase, vbase + WalkedSize(mapped))
  }

  /** Before the first page of a run, the state is what the walk to its start left. */
  lemma LeavesNone(pml4_0: Table, heap_0: Heap, pos_0: map<nat, seq<nat>>,
                   pml4: Table, heap: Heap, pos: map<nat, seq<nat>>, vbase: nat, pbase: nat, psize: nat,
                   frame: nat, j0: nat, n: nat, size: nat, rights: MapActions.MapAction)
    requires WellFormed(pml4, heap, pos)
    requires Progress(pml4_0, heap_0, pml4, heap, vbase, pbase, psize, 0)
    requires Grown(pml4_0, heap_0, pos_0, pml4, heap, pos, vbase, vbase + BASE_PAGE_SIZE)
    requires j0 <= ENTRIES && n == 0
    ensures MappedPrefix(pml4_0, heap_0, pos_0, pml4, Leaves(heap, frame, j0, n, size, pbase, rights),
                         pos, vbase, pbase, psize, size * n)
  {
    assert Leaves(heap, frame, j0, n, size, pbase, rights) == heap && size * n == 0;
  }

  /** The same before the first slot of the 4 KiB loop. */
  lemma BaseEntriesNone(pml4_0: Table, heap_0: Heap, pos_0: map<nat, seq<nat>>,
                        pml4: Table, heap: Heap, pos: map<nat, seq<nat>>, vbase: nat, pbase: nat, psize: nat,
                        frame: nat, j0: nat, n: nat, rights: MapActions.MapAction)
    requires WellFormed(pml4, heap, pos)
    requires Progress(pml4_0, heap_0, pml4, heap, vbase, pbase, psize, 0)
    requires Grown(pml4_0, heap_0, pos_0, pml4, heap, pos, vbase, vbase + BASE_PAGE_SIZE)
    requires j0 <= ENTRIES && n == 0
    ensures MappedPrefix(pml4_0, heap_0, pos_0, pml4, BaseEntries(heap, frame, j0, n, pbase, rights),
                         pos, vbase, pbase, psize, BASE_PAGE_SIZE * n)
  {
    assert BaseEntries(heap, frame, j0, n, pbase, rights) == heap && BASE_PAGE_SIZE * n == 0;
  }

  /** The arithmetic of one more page of `size` bytes after `k` of them. */
  lemma RunArith(size: nat, k: nat, j0: nat)
    ensures size * k + size == size * (k + 1) && size * k == size * (j0 + k - j0)
    ensures size * j0 + size * k == size * (j0 + k)
  {
  }

  /**
   * One pass of the 1 GiB loop at the empty PDPT slot `idx`: the huge leaf
   * for `pbase + mapped` extends the run by 1 GiB, on the walk of
   * `vbase + mapped`.
   */
  lemma HugeLeafStep(pml4_0: Table, heap_0: Heap, pos_0: map<nat, seq<nat>>,
                     pml4: Table, heap: Heap, heap': Heap, pos: map<nat, seq<nat>>,
                     vbase: nat, pbase: nat, psize: nat, mapped: nat, mapped': nat, i4: nat, i3: nat, idx: nat,
                     rights: MapActions.MapAction)
    requires WellFormed(pml4, heap, pos)
    requires Progress(pml4_0, heap_0, pml4, heap, vbase, pbase, psize, mapped)
    requires Grown(pml4_0, heap_0, pos_0, pml4, heap, pos, vbase, vbase + WalkedSize(mapped))
    requires i4 < ENTRIES && i3 <= idx < ENTRIES && pml4[i4].present && !Slot(heap, pml4[i4].address, idx).present
    requires vbase == PML4_SLOT_SIZE * i4 + HUGE_PAGE_SIZE * i3 && mapped == HUGE_PAGE_SIZE * (idx - i3)
    requires mapped + HUGE_PAGE_SIZE <= psize
    requires heap' == WriteSlot(heap, pml4[i4].address, idx, PageLeaf(pbase + mapped, rights))
    requires mapped' == mapped + HUGE_PAGE_SIZE
    ensures MappedPrefix(pml4_0, heap_0, pos_0, pml4, heap', pos, vbase, pbase, psize, mapped')
  {
    PdptOf(pml4, heap, pos, i4);
    InHugePage(i4, idx, 0);
    GrownLeaf(pml4_0, heap_0, pos_0, pml4, heap, pos, pml4[i4].address, idx, PageLeaf(pbase + mapped, rights),
              vbase + mapped, vbase, vbase + WalkedSize(mapped), vbase + WalkedSize(mapped + HUGE_PAGE_SIZE));
    HugeStep(pml4_0, heap_0, pml4, heap, pos, vbase, pbase, psize, mapped, i4, idx, rights);
  }

  /** A present PDPT slot met by the 1 GiB loop after its first pass was present when the run began. */
  lemma HugeSlotStop(pml4_0: Table, heap_0: Heap, pos_0: map<nat, seq<nat>>,
                     pml4: Table, heap: Heap, pos: map<nat, seq<nat>>,
                     vbase: nat, mapped: nat, i4: nat, i3: nat, idx: nat)
    requires WellFormed(pml4, heap, pos)
    requires Grown(pml4_0, heap_0, pos_0, pml4, heap, pos, vbase, vbase + WalkedSize(mapped))
    requires i4 < ENTRIES && i3 <= idx < ENTRIES && pml4[i4].present && Slot(heap, pml4[i4].address, idx).present
    requires vbase == PML4_SLOT_SIZE * i4 + HUGE_PAGE_SIZE * i3 && mapped == HUGE_PAGE_SIZE * (idx - i3) && 0 < mapped
    ensures (vbase + mapped) % HUGE_PAGE_SIZE == 0 && HugeSlotUsed(pml4_0, heap_0, vbase + mapped)
  {
    InHugePage(i4, idx, 0);
    DivUnique(vbase + mapped, HUGE_PAGE_SIZE, ENTRIES * i4 + idx, 0);
    HugeSlotWasUsed(pml4_0, heap_0, pos_0, pml4, heap, pos, vbase, vbase + mapped, vbase + mapped);
  }

  /**
   * One pass of the 2 MiB loop at the empty PD slot `idx`: the large leaf
   * for `pbase + mapped` extends the run by 2 MiB, on the walk of
   * `vbase + mapped`.
   */
  lemma LargeLeafStep(pml4_0: Table, heap_0: Heap, pos_0: map<nat, seq<nat>>,
                      pml4: Table, heap: Heap, heap': Heap, pos: map<nat, seq<nat>>,
                      vbase: nat, pbase: nat, psize: nat, mapped: nat, mapped': nat, i4: nat, i3: nat, i2: nat, idx: nat,
                      rights: MapActions.MapAction)
    requires WellFormed(pml4, heap, pos)
    requires Progress(pml4_0, heap_0, pml4, heap, vbase, pbase, psize, mapped)
    requires Grown(pml4_0, heap_0, pos_0, pml4, heap, pos, vbase, vbase + WalkedSize(mapped))
    requires i4 < ENTRIES && i3 < ENTRIES && i2 <= idx < ENTRIES && pml4[i4].present
    requires Slot(heap, pml4[i4].address, i3).present && !Slot(heap, pml4[i4].address, i3).isPage
    requires !Slot(heap, Slot(heap, pml4[i4].address, i3).address, idx).present
    requires vbase == PML4_SLOT_SIZE * i4 + HUGE_PAGE_SIZE * i3 + LARGE_PAGE_SIZE * i2
    requires mapped == LARGE_PAGE_SIZE * (idx - i2) && mapped + LARGE_PAGE_SIZE <= psize
    requires heap' == WriteSlot(heap, Slot(heap, pml4[i4].address, i3).address, idx, PageLeaf(pbase + mapped, rights))
    requires mapped' == mapped + LARGE_PAGE_SIZE
    ensures MappedPrefix(pml4_0, heap_0, pos_0, pml4, heap', pos, vbase, pbase, psize, mapped')
  {
    PdptOf(pml4, heap, pos, i4);
    ChildOf(pml4, heap, pos, pml4[i4].address, i3);
    InLargePage(i4, i3, idx, 0);
    GrownLeaf(pml4_0, heap_0, pos_0, pml4, heap, pos, Slot(heap, pml4[i4].address, i3).address, idx,
              PageLeaf(pbase + mapped, rights),
              vbase + mapped, vbase, vbase + WalkedSize(mapped), vbase + WalkedSize(mapped + LARGE_PAGE_SIZE));
    LargeStep(pml4_0, heap_0, pml4, heap, pos, vbase, pbase, psize, mapped, i4, i3, idx, rights);
  }

  /** A present PD slot met by the 2 MiB loop after its first pass was present when the run began. */
  lemma LargeSlotStop(pml4_0: Table, heap_0: Heap, pos_0: map<nat, seq<nat>>,
                      pml4: Table, heap: Heap, pos: map<nat, seq<nat>>,
                      vbase: nat, mapped: nat, i4: nat, i3: nat, i2: nat, idx: nat)
    requires WellFormed(pml4, heap, pos)
    requires Grown(pml4_0, heap_0, pos_0, pml4, heap, pos, vbase, vbase + WalkedSize(mapped))
    requires i4 < ENTRIES && i3 < ENTRIES && i2 <= idx < ENTRIES && pml4[i4].present
    requires Slot(heap, pml4[i4].address, i3).present && !Slot(heap, pml4[i4].address, i3).isPage
    requires Slot(heap, Slot(heap, pml4[i4].address, i3).address, idx).present
    requires vbase == PML4_SLOT_SIZE * i4 + HUGE_PAGE_SIZE * i3 + LARGE_PAGE_SIZE * i2
    requires mapped == LARGE_PAGE_SIZE * (idx - i2) && 0 < mapped
    ensures (vbase + mapped) % LARGE_PAGE_SIZE == 0 && LargeSlotUsed(pml4_0, heap_0, vbase + mapped)
  {
    InLargePage(i4, i3, idx, 0);
    DivUnique(vbase + mapped, LARGE_PAGE_SIZE, ENTRIES * ENTRIES * i4 + ENTRIES * i3 + idx, 0);
    LargeSlotWasUsed(pml4_0, heap_0, pos_0, pml4, heap, pos, vbase, vbase + mapped, vbase + mapped);
  }

  /**
   * One pass of the 4 KiB loop at the empty PT slot `idx`: the entry for
   * `pbase + mapped` extends the run by 4 KiB, on the walk of `vbase + mapped`.
   */
  lemma BaseLeafStep(pml4_0: Table, heap_0: Heap, pos_0: map<nat, seq<nat>>,
                     pml4: Table, heap: Heap, heap': Heap, pos: map<nat, seq<nat>>,
                     vbase: nat, pbase: nat, psize: nat, mapped: nat, mapped': nat,
                     high: nat, i4: nat, i3: nat, i2: nat, idx: nat, rights: MapActions.MapAction)
    requires WellFormed(pml4, heap, pos)
    requires Progress(pml4_0, heap_0, pml4, heap, vbase, pbase, psize, mapped)
    requires Grown(pml4_0, heap_0, pos_0, pml4, heap, pos, vbase, vbase + WalkedSize(mapped))
    requires i4 < ENTRIES && i3 < ENTRIES && i2 < ENTRIES && idx < ENTRIES && pml4[i4].present
    requires Slot(heap, pml4[i4].address, i3).present && !Slot(heap, pml4[i4].address, i3).isPage
    requires Slot(heap, Slot(heap, pml4[i4].address, i3).address, i2).present
    requires !Slot(heap, Slot(heap, pml4[i4].address, i3).address, i2).isPage
    requires !Slot(heap, Slot(heap, Slot(heap, pml4[i4].address, i3).address, i2).address, idx).present
    requires vbase + mapped == ADDRESS_SPAN * high + PML4_SLOT_SIZE * i4 + HUGE_PAGE_SIZE * i3
                               + LARGE_PAGE_SIZE * i2 + BASE_PAGE_SIZE * idx
    requires mapped + BASE_PAGE_SIZE <= psize
    requires heap' == WriteSlot(heap, Slot(heap, Slot(heap, pml4[i4].address, i3).address, i2).address, idx,
                                BaseLeaf(pbase + mapped, rights))
    requires mapped' == mapped + BASE_PAGE_SIZE
    ensures MappedPrefix(pml4_0, heap_0, pos_0, pml4, heap', pos, vbase, pbase, psize, mapped')
  {
    var pdpt := pml4[i4].address;
    PdptOf(pml4, heap, pos, i4);
    ChildOf(pml4, heap, pos, pdpt, i3);
    var pd := Slot(heap, pdpt, i3).address;
    ChildOf(pml4, heap, pos, pd, i2);
    InBasePage(high, i4, i3, i2, idx, 0);
    GrownLeaf(pml4_0, heap_0, pos_0, pml4, heap, pos, Slot(heap, pd, i2).address, idx, BaseLeaf(pbase + mapped, rights),
              vbase + mapped, vbase, vbase + WalkedSize(mapped), vbase + WalkedSize(mapped + BASE_PAGE_SIZE));
    BaseStep(pml4_0, heap_0, pml4, heap, pos, vbase, pbase, psize, mapped, high, i4, i3, i2, idx, rights);
  }

  /**
   * A pass of the 4 KiB loop over a present PT slot: nothing is written, and
   * the region was not fresh, so the run only gets 4 KiB longer.
   */
  lemma BaseSkipStep(pml4_0: Table, heap_0: Heap, pos_0: map<nat, seq<nat>>,
                     pml4: Table, heap: Heap, pos: map<nat, seq<nat>>,
                     vbase: nat, pbase: nat, psize: nat, mapped: nat, mapped': nat,
                     high: nat, i4: nat, i3: nat, i2: nat, idx: nat)
    requires WellFormed(pml4, heap, pos)
    requires Progress(pml4_0, heap_0, pml4, heap, vbase, pbase, psize, mapped)
    requires Grown(pml4_0, heap_0, pos_0, pml4, heap, pos, vbase, vbase + WalkedSize(mapped))
    requires i4 < ENTRIES && i3 < ENTRIES && i2 < ENTRIES && idx < ENTRIES && pml4[i4].present
    requires Slot(heap, pml4[i4].address, i3).present && !Slot(heap, pml4[i4].address, i3).isPage
    requires Slot(heap, Slot(heap, pml4[i4].address, i3).address, i2).present
    requires !Slot(heap, Slot(heap, pml4[i4].address, i3).address, i2).isPage
    requires Slot(heap, Slot(heap, Slot(heap, pml4[i4].address, i3).address, i2).address, idx).present
    requires vbase + mapped == ADDRESS_SPAN * high + PML4_SLOT_SIZE * i4 + HUGE_PAGE_SIZE * i3
                               + LARGE_PAGE_SIZE * i2 + BASE_PAGE_SIZE * idx
    requires mapped < psize && mapped' == mapped + BASE_PAGE_SIZE
    ensures MappedPrefix(pml4_0, heap_0, pos_0, pml4, heap, pos, vbase, pbase, psize, mapped')
  {
    GrownWiden(pml4_0, heap_0, pos_0, pml4, heap, pos, vbase, vbase + WalkedSize(mapped), vbase, vbase + WalkedSize(mapped'));
    PresentEntryNotFresh(pml4_0, heap_0, pml4, heap, vbase, pbase, psize, mapped, high, i4, i3, i2, idx);
    SameOutsideGrow(pml4_0, heap_0, pml4, heap, vbase, mapped, mapped');
  }

  /** The step of the induction below: the run of `k` huge leaves grows by one. */
  lemma HugeRunStep(pml4_0: Table, heap_0: Heap, pos_0: map<nat, seq<nat>>,
                    pml4: Table, heap: Heap, pos: map<nat, seq<nat>>,
                    vbase: nat, pbase: nat, psize: nat, i4: nat, i3: nat, k: nat,
                    rights: MapActions.MapAction)
    requires i4 < ENTRIES && i3 + k < ENTRIES && pml4[i4].present
    requires !Slot(heap, pml4[i4].address, i3 + k).present
    requires vbase == PML4_SLOT_SIZE * i4 + HUGE_PAGE_SIZE * i3 && HUGE_PAGE_SIZE * (k + 1) <= psize
    requires MappedPrefix(pml4_0, heap_0, pos_0, pml4, Leaves(heap, pml4[i4].address, i3, k, HUGE_PAGE_SIZE, pbase, rights),
                          pos, vbase, pbase, psize, HUGE_PAGE_SIZE * k)
    ensures MappedPrefix(pml4_0, heap_0, pos_0, pml4, Leaves(heap, pml4[i4].address, i3, k + 1, HUGE_PAGE_SIZE, pbase, rights),
                         pos, vbase, pbase, psize, HUGE_PAGE_SIZE * (k + 1))
  {
    var pdpt := pml4[i4].address;
    RunArith(HUGE_PAGE_SIZE, k, i3);
    LeavesSlot(heap, pdpt, i3, k, HUGE_PAGE_SIZE, pbase, rights, pdpt, i3 + k);
    LeavesLast(heap, pdpt, i3, k, HUGE_PAGE_SIZE, pbase, rights);
    HugeLeafStep(pml4_0, heap_0, pos_0, pml4, Leaves(heap, pdpt, i3, k, HUGE_PAGE_SIZE, pbase, rights),
                 Leaves(heap, pdpt, i3, k + 1, HUGE_PAGE_SIZE, pbase, rights), pos, vbase, pbase, psize,
                 HUGE_PAGE_SIZE * k, HUGE_PAGE_SIZE * (k + 1), i4, i3, i3 + k, rights);
  }

  /**
   * A run of `n` huge leaves from PDPT slot `i3`, all of whose slots were
   * empty, started where `vbase` lies: the first `n` GiB of the region are
   * mapped, and only slots on their walks were written.
   */
  lemma {:induction false} HugeRunEffect(pml4_0: Table, heap_0: Heap, pos_0: map<nat, seq<nat>>,
                                         pml4: Table, heap: Heap, pos: map<nat, seq<nat>>,
                                         vbase: nat, pbase: nat, psize: nat, i4: nat, i3: nat, n: nat,
                                         rights: MapActions.MapAction)
    requires WellFormed(pml4, heap, pos)
    requires Progress(pml4_0, heap_0, pml4, heap, vbase, pbase, psize, 0)
    requires Grown(pml4_0, heap_0, pos_0, pml4, heap, pos, vbase, vbase + BASE_PAGE_SIZE)
    requires i4 < ENTRIES && i3 + n <= ENTRIES && pml4[i4].present
    requires forall k :: i3 <= k < i3 + n ==> !Slot(heap, pml4[i4].address, k).present
    requires vbase == PML4_SLOT_SIZE * i4 + HUGE_PAGE_SIZE * i3 && HUGE_PAGE_SIZE * n <= psize
    ensures MappedPrefix(pml4_0, heap_0, pos_0, pml4, Leaves(heap, pml4[i4].address, i3, n, HUGE_PAGE_SIZE, pbase, rights),
                         pos, vbase, pbase, psize, HUGE_PAGE_SIZE * n)
    decreases n
  {
    if n == 0 {
      LeavesNone(pml4_0, heap_0, pos_0, pml4, heap, pos, vbase, pbase, psize, pml4[i4].address, i3, n, HUGE_PAGE_SIZE, rights);
    } else {
      var k := n - 1;
      HugeRunEffect(pml4_0, heap_0, pos_0, pml4, heap, pos, vbase, pbase, psize, i4, i3, k, rights);
      HugeRunStep(pml4_0, heap_0, pos_0, pml4, heap, pos, vbase, pbase, psize, i4, i3, k, rights);
    }
  }

  /** The PD below a PDPT slot is a table of its own, at the next level down. */
  lemma PdDistinct(pml4: Table, heap: Heap, pos: map<nat, seq<nat>>, i4: nat, i3: nat)
    requires WellFormed(pml4, heap, pos)
    requires i4 < ENTRIES && i3 < ENTRIES && pml4[i4].present
    requires Slot(heap, pml4[i4].address, i3).present && !Slot(heap, pml4[i4].address, i3).isPage
    ensures Slot(heap, pml4[i4].address, i3).address != pml4[i4].address
  {
    PdptOf(pml4, heap, pos, i4);
    ChildOf(pml4, heap, pos, pml4[i4].address, i3);
    assert |pos[Slot(heap, pml4[i4].address, i3).address]| == 2;
  }

  /** The PT below a PD slot, its PD and the PDPT above are three different tables. */
  lemma PtDistinct(pml4: Table, heap: Heap, pos: map<nat, seq<nat>>, i4: nat, i3: nat, i2: nat)
    requires WellFormed(pml4, heap, pos)
    requires i4 < ENTRIES && i3 < ENTRIES && i2 < ENTRIES && pml4[i4].present
    requires Slot(heap, pml4[i4].address, i3).present && !Slot(heap, pml4[i4].address, i3).isPage
    requires Slot(heap, Slot(heap, pml4[i4].address, i3).address, i2).present
    requires !Slot(heap, Slot(heap, pml4[i4].address, i3).address, i2).isPage
    ensures var pd := Slot(heap, pml4[i4].address, i3).address;
            && pd != pml4[i4].address
            && Slot(heap, pd, i2).address != pml4[i4].address && Slot(heap, pd, i2).address != pd
  {
    var pdpt := pml4[i4].address;
    PdptOf(pml4, heap, pos, i4);
    ChildOf(pml4, heap, pos, pdpt, i3);
    var pd := Slot(heap, pdpt, i3).address;
    ChildOf(pml4, heap, pos, pd, i2);
    assert |pos[pd]| == 2 && |pos[Slot(heap, pd, i2).address]| == 3;
  }

  /**
   * The step of the induction below: the run of `k` large leaves in the PD
   * `pd` grows by one. The PD is not the PDPT above it, so the run leaves
   * the walk down to it alone.
   */
  lemma LargeRunStep(pml4_0: Table, heap_0: Heap, pos_0: map<nat, seq<nat>>,
                     pml4: Table, heap: Heap, pos: map<nat, seq<nat>>,
                     vbase: nat, pbase: nat, psize: nat, i4: nat, i3: nat, i2: nat, pd: nat, k: nat,
                     rights: MapActions.MapAction)
    requires i4 < ENTRIES && i3 < ENTRIES && i2 + k < ENTRIES && pml4[i4].present
    requires Slot(heap, pml4[i4].address, i3).present && !Slot(heap, pml4[i4].address, i3).isPage
    requires pd == Slot(heap, pml4[i4].address, i3).address && pd != pml4[i4].address
    requires !Slot(heap, pd, i2 + k).present
    requires vbase == PML4_SLOT_SIZE * i4 + HUGE_PAGE_SIZE * i3 + LARGE_PAGE_SIZE * i2
    requires LARGE_PAGE_SIZE * (k + 1) <= psize
    requires MappedPrefix(pml4_0, heap_0, pos_0, pml4, Leaves(heap, pd, i2, k, LARGE_PAGE_SIZE, pbase, rights),
                          pos, vbase, pbase, psize, LARGE_PAGE_SIZE * k)
    ensures MappedPrefix(pml4_0, heap_0, pos_0, pml4, Leaves(heap, pd, i2, k + 1, LARGE_PAGE_SIZE, pbase, rights),
                         pos, vbase, pbase, psize, LARGE_PAGE_SIZE * (k + 1))
  {
    var pdpt := pml4[i4].address;
    RunArith(LARGE_PAGE_SIZE, k, i2);
    LeavesSlot(heap, pd, i2, k, LARGE_PAGE_SIZE, pbase, rights, pdpt, i3);
    LeavesSlot(heap, pd, i2, k, LARGE_PAGE_SIZE, pbase, rights, pd, i2 + k);
    LeavesLast(heap, pd, i2, k, LARGE_PAGE_SIZE, pbase, rights);
    LargeLeafStep(pml4_0, heap_0, pos_0, pml4, Leaves(heap, pd, i2, k, LARGE_PAGE_SIZE, pbase, rights),
                  Leaves(heap, pd, i2, k + 1, LARGE_PAGE_SIZE, pbase, rights), pos, vbase, pbase, psize,
                  LARGE_PAGE_SIZE * k, LARGE_PAGE_SIZE * (k + 1), i4, i3, i2, i2 + k, rights);
  }

  /** The same for a run of `n` large leaves from slot `i2` of the PD below PDPT slot `i3`. */
  lemma {:induction false} LargeRunEffect(pml4_0: Table, heap_0: Heap, pos_0: map<nat, seq<nat>>,
                                          pml4: Table, heap: Heap, pos: map<nat, seq<nat>>,
                                          vbase: nat, pbase: nat, psize: nat, i4: nat, i3: nat, i2: nat, n: nat,
                                          rights: MapActions.MapAction)
    requires WellFormed(pml4, heap, pos)
    requires Progress(pml4_0, heap_0, pml4, heap, vbase, pbase, psize, 0)
    requires Grown(pml4_0, heap_0, pos_0, pml4, heap, pos, vbase, vbase + BASE_PAGE_SIZE)
    requires i4 < ENTRIES && i3 < ENTRIES && i2 + n <= ENTRIES && pml4[i4].present
    requires Slot(heap, pml4[i4].address, i3).present && !Slot(heap, pml4[i4].address, i3).isPage
    requires forall k :: i2 <= k < i2 + n ==> !Slot(heap, Slot(heap, pml4[i4].address, i3).address, k).present
    requires vbase == PML4_SLOT_SIZE * i4 + HUGE_PAGE_SIZE * i3 + LARGE_PAGE_SIZE * i2
    requires LARGE_PAGE_SIZE * n <= psize
    ensures MappedPrefix(pml4_0, heap_0, pos_0, pml4,
                         Leaves(heap, Slot(heap, pml4[i4].address, i3).address, i2, n, LARGE_PAGE_SIZE, pbase, rights),
                         pos, vbase, pbase, psize, LARGE_PAGE_SIZE * n)
    decreases n
  {
    var pdpt := pml4[i4].address;
    var pd := Slot(heap, pdpt, i3).address;
    if n == 0 {
      LeavesNone(pml4_0, heap_0, pos_0, pml4, heap, pos, vbase, pbase, psize, pd, i2, n, LARGE_PAGE_SIZE, rights);
    } else {
      var k := n - 1;
      LargeRunEffect(pml4_0, heap_0, pos_0, pml4, heap, pos, vbase, pbase, psize, i4, i3, i2, k, rights);
      PdDistinct(pml4, heap, pos, i4, i3);
      LargeRunStep(pml4_0, heap_0, pos_0, pml4, heap, pos, vbase, pbase, psize, i4, i3, i2, pd, k, rights);
    }
  }

  /**
   * The step of the induction below: the 4 KiB loop over `k` slots of the PT
   * `pt` grows by one, whether that slot is written or skipped. The PT, its
   * PD and its PDPT are three tables, so the loop leaves the walk down to
   * the PT alone.
   */
  lemma BaseRunStep(pml4_0: Table, heap_0: Heap, pos_0: map<nat, seq<nat>>,
                    pml4: Table, heap: Heap, pos: map<nat, seq<nat>>,
                    vbase: nat, pbase: nat, psize: nat, high: nat, i4: nat, i3: nat, i2: nat,
                    pd: nat, pt: nat, j0: nat, k: nat, rights: MapActions.MapAction)
    requires i4 < ENTRIES && i3 < ENTRIES && i2 < ENTRIES && j0 + k < ENTRIES && pml4[i4].present
    requires Slot(heap, pml4[i4].address, i3).present && !Slot(heap, pml4[i4].address, i3).isPage
    requires pd == Slot(heap, pml4[i4].address, i3).address
    requires Slot(heap, pd, i2).present && !Slot(heap, pd, i2).isPage && pt == Slot(heap, pd, i2).address
    requires pd != pml4[i4].address && pt != pml4[i4].address && pt != pd
    requires vbase == ADDRESS_SPAN * high + PML4_SLOT_SIZE * i4 + HUGE_PAGE_SIZE * i3
                      + LARGE_PAGE_SIZE * i2 + BASE_PAGE_SIZE * j0
    requires BASE_PAGE_SIZE * (k + 1) <= psize
    requires MappedPrefix(pml4_0, heap_0, pos_0, pml4, BaseEntries(heap, pt, j0, k, pbase, rights),
                          pos, vbase, pbase, psize, BASE_PAGE_SIZE * k)
    ensures MappedPrefix(pml4_0, heap_0, pos_0, pml4, BaseEntries(heap, pt, j0, k + 1, pbase, rights),
                         pos, vbase, pbase, psize, BASE_PAGE_SIZE * (k + 1))
  {
    var pdpt := pml4[i4].address;
    var h := BaseEntries(heap, pt, j0, k, pbase, rights);
    RunArith(BASE_PAGE_SIZE, k, j0);
    BaseEntriesSlot(heap, pt, j0, k, pbase, rights, pdpt, i3);
    BaseEntriesSlot(heap, pt, j0, k, pbase, rights, pd, i2);
    BaseEntriesLast(heap, pt, j0, k, pbase, rights);
    if Slot(h, pt, j0 + k).present {
      BaseSkipStep(pml4_0, heap_0, pos_0, pml4, h, pos, vbase, pbase, psize,
                   BASE_PAGE_SIZE * k, BASE_PAGE_SIZE * (k + 1), high, i4, i3, i2, j0 + k);
    } else {
      BaseLeafStep(pml4_0, heap_0, pos_0, pml4, h, BaseEntries(heap, pt, j0, k + 1, pbase, rights), pos,
                   vbase, pbase, psize, BASE_PAGE_SIZE * k, BASE_PAGE_SIZE * (k + 1),
                   high, i4, i3, i2, j0 + k, rights);
    }
  }

  /** The same for the 4 KiB loop over `n` slots from `j0` of the PT reached through PD slot `i2`. */
  lemma {:induction false} BaseRunEffect(pml4_0: Table, heap_0: Heap, pos_0: map<nat, seq<nat>>,
                                         pml4: Table, heap: Heap, pos: map<nat, seq<nat>>,
                                         vbase: nat, pbase: nat, psize: nat, high: nat,
                                         i4: nat, i3: nat, i2: nat, j0: nat, n: nat, rights: MapActions.MapAction)
    requires WellFormed(pml4, heap, pos)
    requires Progress(pml4_0, heap_0, pml4, heap, vbase, pbase, psize, 0)
    requires Grown(pml4_0, heap_0, pos_0, pml4, heap, pos, vbase, vbase + BASE_PAGE_SIZE)
    requires i4 < ENTRIES && i3 < ENTRIES && i2 < ENTRIES && j0 + n <= ENTRIES && pml4[i4].present
    requires Slot(heap, pml4[i4].address, i3).present && !Slot(heap, pml4[i4].address, i3).isPage
    requires Slot(heap, Slot(heap, pml4[i4].address, i3).address, i2).present
    requires !Slot(heap, Slot(heap, pml4[i4].address, i3).address, i2).isPage
    requires vbase == ADDRESS_SPAN * high + PML4_SLOT_SIZE * i4 + HUGE_PAGE_SIZE * i3
                      + LARGE_PAGE_SIZE * i2 + BASE_PAGE_SIZE * j0
    requires BASE_PAGE_SIZE * n <= psize
    ensures MappedPrefix(pml4_0, heap_0, pos_0, pml4,
                         BaseEntries(heap, Slot(heap, Slot(heap, pml4[i4].address, i3).address, i2).address,
                                     j0, n, pbase, rights),
                         pos, vbase, pbase, psize, BASE_PAGE_SIZE * n)
    decreases n, 1
  {
    if n == 0 {
      BaseEntriesNone(pml4_0, heap_0, pos_0, pml4, heap, pos, vbase, pbase, psize,
                      Slot(heap, Slot(heap, pml4[i4].address, i3).address, i2).address, j0, n, rights);
    } else {
      BaseRunMore(pml4_0, heap_0, pos_0, pml4, heap, pos, vbase, pbase, psize, high, i4, i3, i2, j0, n, rights);
    }
  }

  /** The inductive case of `BaseRunEffect`, a lemma of its own to keep each proof small. */
  lemma {:induction false} BaseRunMore(pml4_0: Table, heap_0: Heap, pos_0: map<nat, seq<nat>>,
                                       pml4: Table, heap: Heap, pos: map<nat, seq<nat>>,
                                       vbase: nat, pbase: nat, psize: nat, high: nat,
                                       i4: nat, i3: nat, i2: nat, j0: nat, n: nat, rights: MapActions.MapAction)
    requires WellFormed(pml4, heap, pos)
    requires Progress(pml4_0, heap_0, pml4, heap, vbase, pbase, psize, 0)
    requires Grown(pml4_0, heap_0, pos_0, pml4, heap, pos, vbase, vbase + BASE_PAGE_SIZE)
    requires i4 < ENTRIES && i3 < ENTRIES && i2 < ENTRIES && j0 + n <= ENTRIES && pml4[i4].present
    requires Slot(heap, pml4[i4].address, i3).present && !Slot(heap, pml4[i4].address, i3).isPage
    requires Slot(heap, Slot(heap, pml4[i4].address, i3).address, i2).present
    requires !Slot(heap, Slot(heap, pml4[i4].address, i3).address, i2).isPage
    requires vbase == ADDRESS_SPAN * high + PML4_SLOT_SIZE * i4 + HUGE_PAGE_SIZE * i3
                      + LARGE_PAGE_SIZE * i2 + BASE_PAGE_SIZE * j0
    requires BASE_PAGE_SIZE * n <= psize && 0 < n
    ensures MappedPrefix(pml4_0, heap_0, pos_0, pml4,
                         BaseEntries(heap, Slot(heap, Slot(heap, pml4[i4].address, i3).address, i2).address,
                                     j0, n, pbase, rights),
                         pos, vbase, pbase, psize, BASE_PAGE_SIZE * n)
    decreases n, 0
  {
    var pdpt := pml4[i4].address;
    var pd := Slot(heap, pdpt, i3).address;
    var pt := Slot(heap, pd, i2).address;
    var k := n - 1;
    BaseRunEffect(pml4_0, heap_0, pos_0, pml4, heap, pos, vbase, pbase, psize, high, i4, i3, i2, j0, k, rights);
    PtDistinct(pml4, heap, pos, i4, i3, i2);
    BaseRunStep(pml4_0, heap_0, pos_0, pml4, heap, pos, vbase, pbase, psize, high, i4, i3, i2, pd, pt, j0, k, rights);
  }
}
