/**
 * Which slots of the page-table tree a mapping run changes. map_generic
 * writes only along the walks of the addresses it maps (and of `vbase`
 * itself, which it walks down to even when it maps nothing), and every
 * table it hooks in is new. These facts, stated slot by slot, let a panic
 * raised deep inside the recursion be traced back to an entry that was
 * already present when the run began.
 */
module Growth {
  import opened Addresses
  import opened PageTables

  /** Slot `j` of the table whose index path is `p` is read by the walk of `u`. */
  predicate OnWalk(p: seq<nat>, j: nat, u: nat) {
    || (|p| == 1 && p[0] == Pml4Index(u) && j == PdptIndex(u))
    || (|p| == 2 && p[0] == Pml4Index(u) && p[1] == PdptIndex(u) && j == PdIndex(u))
    || (|p| == 3 && p[0] == Pml4Index(u) && p[1] == PdptIndex(u) && p[2] == PdIndex(u) && j == PtIndex(u))
  }

  /**
   * The bytes whose walks a run over `size` bytes reads: `size` itself, or
   * the first page when `size` is 0.
   */
  function WalkedSize(size: nat): (n: nat)
    ensures n >= size && n > 0
  {
    if size == 0 then BASE_PAGE_SIZE else size
  }

  /** Every table keeps its index path. */
  ghost predicate PathsKept(pos: map<nat, seq<nat>>, pos': map<nat, seq<nat>>) {
    forall a :: a in pos ==> a in pos' && pos'[a] == pos[a]
  }

  /**
   * Entry `i` of a PML4 and slot `j` of table `a`, under names of their own:
   * the facts of `Grown` are instantiated only where these names occur,
   * which keeps them out of proofs that merely pass `Grown` along.
   */
  function RootSlot(pml4: Table, i: nat): Entry
    requires i < ENTRIES
  {
    pml4[i]
  }

  function TableSlot(heap: Heap, a: nat, j: nat): Entry
    requires j < ENTRIES
  {
    Slot(heap, a, j)
  }

  /**
   * From the first tree to the second, only slots on the walks of addresses
   * in [lo, hi) changed, every table kept its index path, and a changed
   * slot that leads to a lower-level table leads to one that is new.
   */
  ghost predicate Grown(pml4: Table, heap: Heap, pos: map<nat, seq<nat>>,
                        pml4': Table, heap': Heap, pos': map<nat, seq<nat>>, lo: nat, hi: nat) {
    && PathsKept(pos, pos')
    && (forall i {:trigger RootSlot(pml4', i)} :: 0 <= i < ENTRIES && RootSlot(pml4', i) != pml4[i] ==>
          RootSlot(pml4', i).address !in heap && exists u: nat :: lo <= u < hi && Pml4Index(u) == i)
    && (forall a: nat, j: nat {:trigger TableSlot(heap', a, j)} :: j < ENTRIES && TableSlot(heap', a, j) != Slot(heap, a, j) ==>
          && a in pos'
          && (!TableSlot(heap', a, j).isPage && |pos'[a]| < 3 ==> TableSlot(heap', a, j).address !in heap)
          && exists u: nat :: lo <= u < hi && OnWalk(pos'[a], j, u))
  }

  lemma GrownNothing(pml4: Table, heap: Heap, pos: map<nat, seq<nat>>, lo: nat, hi: nat)
    ensures Grown(pml4, heap, pos, pml4, heap, pos, lo, hi)
  {
  }

  /** Two stretches of growth, each inside [lo, hi), are one. */
  lemma GrownTransitive(pml4_0: Table, heap_0: Heap, pos_0: map<nat, seq<nat>>,
                        pml4_1: Table, heap_1: Heap, pos_1: map<nat, seq<nat>>,
                        pml4_2: Table, heap_2: Heap, pos_2: map<nat, seq<nat>>,
                        lo1: nat, hi1: nat, lo2: nat, hi2: nat, lo: nat, hi: nat)
    requires Grown(pml4_0, heap_0, pos_0, pml4_1, heap_1, pos_1, lo1, hi1)
    requires Grown(pml4_1, heap_1, pos_1, pml4_2, heap_2, pos_2, lo2, hi2)
    requires heap_0.Keys <= heap_1.Keys
    requires lo <= lo1 && hi1 <= hi && lo <= lo2 && hi2 <= hi
    ensures Grown(pml4_0, heap_0, pos_0, pml4_2, heap_2, pos_2, lo, hi)
  {
    forall i | 0 <= i < ENTRIES && RootSlot(pml4_2, i) != pml4_0[i]
      ensures RootSlot(pml4_2, i).address !in heap_0 && exists u: nat :: lo <= u < hi && Pml4Index(u) == i
    {
      if RootSlot(pml4_1, i) != pml4_0[i] {
        var u: nat :| lo1 <= u < hi1 && Pml4Index(u) == i;
        assert lo <= u < hi;
      } else {
        var u: nat :| lo2 <= u < hi2 && Pml4Index(u) == i;
        assert lo <= u < hi;
      }
    }
    forall a: nat, j: nat | j < ENTRIES && TableSlot(heap_2, a, j) != Slot(heap_0, a, j)
      ensures && a in pos_2
              && (!TableSlot(heap_2, a, j).isPage && |pos_2[a]| < 3 ==> TableSlot(heap_2, a, j).address !in heap_0)
              && exists u: nat :: lo <= u < hi && OnWalk(pos_2[a], j, u)
    {
      if TableSlot(heap_1, a, j) != Slot(heap_0, a, j) {
        var u: nat :| lo1 <= u < hi1 && OnWalk(pos_1[a], j, u);
        assert lo <= u < hi && OnWalk(pos_2[a], j, u);
      } else {
        var u: nat :| lo2 <= u < hi2 && OnWalk(pos_2[a], j, u);
        assert lo <= u < hi;
      }
    }
  }

  /**
   * new_pdpt stored into the empty PML4 slot `i` of the walk of `w`: a new
   * zeroed table `frame` with path [i], pointed to from that slot.
   */
  lemma GrownPdpt(pml4: Table, heap: Heap, pos: map<nat, seq<nat>>, i: nat, frame: nat, w: nat, lo: nat, hi: nat)
    requires heap.Keys == pos.Keys && frame !in heap
    requires i < ENTRIES && Pml4Index(w) == i && lo <= w < hi
    ensures Grown(pml4, heap, pos, pml4[i := TableEntry(frame)], heap[frame := EMPTY_TABLE], pos[frame := [i]], lo, hi)
  {
    var heap' := heap[frame := EMPTY_TABLE];
    assert forall a: nat, j: nat :: j < ENTRIES ==> TableSlot(heap', a, j) == Slot(heap, a, j);
  }

  /**
   * new_pd or new_pt stored into empty slot `j` of the table in `frame`,
   * on the walk of `w`: a new zeroed table `child` whose path extends the
   * slot's, pointed to from that slot.
   */
  lemma GrownAttach(pml4_0: Table, heap_0: Heap, pos_0: map<nat, seq<nat>>,
                    pml4: Table, heap: Heap, pos: map<nat, seq<nat>>,
                    frame: nat, j: nat, child: nat, w: nat, lo: nat, hi: nat)
    requires Grown(pml4_0, heap_0, pos_0, pml4, heap, pos, lo, hi)
    requires heap.Keys == pos.Keys && heap_0.Keys <= heap.Keys && child !in heap
    requires frame in heap && frame != child && j < ENTRIES && OnWalk(pos[frame], j, w) && lo <= w < hi
    requires |pos[frame]| < 3
    ensures Grown(pml4_0, heap_0, pos_0, pml4,
                  WriteSlot(heap[child := EMPTY_TABLE], frame, j, TableEntry(child)),
                  pos[child := pos[frame] + [j]], lo, hi)
  {
    var heap1 := heap[child := EMPTY_TABLE];
    var pos1 := pos[child := pos[frame] + [j]];
    var heap2 := WriteSlot(heap1, frame, j, TableEntry(child));
    assert same: forall b: nat, k: nat :: k < ENTRIES ==> Slot(heap1, b, k) == Slot(heap, b, k);
    forall a: nat, k: nat | k < ENTRIES && TableSlot(heap2, a, k) != Slot(heap_0, a, k)
      ensures && a in pos1
              && (!TableSlot(heap2, a, k).isPage && |pos1[a]| < 3 ==> TableSlot(heap2, a, k).address !in heap_0)
              && exists u: nat :: lo <= u < hi && OnWalk(pos1[a], k, u)
    {
      if a == frame && k == j {
        assert pos1[a] == pos[a];
        assert OnWalk(pos1[a], k, w);
      } else {
        assert Slot(heap2, a, k) == TableSlot(heap, a, k);
        var u: nat :| lo <= u < hi && OnWalk(pos[a], k, u);
        assert pos1[a] == pos[a];
      }
    }
  }

  /**
   * A leaf (a 1 GiB or 2 MiB page, or any entry of a PT) written into slot
   * `j` of the table in `frame`, on the walk of `w`.
   */
  lemma GrownLeaf(pml4_0: Table, heap_0: Heap, pos_0: map<nat, seq<nat>>,
                  pml4: Table, heap: Heap, pos: map<nat, seq<nat>>,
                  frame: nat, j: nat, leaf: Entry, w: nat, lo: nat, hi: nat, hi': nat)
    requires Grown(pml4_0, heap_0, pos_0, pml4, heap, pos, lo, hi)
    requires frame in heap && heap.Keys == pos.Keys && j < ENTRIES && OnWalk(pos[frame], j, w)
    requires leaf.isPage || |pos[frame]| == 3
    requires lo <= w < hi' && hi <= hi'
    ensures Grown(pml4_0, heap_0, pos_0, pml4, WriteSlot(heap, frame, j, leaf), pos, lo, hi')
  {
    var heap' := WriteSlot(heap, frame, j, leaf);
    forall a: nat, k: nat | k < ENTRIES && TableSlot(heap', a, k) != Slot(heap_0, a, k)
      ensures && a in pos
              && (!TableSlot(heap', a, k).isPage && |pos[a]| < 3 ==> TableSlot(heap', a, k).address !in heap_0)
              && exists u: nat :: lo <= u < hi' && OnWalk(pos[a], k, u)
    {
      if a == frame && k == j {
        assert OnWalk(pos[a], k, w);
      } else {
        assert Slot(heap', a, k) == TableSlot(heap, a, k);
        var u: nat :| lo <= u < hi && OnWalk(pos[a], k, u);
      }
    }
  }

  /** Growth inside [lo, hi) is growth inside any interval around it. */
  lemma GrownWiden(pml4_0: Table, heap_0: Heap, pos_0: map<nat, seq<nat>>,
                   pml4: Table, heap: Heap, pos: map<nat, seq<nat>>, lo: nat, hi: nat, lo': nat, hi': nat)
    requires Grown(pml4_0, heap_0, pos_0, pml4, heap, pos, lo, hi)
    requires lo' <= lo && hi <= hi'
    ensures Grown(pml4_0, heap_0, pos_0, pml4, heap, pos, lo', hi')
  {
    forall i | 0 <= i < ENTRIES && RootSlot(pml4, i) != pml4_0[i]
      ensures exists u: nat :: lo' <= u < hi' && Pml4Index(u) == i
    {
      var u: nat :| lo <= u < hi && Pml4Index(u) == i;
    }
    forall a: nat, j: nat | j < ENTRIES && TableSlot(heap, a, j) != Slot(heap_0, a, j)
      ensures exists u: nat :: lo' <= u < hi' && OnWalk(pos[a], j, u)
    {
      var u: nat :| lo <= u < hi && OnWalk(pos[a], j, u);
    }
  }

  /** Below `w` and within 2^48 of it, nothing shares the 1 GiB slot of a 1 GiB-aligned `w`. */
  lemma NotInHugeSlot(u: nat, w: nat)
    requires w % HUGE_PAGE_SIZE == 0 && u < w && w - u <= ADDRESS_SPAN - HUGE_PAGE_SIZE
    ensures !(Pml4Index(u) == Pml4Index(w) && PdptIndex(u) == PdptIndex(w))
  {
    if Pml4Index(u) == Pml4Index(w) && PdptIndex(u) == PdptIndex(w) {
      SharedHugeSlot(u, w);
      DivUnique(u - w, ADDRESS_SPAN, -1, ADDRESS_SPAN - (w - u));
    }
  }

  /** The same for the 2 MiB slot of a 2 MiB-aligned `w`. */
  lemma NotInLargeSlot(u: nat, w: nat)
    requires w % LARGE_PAGE_SIZE == 0 && u < w && w - u <= ADDRESS_SPAN - LARGE_PAGE_SIZE
    ensures !(Pml4Index(u) == Pml4Index(w) && PdptIndex(u) == PdptIndex(w) && PdIndex(u) == PdIndex(w))
  {
    if Pml4Index(u) == Pml4Index(w) && PdptIndex(u) == PdptIndex(w) && PdIndex(u) == PdIndex(w) {
      SharedLargeSlot(u, w);
      DivUnique(u - w, ADDRESS_SPAN, -1, ADDRESS_SPAN - (w - u));
    }
  }

  /**
   * A 1 GiB slot in use after growth below it, within 2^48 of where the
   * growth began, was already in use before: the run cannot have filled it.
   */
  lemma HugeSlotWasUsed(pml4_0: Table, heap_0: Heap, pos_0: map<nat, seq<nat>>,
                        pml4: Table, heap: Heap, pos: map<nat, seq<nat>>, lo: nat, hi: nat, w: nat)
    requires WellFormed(pml4, heap, pos)
    requires Grown(pml4_0, heap_0, pos_0, pml4, heap, pos, lo, hi)
    requires HugeSlotUsed(pml4, heap, w)
    requires w % HUGE_PAGE_SIZE == 0 && lo <= hi <= w && w + HUGE_PAGE_SIZE <= lo + ADDRESS_SPAN
    ensures HugeSlotUsed(pml4_0, heap_0, w)
  {
    var i4 := Pml4Index(w);
    var a := pml4[i4].address;
    var j := PdptIndex(w);
    PdptOf(pml4, heap, pos, i4);
    assert RootSlot(pml4, i4) == pml4[i4];
    if TableSlot(heap, a, j) != Slot(heap_0, a, j) {
      var u: nat :| lo <= u < hi && OnWalk(pos[a], j, u);
      NotInHugeSlot(u, w);
    }
    assert a in heap_0;
  }

  /** The same for a 2 MiB slot, reached through a PD. */
  lemma LargeSlotWasUsed(pml4_0: Table, heap_0: Heap, pos_0: map<nat, seq<nat>>,
                         pml4: Table, heap: Heap, pos: map<nat, seq<nat>>, lo: nat, hi: nat, w: nat)
    requires WellFormed(pml4, heap, pos)
    requires Grown(pml4_0, heap_0, pos_0, pml4, heap, pos, lo, hi)
    requires LargeSlotUsed(pml4, heap, w)
    requires w % LARGE_PAGE_SIZE == 0 && lo <= hi <= w && w + LARGE_PAGE_SIZE <= lo + ADDRESS_SPAN
    ensures LargeSlotUsed(pml4_0, heap_0, w)
  {
    var i4 := Pml4Index(w);
    var a := pml4[i4].address;
    var i3 := PdptIndex(w);
    var b := Slot(heap, a, i3).address;
    var i2 := PdIndex(w);
    PdptOf(pml4, heap, pos, i4);
    ChildOf(pml4, heap, pos, a, i3);
    assert RootSlot(pml4, i4) == pml4[i4];
    if TableSlot(heap, b, i2) != Slot(heap_0, b, i2) {
      var u: nat :| lo <= u < hi && OnWalk(pos[b], i2, u);
      NotInLargeSlot(u, w);
    }
    assert b in heap_0;
    assert TableSlot(heap, a, i3) == Slot(heap_0, a, i3);
    assert a in heap_0;
  }

  /**
   * A walk that ends at a 1 GiB page in an extension of a tree that
   * translates the address alike ended at the same page before.
   */
  lemma HugeLeafWasThere(pml4_0: Table, heap_0: Heap, pml4: Table, heap: Heap, u: nat)
    requires Extends(pml4_0, heap_0, pml4, heap) && Resolve(pml4, heap, u) == Resolve(pml4_0, heap_0, u)
    requires HugeLeafAt(pml4, heap, u)
    ensures HugeLeafAt(pml4_0, heap_0, u)
  {
    var e4 := pml4_0[Pml4Index(u)];
    assert e4.present;
    assert Slot(heap_0, e4.address, PdptIndex(u)).present;
  }

  /** The same for a walk that ends at a 2 MiB page. */
  lemma LargeLeafWasThere(pml4_0: Table, heap_0: Heap, pml4: Table, heap: Heap, u: nat)
    requires Extends(pml4_0, heap_0, pml4, heap) && Resolve(pml4, heap, u) == Resolve(pml4_0, heap_0, u)
    requires LargeLeafAt(pml4, heap, u)
    ensures LargeLeafAt(pml4_0, heap_0, u)
  {
    var e4 := pml4_0[Pml4Index(u)];
    assert e4.present;
    var e3 := Slot(heap_0, e4.address, PdptIndex(u));
    assert e3.present;
    assert Slot(heap_0, e3.address, PdIndex(u)).present;
  }
}
