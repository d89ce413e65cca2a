/**
 * The page-table tree as values: entries, 512-slot tables, and the physical
 * frames holding PDPT, PD and PT tables as a heap from frame address to
 * table. `Resolve` is the walk of resolve_addr; the lemmas say how each kind
 * of write that map_generic performs changes what the walk returns.
 */
module PageTables {
  import opened Addresses
  import opened Wrappers
  import MapActions

  /** The flag bits of an entry, abstracted to what they are set from. */
  datatype Flags =
    | NoFlags                                 // an empty slot
    | TableFlags                              // P | RW | US, written by new_pt, new_pd and new_pdpt
    | LeafFlags(action: MapActions.MapAction) // P (| PS) plus the rights of the mapping

  /** One 64-bit entry: present bit, page-size (PS) bit, frame address and flags. */
  datatype Entry = Entry(present: bool, isPage: bool, address: nat, flags: Flags)

  const ABSENT: Entry := Entry(false, false, 0, NoFlags)

  type Table = t: seq<Entry> | |t| == ENTRIES witness seq(512, _ => ABSENT)

  /** A zeroed frame read as a table. */
  const EMPTY_TABLE: Table := seq(512, _ => ABSENT)

  /** The frames that hold PDPT, PD and PT tables, by physical address. */
  type Heap = map<nat, Table>

  /** The entry pointing to a freshly allocated lower-level table. */
  function TableEntry(frame: nat): Entry {
    Entry(true, false, frame, TableFlags)
  }

  /** A 1 GiB PDPT leaf or a 2 MiB PD leaf (P | PS | rights). */
  function PageLeaf(paddr: nat, rights: MapActions.MapAction): Entry {
    Entry(true, true, paddr, LeafFlags(rights))
  }

  /** A 4 KiB PT entry (P | rights; PT entries have no PS bit). */
  function BaseLeaf(paddr: nat, rights: MapActions.MapAction): Entry {
    Entry(true, false, paddr, LeafFlags(rights))
  }

  /** Slot `i` of the table in `frame`; a frame that holds no table reads as zero. */
  function Slot(heap: Heap, frame: nat, i: nat): Entry
    requires i < ENTRIES
  {
    if frame in heap then heap[frame][i] else ABSENT
  }

  /** The four-level walk of resolve_addr. */
  function Resolve(pml4: Table, heap: Heap, addr: nat): Option<nat> {
    var e4 := pml4[Pml4Index(addr)];
    if !e4.present then None
    else
      var e3 := Slot(heap, e4.address, PdptIndex(addr));
      if !e3.present then None
      else if e3.isPage then Some(e3.address + HugePageOffset(addr))
      else
        var e2 := Slot(heap, e3.address, PdIndex(addr));
        if !e2.present then None
        else if e2.isPage then Some(e2.address + LargePageOffset(addr))
        else
          var e1 := Slot(heap, e2.address, PtIndex(addr));
          if e1.present then Some(e1.address + BasePageOffset(addr)) else None
  }

  /** The walk of `w` reaches a present entry in its PDPT slot: the 1 GiB slot of `w` is in use. */
  predicate HugeSlotUsed(pml4: Table, heap: Heap, w: nat) {
    pml4[Pml4Index(w)].present && Slot(heap, pml4[Pml4Index(w)].address, PdptIndex(w)).present
  }

  /** The walk of `u` ends at a 1 GiB page. */
  predicate HugeLeafAt(pml4: Table, heap: Heap, u: nat) {
    HugeSlotUsed(pml4, heap, u) && Slot(heap, pml4[Pml4Index(u)].address, PdptIndex(u)).isPage
  }

  /** The walk of `w` goes through a PD and reaches a present entry in its PD slot. */
  predicate LargeSlotUsed(pml4: Table, heap: Heap, w: nat) {
    HugeSlotUsed(pml4, heap, w) && !HugeLeafAt(pml4, heap, w)
    && Slot(heap, Slot(heap, pml4[Pml4Index(w)].address, PdptIndex(w)).address, PdIndex(w)).present
  }

  /** The walk of `u` ends at a 2 MiB page. */
  predicate LargeLeafAt(pml4: Table, heap: Heap, u: nat) {
    LargeSlotUsed(pml4, heap, u)
    && Slot(heap, Slot(heap, pml4[Pml4Index(u)].address, PdptIndex(u)).address, PdIndex(u)).isPage
  }

  /** The walk of `u` goes through a PT and reaches a present 4 KiB entry. */
  predicate BaseEntryAt(pml4: Table, heap: Heap, u: nat) {
    LargeSlotUsed(pml4, heap, u) && !LargeLeafAt(pml4, heap, u)
    && Slot(heap, Slot(heap, Slot(heap, pml4[Pml4Index(u)].address, PdptIndex(u)).address, PdIndex(u)).address,
            PtIndex(u)).present
  }

  /**
   * resolve_addr finds a translation exactly when the walk ends at a
   * present leaf, and then adds the offset inside that leaf's page.
   */
  lemma ResolveLeaves(pml4: Table, heap: Heap, addr: nat)
    ensures Resolve(pml4, heap, addr).Some? <==>
              HugeLeafAt(pml4, heap, addr) || LargeLeafAt(pml4, heap, addr) || BaseEntryAt(pml4, heap, addr)
    ensures HugeLeafAt(pml4, heap, addr) ==>
              Resolve(pml4, heap, addr) == Some(Slot(heap, pml4[Pml4Index(addr)].address, PdptIndex(addr)).address
                                                + HugePageOffset(addr))
    ensures LargeLeafAt(pml4, heap, addr) ==>
              var e3 := Slot(heap, pml4[Pml4Index(addr)].address, PdptIndex(addr));
              Resolve(pml4, heap, addr) == Some(Slot(heap, e3.address, PdIndex(addr)).address + LargePageOffset(addr))
    ensures BaseEntryAt(pml4, heap, addr) ==>
              var e3 := Slot(heap, pml4[Pml4Index(addr)].address, PdptIndex(addr));
              var e2 := Slot(heap, e3.address, PdIndex(addr));
              Resolve(pml4, heap, addr) == Some(Slot(heap, e2.address, PtIndex(addr)).address + BasePageOffset(addr))
  {
  }

  /**
   * The tables form a tree. `pos` gives every table the index path that
   * leads to it ([i4] for a PDPT, [i4, i3] for a PD, [i4, i3, i2] for a PT);
   * each present non-leaf entry points to a table whose path extends its
   * own by the slot index. So no table is reachable along two paths.
   */
  ghost predicate WellFormed(pml4: Table, heap: Heap, pos: map<nat, seq<nat>>) {
    && heap.Keys == pos.Keys
    && (forall a :: a in pos ==> 1 <= |pos[a]| <= 3)
    && (forall i {:trigger pml4[i]} :: 0 <= i < ENTRIES && pml4[i].present ==>
          !pml4[i].isPage && pml4[i].address in heap && pos[pml4[i].address] == [i])
    && (forall a: nat, j: nat {:trigger Slot(heap, a, j)} ::
          a in heap && j < ENTRIES && Slot(heap, a, j).present && !Slot(heap, a, j).isPage && |pos[a]| < 3 ==>
            Slot(heap, a, j).address in heap && pos[Slot(heap, a, j).address] == pos[a] + [j])
  }

  /** A present PML4 entry leads to a PDPT with path [i]. */
  lemma PdptOf(pml4: Table, heap: Heap, pos: map<nat, seq<nat>>, i: nat)
    requires WellFormed(pml4, heap, pos) && i < ENTRIES && pml4[i].present
    ensures pml4[i].address in heap && pos[pml4[i].address] == [i]
  {
  }

  /** A present non-leaf entry of a PDPT or PD leads to a table one level down. */
  lemma ChildOf(pml4: Table, heap: Heap, pos: map<nat, seq<nat>>, a: nat, j: nat)
    requires WellFormed(pml4, heap, pos) && a in heap && |pos[a]| < 3 && j < ENTRIES
    requires Slot(heap, a, j).present && !Slot(heap, a, j).isPage
    ensures Slot(heap, a, j).address in heap && pos[Slot(heap, a, j).address] == pos[a] + [j]
  {
  }

  /**
   * The second tree only adds to the first: every table frame is kept, and
   * every present slot, in the PML4 and in every table, is unchanged.
   */
  ghost predicate Extends(pml4: Table, heap: Heap, pml4': Table, heap': Heap) {
    && (forall i :: 0 <= i < ENTRIES && pml4[i].present ==> pml4'[i] == pml4[i])
    && heap.Keys <= heap'.Keys
    && (forall a: nat, i: nat {:trigger Slot(heap', a, i)} :: i < ENTRIES && Slot(heap, a, i).present ==> Slot(heap', a, i) == Slot(heap, a, i))
  }

  lemma ExtendsReflexive(pml4: Table, heap: Heap)
    ensures Extends(pml4, heap, pml4, heap)
  {
  }

  lemma ExtendsTransitive(pml4: Table, heap: Heap, pml4': Table, heap': Heap, pml4'': Table, heap'': Heap)
    requires Extends(pml4, heap, pml4', heap') && Extends(pml4', heap', pml4'', heap'')
    ensures Extends(pml4, heap, pml4'', heap'')
  {
  }

  /** Nothing that resolves is remapped by an extension: existing translations survive. */
  lemma ResolvePreserved(pml4: Table, heap: Heap, pml4': Table, heap': Heap, addr: nat)
    requires Extends(pml4, heap, pml4', heap')
    requires Resolve(pml4, heap, addr).Some?
    ensures Resolve(pml4', heap', addr) == Resolve(pml4, heap, addr)
  {
    var e4 := pml4[Pml4Index(addr)];
    var e3 := Slot(heap, e4.address, PdptIndex(addr));
    assert e3.present;
    assert Slot(heap', e4.address, PdptIndex(addr)) == e3;
    if !e3.isPage {
      var e2 := Slot(heap, e3.address, PdIndex(addr));
      assert e2.present;
      assert Slot(heap', e3.address, PdIndex(addr)) == e2;
      if !e2.isPage {
        assert Slot(heap', e2.address, PtIndex(addr)) == Slot(heap, e2.address, PtIndex(addr));
      }
    }
  }

  /**
   * Within one 4 KiB page the walk either fails everywhere or translates
   * every address by the same amount: the page offset is carried over.
   */
  lemma ResolveSamePage(pml4: Table, heap: Heap, u: nat, w: nat)
    requires u / BASE_PAGE_SIZE == w / BASE_PAGE_SIZE
    ensures Resolve(pml4, heap, u).None? <==> Resolve(pml4, heap, w).None?
    ensures Resolve(pml4, heap, u).Some? ==> Resolve(pml4, heap, u).value + w == Resolve(pml4, heap, w).value + u
  {
    Decompose(u);
    Decompose(w);
    DigitSteps(u);
    DigitSteps(w);
    Offsets(u);
    Offsets(w);
    assert PtIndex(u) == PtIndex(w);
    assert PdIndex(u) == PdIndex(w);
    assert PdptIndex(u) == PdptIndex(w);
    assert Pml4Index(u) == Pml4Index(w);
  }

  /** The walk reads bits 0..47 only: an address and its value modulo 2^48 resolve alike. */
  lemma ResolveIgnoresHighBits(pml4: Table, heap: Heap, addr: nat)
    ensures Resolve(pml4, heap, addr % ADDRESS_SPAN) == Resolve(pml4, heap, addr)
  {
    HighBitsIgnored(addr);
  }

  /** Adding a zeroed frame as a new table changes no translation and keeps the tree. */
  lemma AddTable(pml4: Table, heap: Heap, pos: map<nat, seq<nat>>, frame: nat, path: seq<nat>)
    requires WellFormed(pml4, heap, pos)
    requires frame !in heap && 1 <= |path| <= 3
    ensures WellFormed(pml4, heap[frame := EMPTY_TABLE], pos[frame := path])
    ensures Extends(pml4, heap, pml4, heap[frame := EMPTY_TABLE])
    ensures forall u: nat :: Resolve(pml4, heap[frame := EMPTY_TABLE], u) == Resolve(pml4, heap, u)
  {
    var heap' := heap[frame := EMPTY_TABLE];
    var pos' := pos[frame := path];
    assert same: forall b: nat, i: nat :: i < ENTRIES ==> Slot(heap', b, i) == Slot(heap, b, i);
    forall a: nat, j: nat | a in heap' && j < ENTRIES && Slot(heap', a, j).present && !Slot(heap', a, j).isPage && |pos'[a]| < 3
      ensures Slot(heap', a, j).address in heap' && pos'[Slot(heap', a, j).address] == pos'[a] + [j]
    {
      assert a != frame;
      assert Slot(heap, a, j).address in heap;
    }
  }

  /** Pointing an empty PML4 slot at a zeroed PDPT changes no translation and keeps the tree. */
  lemma InstallPdpt(pml4: Table, heap: Heap, pos: map<nat, seq<nat>>, i: nat, frame: nat)
    requires WellFormed(pml4, heap, pos)
    requires i < ENTRIES && !pml4[i].present
    requires frame in heap && heap[frame] == EMPTY_TABLE && pos[frame] == [i]
    ensures WellFormed(pml4[i := TableEntry(frame)], heap, pos)
    ensures Extends(pml4, heap, pml4[i := TableEntry(frame)], heap)
    ensures forall u: nat :: Resolve(pml4[i := TableEntry(frame)], heap, u) == Resolve(pml4, heap, u)
  {
    var pml4' := pml4[i := TableEntry(frame)];
    forall u: nat
      ensures Resolve(pml4', heap, u) == Resolve(pml4, heap, u)
    {
      if Pml4Index(u) == i {
        assert Slot(heap, frame, PdptIndex(u)) == ABSENT;
      }
    }
  }

  /**
   * Along the walk of any address, the PDPT, PD and PT reached have the
   * address's own index paths.
   */
  lemma WalkPositions(pml4: Table, heap: Heap, pos: map<nat, seq<nat>>, u: nat)
    requires WellFormed(pml4, heap, pos)
    ensures var e4 := pml4[Pml4Index(u)];
            e4.present ==>
              && e4.address in heap && pos[e4.address] == [Pml4Index(u)]
              && var e3 := Slot(heap, e4.address, PdptIndex(u));
                 e3.present && !e3.isPage ==>
                   && e3.address in heap && pos[e3.address] == [Pml4Index(u), PdptIndex(u)]
                   && var e2 := Slot(heap, e3.address, PdIndex(u));
                      e2.present && !e2.isPage ==>
                        e2.address in heap && pos[e2.address] == [Pml4Index(u), PdptIndex(u), PdIndex(u)]
  {
    var e4 := pml4[Pml4Index(u)];
    if e4.present {
      PdptOf(pml4, heap, pos, Pml4Index(u));
      var e3 := Slot(heap, e4.address, PdptIndex(u));
      if e3.present && !e3.isPage {
        ChildOf(pml4, heap, pos, e4.address, PdptIndex(u));
        var e2 := Slot(heap, e3.address, PdIndex(u));
        if e2.present && !e2.isPage {
          ChildOf(pml4, heap, pos, e3.address, PdIndex(u));
        }
      }
    }
  }

  /** Store entry `e` in slot `j` of the table held by `frame`. */
  function WriteSlot(heap: Heap, frame: nat, j: nat, e: Entry): (heap': Heap)
    requires j < ENTRIES
    ensures forall b: nat, i: nat {:trigger Slot(heap', b, i)} :: i < ENTRIES ==>
              Slot(heap', b, i) == if b == frame && i == j && frame in heap then e else Slot(heap, b, i)
    ensures heap'.Keys == heap.Keys
  {
    if frame in heap then heap[frame := heap[frame][j := e]] else heap
  }

  /**
   * Pointing an empty PDPT or PD slot at a zeroed table whose path extends
   * the slot's changes no translation and keeps the tree.
   */
  lemma InstallTable(pml4: Table, heap: Heap, pos: map<nat, seq<nat>>, a: nat, j: nat, frame: nat)
    requires WellFormed(pml4, heap, pos)
    requires a in heap && |pos[a]| < 3 && j < ENTRIES && !Slot(heap, a, j).present
    requires frame in heap && heap[frame] == EMPTY_TABLE && pos[frame] == pos[a] + [j]
    ensures var heap' := WriteSlot(heap, a, j, TableEntry(frame));
            WellFormed(pml4, heap', pos) && Extends(pml4, heap, pml4, heap')
            && forall u: nat :: Resolve(pml4, heap', u) == Resolve(pml4, heap, u)
  {
    var heap' := WriteSlot(heap, a, j, TableEntry(frame));
    assert frame != a by { assert |pos[frame]| != |pos[a]|; }
    forall u: nat
      ensures Resolve(pml4, heap', u) == Resolve(pml4, heap, u)
    {
      WalkPositions(pml4, heap, pos, u);
      assert Slot(heap', frame, PdIndex(u)) == ABSENT;
      assert Slot(heap', frame, PtIndex(u)) == ABSENT;
    }
  }

  /**
   * Writing a 1 GiB leaf into an empty slot `j` of the PDPT under PML4 slot
   * `i4` maps exactly the addresses with those two indices, each to the leaf
   * address plus its 1 GiB offset; every other translation is unchanged.
   */
  lemma WriteHugeLeaf(pml4: Table, heap: Heap, pos: map<nat, seq<nat>>, i4: nat, j: nat, leaf: Entry)
    requires WellFormed(pml4, heap, pos)
    requires i4 < ENTRIES && j < ENTRIES && pml4[i4].present
    requires !Slot(heap, pml4[i4].address, j).present
    requires leaf.present && leaf.isPage
    ensures var heap' := WriteSlot(heap, pml4[i4].address, j, leaf);
            WellFormed(pml4, heap', pos) && Extends(pml4, heap, pml4, heap')
            && forall u: nat :: Resolve(pml4, heap', u) ==
                 if Pml4Index(u) == i4 && PdptIndex(u) == j then Some(leaf.address + HugePageOffset(u))
                 else Resolve(pml4, heap, u)
  {
    var a := pml4[i4].address;
    var heap' := WriteSlot(heap, a, j, leaf);
    PdptOf(pml4, heap, pos, i4);
    forall u: nat
      ensures Resolve(pml4, heap', u) ==
                if Pml4Index(u) == i4 && PdptIndex(u) == j then Some(leaf.address + HugePageOffset(u))
                else Resolve(pml4, heap, u)
    {
      WalkPositions(pml4, heap, pos, u);
    }
  }

  /**
   * Writing a 2 MiB leaf into an empty slot `j` of the PD under PML4 slot
   * `i4` and PDPT slot `i3` maps exactly the addresses with those three
   * indices, each to the leaf address plus its 2 MiB offset; every other
   * translation is unchanged.
   */
  lemma WriteLargeLeaf(pml4: Table, heap: Heap, pos: map<nat, seq<nat>>, i4: nat, i3: nat, j: nat, leaf: Entry)
    requires WellFormed(pml4, heap, pos)
    requires i4 < ENTRIES && i3 < ENTRIES && j < ENTRIES && pml4[i4].present
    requires Slot(heap, pml4[i4].address, i3).present && !Slot(heap, pml4[i4].address, i3).isPage
    requires !Slot(heap, Slot(heap, pml4[i4].address, i3).address, j).present
    requires leaf.present && leaf.isPage
    ensures var heap' := WriteSlot(heap, Slot(heap, pml4[i4].address, i3).address, j, leaf);
            WellFormed(pml4, heap', pos) && Extends(pml4, heap, pml4, heap')
            && forall u: nat :: Resolve(pml4, heap', u) ==
                 if Pml4Index(u) == i4 && PdptIndex(u) == i3 && PdIndex(u) == j
                 then Some(leaf.address + LargePageOffset(u))
                 else Resolve(pml4, heap, u)
  {
    var a := pml4[i4].address;
    var b := Slot(heap, a, i3).address;
    var heap' := WriteSlot(heap, b, j, leaf);
    PdptOf(pml4, heap, pos, i4);
    ChildOf(pml4, heap, pos, a, i3);
    assert pos[b][0] == i4 && pos[b][1] == i3;
    forall u: nat
      ensures Resolve(pml4, heap', u) ==
                if Pml4Index(u) == i4 && PdptIndex(u) == i3 && PdIndex(u) == j
                then Some(leaf.address + LargePageOffset(u))
                else Resolve(pml4, heap, u)
    {
      WalkPositions(pml4, heap, pos, u);
      var e4 := pml4[Pml4Index(u)];
      if e4.present {
        var e3 := Slot(heap, e4.address, PdptIndex(u));
        if e3.present && !e3.isPage && e3.address == b {
          assert pos[e3.address][0] == Pml4Index(u) && pos[e3.address][1] == PdptIndex(u);
        }
      }
    }
  }

  /**
   * Writing a present 4 KiB entry into an empty slot `j` of the PT under
   * slots `i4`, `i3` and `i2` maps exactly the addresses with those four
   * indices, each to the entry address plus its 4 KiB offset; every other
   * translation is unchanged.
   */
  lemma WriteBaseEntry(pml4: Table, heap: Heap, pos: map<nat, seq<nat>>, i4: nat, i3: nat, i2: nat, j: nat, leaf: Entry)
    requires WellFormed(pml4, heap, pos)
    requires i4 < ENTRIES && i3 < ENTRIES && i2 < ENTRIES && j < ENTRIES && pml4[i4].present
    requires Slot(heap, pml4[i4].address, i3).present && !Slot(heap, pml4[i4].address, i3).isPage
    requires Slot(heap, Slot(heap, pml4[i4].address, i3).address, i2).present
    requires !Slot(heap, Slot(heap, pml4[i4].address, i3).address, i2).isPage
    requires !Slot(heap, Slot(heap, Slot(heap, pml4[i4].address, i3).address, i2).address, j).present
    requires leaf.present
    ensures var c := Slot(heap, Slot(heap, pml4[i4].address, i3).address, i2).address;
            var heap' := WriteSlot(heap, c, j, leaf);
            WellFormed(pml4, heap', pos) && Extends(pml4, heap, pml4, heap')
            && forall u: nat :: Resolve(pml4, heap', u) ==
                 if Pml4Index(u) == i4 && PdptIndex(u) == i3 && PdIndex(u) == i2 && PtIndex(u) == j
                 then Some(leaf.address + BasePageOffset(u))
                 else Resolve(pml4, heap, u)
  {
    var a := pml4[i4].address;
    var b := Slot(heap, a, i3).address;
    var c := Slot(heap, b, i2).address;
    var heap' := WriteSlot(heap, c, j, leaf);
    PdptOf(pml4, heap, pos, i4);
    ChildOf(pml4, heap, pos, a, i3);
    ChildOf(pml4, heap, pos, b, i2);
    assert pos[c][0] == i4 && pos[c][1] == i3 && pos[c][2] == i2;
    forall u: nat
      ensures Resolve(pml4, heap', u) ==
                if Pml4Index(u) == i4 && PdptIndex(u) == i3 && PdIndex(u) == i2 && PtIndex(u) == j
                then Some(leaf.address + BasePageOffset(u))
                else Resolve(pml4, heap, u)
    {
      WalkPositions(pml4, heap, pos, u);
      var e4 := pml4[Pml4Index(u)];
      if e4.present {
        var e3 := Slot(heap, e4.address, PdptIndex(u));
        if e3.present && !e3.isPage {
          var e2 := Slot(heap, e3.address, PdIndex(u));
          if e2.present && !e2.isPage && e2.address == c {
            assert pos[e2.address][0] == Pml4Index(u) && pos[e2.address][1] == PdptIndex(u);
            assert pos[e2.address][2] == PdIndex(u);
          }
        }
      }
    }
  }
}
