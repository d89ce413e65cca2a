/**
 * The address space of kernel/src/arch/x86_64/vspace.rs: a PML4 table owned
 * by the VSpace object and the lower-level tables it reaches, held in frames
 * taken from a pager. map_generic and its wrappers update the tables in
 * place; their contracts tie the new state to `Resolve`, the walk of
 * resolve_addr.
 */
module VSpaces {
  import opened Addresses
  import opened Wrappers
  import opened PageTables
  import opened Mapping
  import opened Frames
  import opened Growth
  import opened LeafRuns
  import opened Outcomes
  import MapActions


  /**
   * The frame provider map_generic takes page-table frames from (the
   * per-core TCache, which is not part of this model): a list of free,
   * distinct 4 KiB frames handed out in order.
   */
  class Pager {
    var free: seq<nat>

    ghost predicate Valid()
      reads this
    {
      forall i, j :: 0 <= i < j < |free| ==> free[i] != free[j]
    }

    constructor (frames: seq<nat>)
      requires forall i, j :: 0 <= i < j < |frames| ==> frames[i] != frames[j]
      ensures Valid() && free == frames
    {
      free := frames;
    }

    /** allocate_base_page: the next free frame, or None when there is none. */
    method AllocateBasePage() returns (frame: Option<nat>)
      requires Valid()
      modifies this
      ensures Valid()
      ensures old(free) == [] ==> frame == None && free == []
      ensures old(free) != [] ==> frame == Some(old(free)[0]) && free == old(free)[1..]
    {
      if free == [] {
        frame := None;
      } else {
        frame := Some(free[0]);
        free := free[1..];
      }
    }
  }

  /**
   * From `free0` to `free` the pager handed out a prefix of its list (the
   * list is unchanged when that prefix is empty), and every table frame of
   * `heap` was a table frame of `heap0` or one of the frames handed out.
   */
  ghost predicate TookFrames(free0: seq<nat>, free: seq<nat>, frames0: set<nat>, frames: set<nat>) {
    && |free| <= |free0|
    && (|free| == |free0| ==> free == free0)
    && (|free| < |free0| ==> free == free0[|free0| - |free|..])
    && forall f :: f in frames ==> f in frames0 || f in free0[..|free0| - |free|]
  }

  lemma TookNothing(free: seq<nat>, frames: set<nat>)
    ensures TookFrames(free, free, frames, frames)
  {
  }

  lemma TookFramesTransitive(free0: seq<nat>, free1: seq<nat>, free2: seq<nat>,
                              frames0: set<nat>, frames1: set<nat>, frames2: set<nat>)
    requires TookFrames(free0, free1, frames0, frames1) && TookFrames(free1, free2, frames1, frames2)
    ensures TookFrames(free0, free2, frames0, frames2)
  {
    var n1 := |free0| - |free1|;
    var n2 := |free1| - |free2|;
    assert free2 == free0[n1 + n2..];
    forall f | f in frames2
      ensures f in frames0 || f in free0[..n1 + n2]
    {
      if f in free1[..n2] {
        assert free1[..n2] == free0[n1..n1 + n2];
      }
    }
  }

  /**
   * The table frames map_generic may take for `psize` bytes: at most a
   * PDPT, a PD and a PT per pass, and every pass but a lone empty one maps
   * at least 4 KiB.
   */
  function TableBudget(psize: nat): nat {
    3 * (psize / BASE_PAGE_SIZE) + 3
  }

  /** The recursive call on the rest leaves room for the pass that made it. */
  lemma BudgetShrinks(psize: nat, mapped: nat)
    requires psize % BASE_PAGE_SIZE == 0 && mapped % BASE_PAGE_SIZE == 0 && 0 < mapped <= psize
    ensures TableBudget(psize - mapped) + 3 <= TableBudget(psize)
  {
    DivUnique(psize - mapped, BASE_PAGE_SIZE, psize / BASE_PAGE_SIZE - mapped / BASE_PAGE_SIZE, 0);
  }

  /**
   * map_base_doesnt_crash and map_large_doesnt_crash: map_generic into a new
   * address space that holds `frames` free frames, at least its table budget,
   * returns normally and maps the whole region, for the empty tree has no
   * entry a structural panic could name.
   */
  lemma NewSpaceMapsWhole(pml4: Table, heap: Heap, pos: map<nat, seq<nat>>,
                          vbase: nat, pbase: nat, psize: nat, st: Status, frames: nat)
    requires psize <= ADDRESS_SPAN && frames >= TableBudget(psize)
    requires Outcome(EMPTY_TABLE, map[], map[], pml4, heap, pos, vbase, pbase, psize, st)
    requires st == Panicked(OutOfFrames) ==> frames < TableBudget(psize)
    ensures st == Done && MapsRange(pml4, heap, vbase, pbase, psize)
  {
    EmptyNotBlocked(if st.Panicked? then st.reason else OutOfFrames, vbase, vbase + WalkedSize(psize));
    forall u: nat | vbase <= u < vbase + psize
      ensures Resolve(EMPTY_TABLE, map[], u).None?
    {
      assert EMPTY_TABLE[Pml4Index(u)] == ABSENT;
    }
  }

  /** The table frames map_frames may take: a map_generic budget per frame. */
  function FramesBudget(frames: seq<(Frame, MapActions.MapAction)>): nat {
    3 * (TotalSize(frames) / BASE_PAGE_SIZE) + 3 * |frames|
  }

  /** The budgets of the frames before `i` and of frame `i` add up within the whole run's. */
  lemma FramesBudgetStep(frames: seq<(Frame, MapActions.MapAction)>, i: nat)
    requires i < |frames|
    requires forall k :: 0 <= k < |frames| ==> frames[k].0.size % BASE_PAGE_SIZE == 0
    ensures 3 * (FrameOffset(frames, i) / BASE_PAGE_SIZE) + 3 * i + TableBudget(frames[i].0.size)
            == 3 * (FrameOffset(frames, i + 1) / BASE_PAGE_SIZE) + 3 * (i + 1)
    ensures 3 * (FrameOffset(frames, i + 1) / BASE_PAGE_SIZE) + 3 * (i + 1) <= FramesBudget(frames)
  {
    var t, s := FrameOffset(frames, i), frames[i].0.size;
    FrameOffsetAligned(frames, i);
    DivUnique(t + s, BASE_PAGE_SIZE, t / BASE_PAGE_SIZE + s / BASE_PAGE_SIZE, 0);
    FrameOffsetMonotone(frames, i + 1, |frames|);
    FrameOffsetAligned(frames, |frames|);
    DivUnique(TotalSize(frames), BASE_PAGE_SIZE, TotalSize(frames) / BASE_PAGE_SIZE, 0);
  }

  class VSpace {
    const pml4: array<Entry>
    var tables: Heap
    ghost var pos: map<nat, seq<nat>>

    ghost predicate Valid()
      reads this, pml4
    {
      pml4.Length == ENTRIES && WellFormed(pml4[..], tables, pos)
    }

    function Pml4(): Table
      reads pml4
      requires pml4.Length == ENTRIES
    {
      pml4[..]
    }

    /**
     * resolve_addr: the physical address `addr` translates to, if any. There
     * is one exactly when its walk ends in a 1 GiB leaf, a 2 MiB leaf or a
     * present 4 KiB entry.
     */
    function ResolveAddr(addr: nat): (r: Option<nat>)
      reads this, pml4
      requires pml4.Length == ENTRIES
      ensures r.Some? <==> HugeLeafAt(pml4[..], tables, addr) || LargeLeafAt(pml4[..], tables, addr)
                           || BaseEntryAt(pml4[..], tables, addr)
    {
      ResolveLeaves(pml4[..], tables, addr);
      Resolve(pml4[..], tables, addr)
    }

    /** None of the pager's free frames holds a table of this address space. */
    ghost predicate Disjoint(pager: Pager)
      reads this, pager
    {
      forall i :: 0 <= i < |pager.free| ==> pager.free[i] !in tables
    }

    /** VSpace::new: a new, empty PML4 and no lower-level tables. */
    constructor ()
      ensures Valid() && fresh(pml4) && tables == map[] && pos == map[]
      ensures Pml4() == EMPTY_TABLE
      ensures forall addr: nat :: ResolveAddr(addr) == None
    {
      pml4 := new Entry[ENTRIES](_ => ABSENT);
      tables := map[];
      pos := map[];
    }

    /**
     * new_pt, new_pd and new_pdpt: take a frame from the pager and zero it.
     * The caller stores the returned entry; `path` is the index path of the
     * slot it goes into. When the pager is empty there is no entry (the
     * source panics on it).
     */
    method NewTable(ghost path: seq<nat>, pager: Pager) returns (entry: Option<Entry>)
      requires Valid() && pager.Valid() && Disjoint(pager) && 1 <= |path| <= 3
      modifies this, pager
      ensures Valid() && pager.Valid() && Disjoint(pager)
      ensures old(pager.free) == [] ==> entry == None && pager.free == [] && tables == old(tables) && pos == old(pos)
      ensures old(pager.free) != [] ==>
                && entry == Some(TableEntry(old(pager.free)[0]))
                && old(pager.free)[0] !in old(tables)
                && tables == old(tables)[old(pager.free)[0] := EMPTY_TABLE]
                && pos == old(pos)[old(pager.free)[0] := path]
                && pager.free == old(pager.free)[1..]
      ensures Extends(Pml4(), old(tables), Pml4(), tables)
      ensures SameEverywhere(Pml4(), old(tables), Pml4(), tables)
      ensures TookFrames(old(pager.free), pager.free, old(tables).Keys, tables.Keys)
    {
      var frame := pager.AllocateBasePage();
      if frame.None? {
        ExtendsReflexive(Pml4(), tables);
        return None;
      }
      AddTable(Pml4(), tables, pos, frame.value, path);
      tables := tables[frame.value := EMPTY_TABLE];
      pos := pos[frame.value := path];
      entry := Some(TableEntry(frame.value));
      assert old(pager.free)[..1] == [frame.value];
    }

    /**
     * map_identity_with_offset: virtual [atOffset + pbase, atOffset + end)
     * onto physical [pbase, end). On a fresh region every address `u` of it
     * translates to `u - atOffset`.
     */
    method MapIdentityWithOffset(atOffset: nat, pbase: nat, end: nat, rights: MapActions.MapAction, pager: Pager)
      returns (st: Status)
      requires Valid() && pager.Valid() && Disjoint(pager)
      requires end > pbase
      requires pbase % BASE_PAGE_SIZE == 0 && (end - pbase) % BASE_PAGE_SIZE == 0
      requires (atOffset + pbase) % BASE_PAGE_SIZE == 0
      requires rights != MapActions.None
      modifies this, pml4, pager
      ensures Valid() && pager.Valid() && Disjoint(pager)
      ensures Outcome(old(Pml4()), old(tables), old(pos), Pml4(), tables, pos, atOffset + pbase, pbase, end - pbase, st)
      ensures st.Done? && Fresh(old(Pml4()), old(tables), atOffset + pbase, end - pbase) ==>
                forall u: nat :: atOffset + pbase <= u < atOffset + end ==> ResolveAddr(u) == Some(u - atOffset)
      ensures TookFrames(old(pager.free), pager.free, old(tables).Keys, tables.Keys)
      ensures |old(pager.free)| <= |pager.free| + TableBudget(end - pbase)
      ensures st == Panicked(OutOfFrames) ==> pager.free == [] && |old(pager.free)| < TableBudget(end - pbase)
    {
      ghost var pml4_0, heap_0, pos_0 := Pml4(), tables, pos;
      st := MapGeneric(atOffset + pbase, pbase, end - pbase, rights, pager);
      if st.Done? && Fresh(pml4_0, heap_0, atOffset + pbase, end - pbase) {
        OffsetTranslation(pml4_0, heap_0, pos_0, Pml4(), tables, pos, atOffset + pbase, pbase, end - pbase, atOffset);
      }
    }

    /** map_identity: [base, end) onto itself; on a fresh region every address translates to itself. */
    method MapIdentity(base: nat, end: nat, rights: MapActions.MapAction, pager: Pager) returns (st: Status)
      requires Valid() && pager.Valid() && Disjoint(pager)
      requires end > base && base % BASE_PAGE_SIZE == 0 && (end - base) % BASE_PAGE_SIZE == 0
      requires rights != MapActions.None
      modifies this, pml4, pager
      ensures Valid() && pager.Valid() && Disjoint(pager)
      ensures Outcome(old(Pml4()), old(tables), old(pos), Pml4(), tables, pos, base, base, end - base, st)
      ensures st.Done? && Fresh(old(Pml4()), old(tables), base, end - base) ==>
                forall u: nat :: base <= u < end ==> ResolveAddr(u) == Some(u)
      ensures TookFrames(old(pager.free), pager.free, old(tables).Keys, tables.Keys)
      ensures |old(pager.free)| <= |pager.free| + TableBudget(end - base)
      ensures st == Panicked(OutOfFrames) ==> pager.free == [] && |old(pager.free)| < TableBudget(end - base)
    {
      st := MapIdentityWithOffset(0, base, end, rights, pager);
      assert 0 + base == base && 0 + end == end;
    }

    /**
     * map_frames: the frames one after another from `base`, each with its
     * own rights. A panic in one of them stops the run. On a fresh run every
     * frame is mapped at its place in it.
     */
    method MapFrames(base: nat, frames: seq<(Frame, MapActions.MapAction)>, pager: Pager) returns (st: Status)
      requires Valid() && pager.Valid() && Disjoint(pager)
      requires |frames| > 0 && frames[0].0.size > 0 && base % frames[0].0.size == 0
      requires forall k :: 0 <= k < |frames| ==>
                 frames[k].0.base % BASE_PAGE_SIZE == 0 && frames[k].0.size % BASE_PAGE_SIZE == 0
                 && frames[k].1 != MapActions.None
      modifies this, pml4, pager
      ensures Valid() && pager.Valid() && Disjoint(pager)
      ensures FramesOutcome(old(Pml4()), old(tables), old(pos), Pml4(), tables, pos, base, frames, st)
      ensures TookFrames(old(pager.free), pager.free, old(tables).Keys, tables.Keys)
      ensures |old(pager.free)| <= |pager.free| + FramesBudget(frames)
      ensures st == Panicked(OutOfFrames) ==> pager.free == [] && |old(pager.free)| < FramesBudget(frames)
    {
      ghost var pml4_0, heap_0, free_0, pos_0 := Pml4(), tables, pager.free, pos;
      AlignedByMultiple(base, frames[0].0.size);
      FramesStart(pml4_0, heap_0, pos_0, base, frames);
      TookNothing(free_0, heap_0.Keys);
      var currentBase := base;
      var i := 0;
      while i < |frames|
        invariant Valid() && pager.Valid() && Disjoint(pager)
        invariant 0 <= i <= |frames| && currentBase == base + FrameOffset(frames, i)
        invariant FramesRun(pml4_0, heap_0, pos_0, Pml4(), tables, pos, base, frames, i)
        invariant TookFrames(free_0, pager.free, heap_0.Keys, tables.Keys)
        invariant |free_0| <= |pager.free| + 3 * (FrameOffset(frames, i) / BASE_PAGE_SIZE) + 3 * i
      {
        st := MapNextFrame(pml4_0, heap_0, pos_0, free_0, base, frames, i, currentBase, pager);
        if st.Panicked? {
          return;
        }
        currentBase := currentBase + frames[i].0.size;
        i := i + 1;
      }
      FramesDone(pml4_0, heap_0, pos_0, Pml4(), tables, pos, base, frames);
      st := Done;
    }

    /**
     * One pass of the map_frames loop: frame `i` at `currentBase`, where the
     * frames before it end, after which the run covers the first `i + 1`
     * frames (or has stopped on a panic, changing nothing outside the run).
     */
    method MapNextFrame(ghost pml4_0: Table, ghost heap_0: Heap, ghost pos_0: map<nat, seq<nat>>, ghost free_0: seq<nat>,
                        base: nat, frames: seq<(Frame, MapActions.MapAction)>, i: nat, currentBase: nat, pager: Pager)
      returns (st: Status)
      requires Valid() && pager.Valid() && Disjoint(pager)
      requires base % BASE_PAGE_SIZE == 0
      requires forall k :: 0 <= k < |frames| ==>
                 frames[k].0.base % BASE_PAGE_SIZE == 0 && frames[k].0.size % BASE_PAGE_SIZE == 0
                 && frames[k].1 != MapActions.None
      requires i < |frames| && currentBase == base + FrameOffset(frames, i)
      requires FramesRun(pml4_0, heap_0, pos_0, Pml4(), tables, pos, base, frames, i)
      requires TookFrames(free_0, pager.free, heap_0.Keys, tables.Keys)
      requires |free_0| <= |pager.free| + 3 * (FrameOffset(frames, i) / BASE_PAGE_SIZE) + 3 * i
      modifies this, pml4, pager
      ensures Valid() && pager.Valid() && Disjoint(pager)
      ensures st.Done? ==> FramesRun(pml4_0, heap_0, pos_0, Pml4(), tables, pos, base, frames, i + 1)
      ensures st.Panicked? ==> FramesOutcome(pml4_0, heap_0, pos_0, Pml4(), tables, pos, base, frames, st)
      ensures TookFrames(free_0, pager.free, heap_0.Keys, tables.Keys)
      ensures |free_0| <= |pager.free| + 3 * (FrameOffset(frames, i + 1) / BASE_PAGE_SIZE) + 3 * (i + 1)
      ensures 3 * (FrameOffset(frames, i + 1) / BASE_PAGE_SIZE) + 3 * (i + 1) <= FramesBudget(frames)
      ensures st == Panicked(OutOfFrames) ==> pager.free == [] && |free_0| < FramesBudget(frames)
    {
      var frame := frames[i].0;
      FrameOffsetAligned(frames, i);
      AlignedSum(base, FrameOffset(frames, i));
      ghost var pml4_1, heap_1, free_1, pos_1 := Pml4(), tables, pager.free, pos;
      st := MapFrame(currentBase, frame, frames[i].1, pager);
      NextFrameOutcome(pml4_0, heap_0, pos_0, pml4_1, heap_1, pos_1, Pml4(), tables, pos, base, frames, i, currentBase, st);
      TookFramesTransitive(free_0, free_1, pager.free, heap_0.Keys, heap_1.Keys, tables.Keys);
      FramesBudgetStep(frames, i);
    }

    /** map_frame: map_generic on the frame's memory; the frame itself is not recorded. */
    method MapFrame(base: nat, frame: Frame, action: MapActions.MapAction, pager: Pager) returns (st: Status)
      requires Valid() && pager.Valid() && Disjoint(pager)
      requires frame.base % BASE_PAGE_SIZE == 0 && frame.size % BASE_PAGE_SIZE == 0 && base % BASE_PAGE_SIZE == 0
      requires action != MapActions.None
      modifies this, pml4, pager
      ensures Valid() && pager.Valid() && Disjoint(pager)
      ensures Outcome(old(Pml4()), old(tables), old(pos), Pml4(), tables, pos, base, frame.base, frame.size, st)
      ensures TookFrames(old(pager.free), pager.free, old(tables).Keys, tables.Keys)
      ensures |old(pager.free)| <= |pager.free| + TableBudget(frame.size)
      ensures st == Panicked(OutOfFrames) ==> pager.free == [] && |old(pager.free)| < TableBudget(frame.size)
    {
      st := MapGeneric(base, frame.base, frame.size, action, pager);
    }

    /**
     * new_pd or new_pt stored into slot `j` of the table in `frame`: a fresh
     * empty table, in the pager's next frame, is attached below the slot and
     * gets the slot's path, or nothing changes when the pager is empty. No
     * translation changes either way, and the slot is on the walk of `w`, so
     * a run that so far wrote only slots on the walks of [lo, hi) still does.
     */
    method AttachTable(ghost pml4_0: Table, ghost heap_0: Heap, ghost pos_0: map<nat, seq<nat>>,
                       frame: nat, j: nat, ghost w: nat, ghost lo: nat, ghost hi: nat, pager: Pager)
      returns (attached: bool)
      requires Valid() && pager.Valid() && Disjoint(pager)
      requires frame in tables && j < ENTRIES && !Slot(tables, frame, j).present && |pos[frame]| < 3
      requires heap_0.Keys <= tables.Keys && OnWalk(pos[frame], j, w) && lo <= w < hi
      requires Grown(pml4_0, heap_0, pos_0, Pml4(), tables, pos, lo, hi)
      modifies this, pager
      ensures Valid() && pager.Valid() && Disjoint(pager) && Pml4() == old(Pml4())
      ensures !attached ==> old(pager.free) == [] && pager.free == [] && tables == old(tables) && pos == old(pos)
      ensures attached ==>
                && old(pager.free) != [] && old(pager.free)[0] !in old(tables)
                && Slot(tables, frame, j) == TableEntry(old(pager.free)[0])
                && tables.Keys == old(tables).Keys + {old(pager.free)[0]}
                && tables[old(pager.free)[0]] == EMPTY_TABLE
                && pos == old(pos)[old(pager.free)[0] := old(pos)[frame] + [j]]
                && pager.free == old(pager.free)[1..]
      ensures Extends(Pml4(), old(tables), Pml4(), tables)
      ensures SameEverywhere(Pml4(), old(tables), Pml4(), tables)
      ensures Grown(pml4_0, heap_0, pos_0, Pml4(), tables, pos, lo, hi)
      ensures TookFrames(old(pager.free), pager.free, old(tables).Keys, tables.Keys)
    {
      ghost var heap_1, pos_1, free_1 := tables, pos, pager.free;
      var entry := NewTable(pos[frame] + [j], pager);
      if entry.None? {
        return false;
      }
      ghost var heap_2 := tables;
      InstallTable(Pml4(), tables, pos, frame, j, entry.value.address);
      GrownAttach(pml4_0, heap_0, pos_0, Pml4(), heap_1, pos_1, frame, j, entry.value.address, w, lo, hi);
      tables := WriteSlot(tables, frame, j, entry.value);
      ExtendsTransitive(Pml4(), heap_1, Pml4(), heap_2, Pml4(), tables);
      assert TookFrames(free_1, pager.free, heap_1.Keys, tables.Keys);
      attached := true;
    }

    /**
     * new_pdpt stored into slot `i4` of the PML4, the slot of `vbase`: a
     * fresh empty PDPT, in the pager's next frame, is attached below the
     * slot, or nothing changes when the pager is empty. No translation
     * changes either way, and only the slot on the walk of `vbase` is
     * written.
     */
    method AttachPdpt(ghost vbase: nat, i4: nat, pager: Pager) returns (attached: bool)
      requires Valid() && pager.Valid() && Disjoint(pager)
      requires i4 == Pml4Index(vbase) && !pml4[i4].present
      modifies this, pml4, pager
      ensures Valid() && pager.Valid() && Disjoint(pager)
      ensures !attached ==>
                && old(pager.free) == [] && pager.free == []
                && Pml4() == old(Pml4()) && tables == old(tables) && pos == old(pos)
      ensures attached ==>
                && old(pager.free) != [] && old(pager.free)[0] !in old(tables)
                && Pml4() == old(Pml4())[i4 := TableEntry(old(pager.free)[0])]
                && tables == old(tables)[old(pager.free)[0] := EMPTY_TABLE]
                && pos == old(pos)[old(pager.free)[0] := [i4]]
                && pager.free == old(pager.free)[1..]
      ensures pml4[i4].present == attached
      ensures Extends(old(Pml4()), old(tables), Pml4(), tables)
      ensures SameEverywhere(old(Pml4()), old(tables), Pml4(), tables)
      ensures Grown(old(Pml4()), old(tables), old(pos), Pml4(), tables, pos, vbase, vbase + BASE_PAGE_SIZE)
      ensures TookFrames(old(pager.free), pager.free, old(tables).Keys, tables.Keys)
    {
      ghost var pml4_0, heap_0, pos_0 := Pml4(), tables, pos;
      var entry := NewTable([i4], pager);
      if entry.None? {
        GrownNothing(pml4_0, heap_0, pos_0, vbase, vbase + BASE_PAGE_SIZE);
        return false;
      }
      ghost var heap_1 := tables;
      InstallPdpt(pml4_0, tables, pos, i4, entry.value.address);
      GrownPdpt(pml4_0, heap_0, pos_0, i4, entry.value.address, vbase, vbase, vbase + BASE_PAGE_SIZE);
      pml4[i4] := entry.value;
      assert Pml4() == pml4_0[i4 := entry.value];
      ExtendsTransitive(pml4_0, heap_0, pml4_0, heap_1, Pml4(), tables);
      assert SameEverywhere(pml4_0, heap_0, Pml4(), tables);
      return true;
    }

    /**
     * map_generic: map the `psize` bytes of physical memory at `pbase` at
     * virtual `vbase`, using 1 GiB and 2 MiB leaves where the position,
     * the alignment and the remaining size allow, and 4 KiB entries
     * otherwise. It only adds to the tree, writes only slots on the walks
     * of the region (of its first page when `psize` is 0), and changes no
     * translation outside the region; when it returns normally on a fresh
     * region, every address of the region translates to the same offset
     * from `pbase`. A structural panic names an entry that was already in
     * the tree; running out of frames means the pager ran dry before the
     * call's table budget was spent.
     * This part allocates the PDPT when the PML4 slot is empty.
     */
    method MapGeneric(vbase: nat, pbase: nat, psize: nat, rights: MapActions.MapAction, pager: Pager)
      returns (st: Status)
      requires Valid() && pager.Valid() && Disjoint(pager)
      requires pbase % BASE_PAGE_SIZE == 0 && psize % BASE_PAGE_SIZE == 0 && vbase % BASE_PAGE_SIZE == 0
      requires rights != MapActions.None
      modifies this, pml4, pager
      decreases psize, 7
      ensures Valid() && pager.Valid() && Disjoint(pager)
      ensures Outcome(old(Pml4()), old(tables), old(pos), Pml4(), tables, pos, vbase, pbase, psize, st)
      ensures TookFrames(old(pager.free), pager.free, old(tables).Keys, tables.Keys)
      ensures |old(pager.free)| <= |pager.free| + TableBudget(psize)
      ensures st == Panicked(OutOfFrames) ==> pager.free == [] && |old(pager.free)| < TableBudget(psize)
    {
      ghost var pml4_0, heap_0, free_0, pos_0 := Pml4(), tables, pager.free, pos;
      ProgressStart(pml4_0, heap_0, vbase, pbase, psize);
      var i4 := Pml4Index(vbase);
      if !pml4[i4].present {
        var attached := AttachPdpt(vbase, i4, pager);
        if !attached {
          OutOfFramesOutcome(pml4_0, heap_0, pos_0, vbase, pbase, psize);
          return Panicked(OutOfFrames);
        }
        ProgressSame(pml4_0, heap_0, pml4_0, heap_0, Pml4(), tables, vbase, pbase, psize, 0);
      } else {
        GrownNothing(pml4_0, heap_0, pos_0, vbase, vbase + BASE_PAGE_SIZE);
      }
      ghost var heap_2, free_2 := tables, pager.free;
      assert TookFrames(free_0, free_2, heap_0.Keys, heap_2.Keys);
      st := MapAtPdpt(pml4_0, heap_0, pos_0, vbase, pbase, psize, rights, i4, pager);
      TookFramesTransitive(free_0, free_2, pager.free, heap_0.Keys, heap_2.Keys, tables.Keys);
    }

    /**
     * map_generic at the PDPT: 1 GiB leaves when the slot is empty, `vbase`
     * is its position and a whole aligned 1 GiB remains; otherwise the PD
     * below the slot, allocated when missing, and on to the PD.
     */
    method MapAtPdpt(ghost pml4_0: Table, ghost heap_0: Heap, ghost pos_0: map<nat, seq<nat>>,
                     vbase: nat, pbase: nat, psize: nat, rights: MapActions.MapAction, i4: nat, pager: Pager)
      returns (st: Status)
      requires Valid() && pager.Valid() && Disjoint(pager)
      requires pbase % BASE_PAGE_SIZE == 0 && psize % BASE_PAGE_SIZE == 0 && vbase % BASE_PAGE_SIZE == 0
      requires rights != MapActions.None
      requires i4 == Pml4Index(vbase) && pml4[i4].present
      requires Progress(pml4_0, heap_0, Pml4(), tables, vbase, pbase, psize, 0)
      requires Grown(pml4_0, heap_0, pos_0, Pml4(), tables, pos, vbase, vbase + BASE_PAGE_SIZE)
      modifies this, pml4, pager
      decreases psize, 6
      ensures Valid() && pager.Valid() && Disjoint(pager)
      ensures Outcome(pml4_0, heap_0, pos_0, Pml4(), tables, pos, vbase, pbase, psize, st)
      ensures TookFrames(old(pager.free), pager.free, old(tables).Keys, tables.Keys)
      ensures |old(pager.free)| <= |pager.free| + TableBudget(psize) - 1
      ensures st == Panicked(OutOfFrames) ==> pager.free == [] && |old(pager.free)| < TableBudget(psize) - 1
    {
      var pdpt := pml4[i4].address;
      var i3 := PdptIndex(vbase);
      PdptOf(Pml4(), tables, pos, i4);
      if !tables[pdpt][i3].present {
        st := MapAtEmptyPdpt(pml4_0, heap_0, pos_0, vbase, pbase, psize, rights, i4, i3, pager);
      } else if tables[pdpt][i3].isPage {
        HugeCoveredOutcome(pml4_0, heap_0, pos_0, Pml4(), tables, pos, vbase, pbase, psize);
        TookNothing(pager.free, tables.Keys);
        return Panicked(CoveredByHugePage);
      } else {
        st := MapAtPd(pml4_0, heap_0, pos_0, vbase, pbase, psize, rights, i4, i3, pager);
      }
    }

    /**
     * The PDPT stage of map_generic on an empty PDPT slot: a 1 GiB run when
     * `vbase` starts that slot's 1 GiB and enough remains, otherwise a new
     * PD in the slot and the PD stage.
     */
    method MapAtEmptyPdpt(ghost pml4_0: Table, ghost heap_0: Heap, ghost pos_0: map<nat, seq<nat>>,
                          vbase: nat, pbase: nat, psize: nat, rights: MapActions.MapAction,
                          i4: nat, i3: nat, pager: Pager)
      returns (st: Status)
      requires Valid() && pager.Valid() && Disjoint(pager)
      requires pbase % BASE_PAGE_SIZE == 0 && psize % BASE_PAGE_SIZE == 0 && vbase % BASE_PAGE_SIZE == 0
      requires rights != MapActions.None
      requires i4 == Pml4Index(vbase) && i3 == PdptIndex(vbase) && pml4[i4].present
      requires !Slot(tables, pml4[i4].address, i3).present
      requires Progress(pml4_0, heap_0, Pml4(), tables, vbase, pbase, psize, 0)
      requires Grown(pml4_0, heap_0, pos_0, Pml4(), tables, pos, vbase, vbase + BASE_PAGE_SIZE)
      modifies this, pml4, pager
      decreases psize, 5
      ensures Valid() && pager.Valid() && Disjoint(pager)
      ensures Outcome(pml4_0, heap_0, pos_0, Pml4(), tables, pos, vbase, pbase, psize, st)
      ensures TookFrames(old(pager.free), pager.free, old(tables).Keys, tables.Keys)
      ensures |old(pager.free)| <= |pager.free| + TableBudget(psize) - 1
      ensures st == Panicked(OutOfFrames) ==> pager.free == [] && |old(pager.free)| < TableBudget(psize) - 1
    {
      if vbase == PML4_SLOT_SIZE * i4 + HUGE_PAGE_SIZE * i3 && pbase % HUGE_PAGE_SIZE == 0 && psize >= HUGE_PAGE_SIZE {
        st := MapHugeRegion(pml4_0, heap_0, pos_0, vbase, pbase, psize, rights, i4, i3, pager);
        return;
      }
      ghost var heap_1, free_1 := tables, pager.free;
      var pdpt := pml4[i4].address;
      PdptOf(Pml4(), tables, pos, i4);
      var attached := AttachTable(pml4_0, heap_0, pos_0, pdpt, i3, vbase, vbase, vbase + BASE_PAGE_SIZE, pager);
      if !attached {
        PanicOutcome(pml4_0, heap_0, pos_0, Pml4(), tables, pos, vbase, pbase, psize, 0, OutOfFrames);
        return Panicked(OutOfFrames);
      }
      ProgressSame(pml4_0, heap_0, Pml4(), heap_1, Pml4(), tables, vbase, pbase, psize, 0);
      ghost var heap_2, free_2 := tables, pager.free;
      st := MapAtPd(pml4_0, heap_0, pos_0, vbase, pbase, psize, rights, i4, i3, pager);
      TookFramesTransitive(free_1, free_2, pager.free, heap_1.Keys, heap_2.Keys, tables.Keys);
    }

    /**
     * map_generic at the PD: 2 MiB leaves when the slot is empty, `vbase`
     * is its position and a whole aligned 2 MiB remains; otherwise the PT
     * below the slot, allocated when missing, and the 4 KiB loop.
     */
    method MapAtPd(ghost pml4_0: Table, ghost heap_0: Heap, ghost pos_0: map<nat, seq<nat>>,
                   vbase: nat, pbase: nat, psize: nat, rights: MapActions.MapAction, i4: nat, i3: nat, pager: Pager)
      returns (st: Status)
      requires Valid() && pager.Valid() && Disjoint(pager)
      requires pbase % BASE_PAGE_SIZE == 0 && psize % BASE_PAGE_SIZE == 0 && vbase % BASE_PAGE_SIZE == 0
      requires rights != MapActions.None
      requires i4 == Pml4Index(vbase) && i3 == PdptIndex(vbase) && pml4[i4].present
      requires Slot(tables, pml4[i4].address, i3).present && !Slot(tables, pml4[i4].address, i3).isPage
      requires Progress(pml4_0, heap_0, Pml4(), tables, vbase, pbase, psize, 0)
      requires Grown(pml4_0, heap_0, pos_0, Pml4(), tables, pos, vbase, vbase + BASE_PAGE_SIZE)
      modifies this, pml4, pager
      decreases psize, 4
      ensures Valid() && pager.Valid() && Disjoint(pager)
      ensures Outcome(pml4_0, heap_0, pos_0, Pml4(), tables, pos, vbase, pbase, psize, st)
      ensures TookFrames(old(pager.free), pager.free, old(tables).Keys, tables.Keys)
      ensures |old(pager.free)| <= |pager.free| + TableBudget(psize) - 2
      ensures st == Panicked(OutOfFrames) ==> pager.free == [] && |old(pager.free)| < TableBudget(psize) - 2
    {
      var pdpt := pml4[i4].address;
      PdptOf(Pml4(), tables, pos, i4);
      ChildOf(Pml4(), tables, pos, pdpt, i3);
      var pd := tables[pdpt][i3].address;
      var i2 := PdIndex(vbase);
      if !tables[pd][i2].present {
        st := MapAtEmptyPd(pml4_0, heap_0, pos_0, vbase, pbase, psize, rights, i4, i3, i2, pager);
      } else {
        st := MapAtPt(pml4_0, heap_0, pos_0, vbase, pbase, psize, rights, i4, i3, i2, pager);
      }
    }

    /**
     * The PD stage of map_generic on an empty PD slot: a 2 MiB run when
     * `vbase` starts that slot's 2 MiB and enough remains, otherwise a new
     * PT in the slot and the PT stage.
     */
    method MapAtEmptyPd(ghost pml4_0: Table, ghost heap_0: Heap, ghost pos_0: map<nat, seq<nat>>,
                        vbase: nat, pbase: nat, psize: nat, rights: MapActions.MapAction,
                        i4: nat, i3: nat, i2: nat, pager: Pager)
      returns (st: Status)
      requires Valid() && pager.Valid() && Disjoint(pager)
      requires pbase % BASE_PAGE_SIZE == 0 && psize % BASE_PAGE_SIZE == 0 && vbase % BASE_PAGE_SIZE == 0
      requires rights != MapActions.None
      requires i4 == Pml4Index(vbase) && i3 == PdptIndex(vbase) && i2 == PdIndex(vbase) && pml4[i4].present
      requires Slot(tables, pml4[i4].address, i3).present && !Slot(tables, pml4[i4].address, i3).isPage
      requires !Slot(tables, Slot(tables, pml4[i4].address, i3).address, i2).present
      requires Progress(pml4_0, heap_0, Pml4(), tables, vbase, pbase, psize, 0)
      requires Grown(pml4_0, heap_0, pos_0, Pml4(), tables, pos, vbase, vbase + BASE_PAGE_SIZE)
      modifies this, pml4, pager
      decreases psize, 3
      ensures Valid() && pager.Valid() && Disjoint(pager)
      ensures Outcome(pml4_0, heap_0, pos_0, Pml4(), tables, pos, vbase, pbase, psize, st)
      ensures TookFrames(old(pager.free), pager.free, old(tables).Keys, tables.Keys)
      ensures |old(pager.free)| <= |pager.free| + TableBudget(psize) - 2
      ensures st == Panicked(OutOfFrames) ==> pager.free == [] && |old(pager.free)| < TableBudget(psize) - 2
    {
      if vbase == PML4_SLOT_SIZE * i4 + HUGE_PAGE_SIZE * i3 + LARGE_PAGE_SIZE * i2
         && pbase % LARGE_PAGE_SIZE == 0 && psize >= LARGE_PAGE_SIZE {
        st := MapLargeRegion(pml4_0, heap_0, pos_0, vbase, pbase, psize, rights, i4, i3, i2, pager);
        return;
      }
      ghost var heap_1, free_1 := tables, pager.free;
      var pdpt := pml4[i4].address;
      PdptOf(Pml4(), tables, pos, i4);
      ChildOf(Pml4(), tables, pos, pdpt, i3);
      var pd := tables[pdpt][i3].address;
      var attached := AttachTable(pml4_0, heap_0, pos_0, pd, i2, vbase, vbase, vbase + BASE_PAGE_SIZE, pager);
      if !attached {
        PanicOutcome(pml4_0, heap_0, pos_0, Pml4(), tables, pos, vbase, pbase, psize, 0, OutOfFrames);
        return Panicked(OutOfFrames);
      }
      ProgressSame(pml4_0, heap_0, Pml4(), heap_1, Pml4(), tables, vbase, pbase, psize, 0);
      ghost var heap_2, free_2 := tables, pager.free;
      st := MapAtPt(pml4_0, heap_0, pos_0, vbase, pbase, psize, rights, i4, i3, i2, pager);
      TookFramesTransitive(free_1, free_2, pager.free, heap_1.Keys, heap_2.Keys, tables.Keys);
    }

    /** The PT stage of map_generic: a 2 MiB page already in the PD slot panics, otherwise the 4 KiB branch. */
    method MapAtPt(ghost pml4_0: Table, ghost heap_0: Heap, ghost pos_0: map<nat, seq<nat>>,
                   vbase: nat, pbase: nat, psize: nat, rights: MapActions.MapAction,
                   i4: nat, i3: nat, i2: nat, pager: Pager)
      returns (st: Status)
      requires Valid() && pager.Valid() && Disjoint(pager)
      requires pbase % BASE_PAGE_SIZE == 0 && psize % BASE_PAGE_SIZE == 0 && vbase % BASE_PAGE_SIZE == 0
      requires rights != MapActions.None
      requires i4 == Pml4Index(vbase) && i3 == PdptIndex(vbase) && i2 == PdIndex(vbase) && pml4[i4].present
      requires Slot(tables, pml4[i4].address, i3).present && !Slot(tables, pml4[i4].address, i3).isPage
      requires Slot(tables, Slot(tables, pml4[i4].address, i3).address, i2).present
      requires Progress(pml4_0, heap_0, Pml4(), tables, vbase, pbase, psize, 0)
      requires Grown(pml4_0, heap_0, pos_0, Pml4(), tables, pos, vbase, vbase + BASE_PAGE_SIZE)
      modifies this, pml4, pager
      decreases psize, 2
      ensures Valid() && pager.Valid() && Disjoint(pager)
      ensures Outcome(pml4_0, heap_0, pos_0, Pml4(), tables, pos, vbase, pbase, psize, st)
      ensures TookFrames(old(pager.free), pager.free, old(tables).Keys, tables.Keys)
      ensures |old(pager.free)| <= |pager.free| + TableBudget(psize) - 3
      ensures st == Panicked(OutOfFrames) ==> pager.free == [] && |old(pager.free)| < TableBudget(psize) - 3
    {
      var pdpt := pml4[i4].address;
      PdptOf(Pml4(), tables, pos, i4);
      ChildOf(Pml4(), tables, pos, pdpt, i3);
      var pd := tables[pdpt][i3].address;
      if tables[pd][i2].isPage {
        LargeCoveredOutcome(pml4_0, heap_0, pos_0, Pml4(), tables, pos, vbase, pbase, psize);
        TookNothing(pager.free, tables.Keys);
        return Panicked(CoveredByLargePage);
      }
      st := MapBaseRegion(pml4_0, heap_0, pos_0, vbase, pbase, psize, rights, i4, i3, i2, pager);
    }

    /** The 1 GiB branch of map_generic: the huge-page loop, then the rest of the region. */
    method MapHugeRegion(ghost pml4_0: Table, ghost heap_0: Heap, ghost pos_0: map<nat, seq<nat>>,
                         vbase: nat, pbase: nat, psize: nat, rights: MapActions.MapAction, i4: nat, i3: nat, pager: Pager)
      returns (st: Status)
      requires Valid() && pager.Valid() && Disjoint(pager)
      requires pbase % BASE_PAGE_SIZE == 0 && psize % BASE_PAGE_SIZE == 0 && vbase % BASE_PAGE_SIZE == 0
      requires rights != MapActions.None
      requires i4 < ENTRIES && i3 < ENTRIES && pml4[i4].present && !Slot(tables, pml4[i4].address, i3).present
      requires vbase == PML4_SLOT_SIZE * i4 + HUGE_PAGE_SIZE * i3
      requires pbase % HUGE_PAGE_SIZE == 0 && psize >= HUGE_PAGE_SIZE
      requires Progress(pml4_0, heap_0, Pml4(), tables, vbase, pbase, psize, 0)
      requires Grown(pml4_0, heap_0, pos_0, Pml4(), tables, pos, vbase, vbase + BASE_PAGE_SIZE)
      modifies this, pml4, pager
      decreases psize, 1
      ensures Valid() && pager.Valid() && Disjoint(pager)
      ensures Outcome(pml4_0, heap_0, pos_0, Pml4(), tables, pos, vbase, pbase, psize, st)
      ensures TookFrames(old(pager.free), pager.free, old(tables).Keys, tables.Keys)
      ensures |old(pager.free)| <= |pager.free| + TableBudget(psize) - 3
      ensures st == Panicked(OutOfFrames) ==> pager.free == [] && |old(pager.free)| < TableBudget(psize) - 3
    {
      ghost var heap_1 := tables;
      var mapped;
      ghost var n;
      var pdpt := pml4[i4].address;
      PdptOf(Pml4(), tables, pos, i4);
      st, mapped, n := MapHugePages(pdpt, pbase, psize, rights, i3);
      PageMultiple(n);
      HugeRunEffect(pml4_0, heap_0, pos_0, Pml4(), heap_1, pos, vbase, pbase, psize, i4, i3, n, rights);
      assert MappedPrefix(pml4_0, heap_0, pos_0, Pml4(), tables, pos, vbase, pbase, psize, mapped);
      if st.Panicked? {
        HugeSlotStop(pml4_0, heap_0, pos_0, Pml4(), tables, pos, vbase, mapped, i4, i3, i3 + n);
        HugeTakenBlocked(pml4_0, heap_0, vbase, psize, mapped);
        PanicOutcome(pml4_0, heap_0, pos_0, Pml4(), tables, pos, vbase, pbase, psize, mapped, HugeSlotTaken);
        TookNothing(pager.free, tables.Keys);
        return;
      }
      st := FinishRemainder(pml4_0, heap_0, pos_0, vbase, pbase, psize, mapped, rights, pager);
    }

    /** The 2 MiB branch of map_generic: the large-page loop, then the rest of the region. */
    method MapLargeRegion(ghost pml4_0: Table, ghost heap_0: Heap, ghost pos_0: map<nat, seq<nat>>,
                          vbase: nat, pbase: nat, psize: nat, rights: MapActions.MapAction,
                          i4: nat, i3: nat, i2: nat, pager: Pager)
      returns (st: Status)
      requires Valid() && pager.Valid() && Disjoint(pager)
      requires pbase % BASE_PAGE_SIZE == 0 && psize % BASE_PAGE_SIZE == 0 && vbase % BASE_PAGE_SIZE == 0
      requires rights != MapActions.None
      requires i4 < ENTRIES && i3 < ENTRIES && i2 < ENTRIES && pml4[i4].present
      requires Slot(tables, pml4[i4].address, i3).present && !Slot(tables, pml4[i4].address, i3).isPage
      requires !Slot(tables, Slot(tables, pml4[i4].address, i3).address, i2).present
      requires vbase == PML4_SLOT_SIZE * i4 + HUGE_PAGE_SIZE * i3 + LARGE_PAGE_SIZE * i2
      requires pbase % LARGE_PAGE_SIZE == 0 && psize >= LARGE_PAGE_SIZE
      requires Progress(pml4_0, heap_0, Pml4(), tables, vbase, pbase, psize, 0)
      requires Grown(pml4_0, heap_0, pos_0, Pml4(), tables, pos, vbase, vbase + BASE_PAGE_SIZE)
      modifies this, pml4, pager
      decreases psize, 1
      ensures Valid() && pager.Valid() && Disjoint(pager)
      ensures Outcome(pml4_0, heap_0, pos_0, Pml4(), tables, pos, vbase, pbase, psize, st)
      ensures TookFrames(old(pager.free), pager.free, old(tables).Keys, tables.Keys)
      ensures |old(pager.free)| <= |pager.free| + TableBudget(psize) - 3
      ensures st == Panicked(OutOfFrames) ==> pager.free == [] && |old(pager.free)| < TableBudget(psize) - 3
    {
      ghost var heap_1 := tables;
      var mapped;
      ghost var n;
      var pdpt := pml4[i4].address;
      PdptOf(Pml4(), tables, pos, i4);
      ChildOf(Pml4(), tables, pos, pdpt, i3);
      var pd := tables[pdpt][i3].address;
      st, mapped, n := MapLargePages(pd, pbase, psize, rights, i2);
      PageMultiple(n);
      LargeRunEffect(pml4_0, heap_0, pos_0, Pml4(), heap_1, pos, vbase, pbase, psize, i4, i3, i2, n, rights);
      assert MappedPrefix(pml4_0, heap_0, pos_0, Pml4(), tables, pos, vbase, pbase, psize, mapped);
      if st.Panicked? {
        PdDistinct(Pml4(), heap_1, pos, i4, i3);
        LeavesSlot(heap_1, pd, i2, n, LARGE_PAGE_SIZE, pbase, rights, pdpt, i3);
        LargeSlotStop(pml4_0, heap_0, pos_0, Pml4(), tables, pos, vbase, mapped, i4, i3, i2, i2 + n);
        LargeTakenBlocked(pml4_0, heap_0, vbase, psize, mapped);
        PanicOutcome(pml4_0, heap_0, pos_0, Pml4(), tables, pos, vbase, pbase, psize, mapped, LargeSlotTaken);
        TookNothing(pager.free, tables.Keys);
        return;
      }
      st := FinishRemainder(pml4_0, heap_0, pos_0, vbase, pbase, psize, mapped, rights, pager);
    }

    /** The 4 KiB tail of map_generic: the base-page loop, then the rest of the region. */
    method MapBaseRegion(ghost pml4_0: Table, ghost heap_0: Heap, ghost pos_0: map<nat, seq<nat>>,
                         vbase: nat, pbase: nat, psize: nat, rights: MapActions.MapAction,
                         i4: nat, i3: nat, i2: nat, pager: Pager)
      returns (st: Status)
      requires Valid() && pager.Valid() && Disjoint(pager)
      requires pbase % BASE_PAGE_SIZE == 0 && psize % BASE_PAGE_SIZE == 0 && vbase % BASE_PAGE_SIZE == 0
      requires rights != MapActions.None
      requires i4 == Pml4Index(vbase) && i3 == PdptIndex(vbase) && i2 == PdIndex(vbase) && pml4[i4].present
      requires Slot(tables, pml4[i4].address, i3).present && !Slot(tables, pml4[i4].address, i3).isPage
      requires Slot(tables, Slot(tables, pml4[i4].address, i3).address, i2).present
      requires !Slot(tables, Slot(tables, pml4[i4].address, i3).address, i2).isPage
      requires Progress(pml4_0, heap_0, Pml4(), tables, vbase, pbase, psize, 0)
      requires Grown(pml4_0, heap_0, pos_0, Pml4(), tables, pos, vbase, vbase + BASE_PAGE_SIZE)
      modifies this, pml4, pager
      decreases psize, 1
      ensures Valid() && pager.Valid() && Disjoint(pager)
      ensures Outcome(pml4_0, heap_0, pos_0, Pml4(), tables, pos, vbase, pbase, psize, st)
      ensures TookFrames(old(pager.free), pager.free, old(tables).Keys, tables.Keys)
      ensures |old(pager.free)| <= |pager.free| + TableBudget(psize) - 3
      ensures st == Panicked(OutOfFrames) ==> pager.free == [] && |old(pager.free)| < TableBudget(psize) - 3
    {
      ghost var heap_1 := tables;
      var mapped;
      ghost var n;
      var pdpt := pml4[i4].address;
      PdptOf(Pml4(), tables, pos, i4);
      ChildOf(Pml4(), tables, pos, pdpt, i3);
      var pd := tables[pdpt][i3].address;
      ChildOf(Pml4(), tables, pos, pd, i2);
      var pt := tables[pd][i2].address;
      mapped, n := MapBasePages(pt, vbase, pbase, psize, rights);
      Decompose(vbase);
      DivUnique(mapped, BASE_PAGE_SIZE, n, 0);
      BaseRunEffect(pml4_0, heap_0, pos_0, Pml4(), heap_1, pos, vbase, pbase, psize, vbase / ADDRESS_SPAN,
                    i4, i3, i2, PtIndex(vbase), n, rights);
      assert MappedPrefix(pml4_0, heap_0, pos_0, Pml4(), tables, pos, vbase, pbase, psize, mapped);
      st := FinishRemainder(pml4_0, heap_0, pos_0, vbase, pbase, psize, mapped, rights, pager);
    }

    /**
     * The tail of map_generic after a leaf loop: when the loop stopped short
     * of `psize`, map the rest from `vbase + mapped` to `pbase + mapped`.
     */
    method FinishRemainder(ghost pml4_0: Table, ghost heap_0: Heap, ghost pos_0: map<nat, seq<nat>>,
                           vbase: nat, pbase: nat, psize: nat, mapped: nat, rights: MapActions.MapAction, pager: Pager)
      returns (st: Status)
      requires Valid() && pager.Valid() && Disjoint(pager)
      requires pbase % BASE_PAGE_SIZE == 0 && psize % BASE_PAGE_SIZE == 0 && vbase % BASE_PAGE_SIZE == 0
      requires mapped % BASE_PAGE_SIZE == 0 && mapped <= psize && (psize > 0 ==> mapped > 0)
      requires rights != MapActions.None
      requires Progress(pml4_0, heap_0, Pml4(), tables, vbase, pbase, psize, mapped)
      requires Grown(pml4_0, heap_0, pos_0, Pml4(), tables, pos, vbase, vbase + WalkedSize(mapped))
      modifies this, pml4, pager
      decreases psize, 0
      ensures Valid() && pager.Valid() && Disjoint(pager)
      ensures Outcome(pml4_0, heap_0, pos_0, Pml4(), tables, pos, vbase, pbase, psize, st)
      ensures TookFrames(old(pager.free), pager.free, old(tables).Keys, tables.Keys)
      ensures |old(pager.free)| <= |pager.free| + TableBudget(psize) - 3
      ensures st == Panicked(OutOfFrames) ==> pager.free == [] && |old(pager.free)| < TableBudget(psize) - 3
    {
      if mapped < psize {
        ghost var pml4_1, heap_1, pos_1 := Pml4(), tables, pos;
        st := MapGeneric(vbase + mapped, pbase + mapped, psize - mapped, rights, pager);
        RemainderOutcome(pml4_0, heap_0, pos_0, pml4_1, heap_1, pos_1, Pml4(), tables, pos, vbase, pbase, psize, mapped, st);
        BudgetShrinks(psize, mapped);
      } else {
        DoneOutcome(pml4_0, heap_0, pos_0, Pml4(), tables, pos, vbase, pbase, psize);
        st := Done;
      }
    }

    /**
     * The 1 GiB loop of map_generic over the PDPT in `pdpt`: slots `i3`
     * onwards get huge leaves for `pbase`, `pbase + 1 GiB`, ... while at
     * least 1 GiB remains and the PDPT has slots left; a slot already
     * present panics. It writes the run of `n` leaves, every one into a slot
     * that was empty, and changes nothing else.
     */
    method MapHugePages(pdpt: nat, pbase: nat, psize: nat, rights: MapActions.MapAction, i3: nat)
      returns (st: Status, mapped: nat, ghost n: nat)
      requires pdpt in tables && i3 < ENTRIES && !Slot(tables, pdpt, i3).present
      requires psize >= HUGE_PAGE_SIZE
      modifies this`tables
      ensures 0 < n && mapped == HUGE_PAGE_SIZE * n && mapped <= psize
      ensures LeafRun(old(tables), tables, pdpt, i3, n, HUGE_PAGE_SIZE, pbase, rights)
      ensures st.Done? ==> psize - mapped < HUGE_PAGE_SIZE || i3 + n == ENTRIES
      ensures st.Panicked? ==>
                && st.reason == HugeSlotTaken && i3 + n < ENTRIES && mapped + HUGE_PAGE_SIZE <= psize
                && Slot(tables, pdpt, i3 + n).present
    {
      var idx := i3;
      mapped, n := 0, 0;
      while mapped < psize && psize - mapped >= HUGE_PAGE_SIZE && idx < ENTRIES
        invariant pdpt in tables
        invariant idx == i3 + n && mapped == HUGE_PAGE_SIZE * n && mapped <= psize
        invariant LeafRun(old(tables), tables, pdpt, i3, n, HUGE_PAGE_SIZE, pbase, rights)
        decreases ENTRIES - idx
      {
        if Slot(tables, pdpt, idx).present {
          return Panicked(HugeSlotTaken), mapped, n;
        }
        LeafRunNext(old(tables), tables, pdpt, i3, n, idx, mapped, HUGE_PAGE_SIZE, pbase, rights);
        tables := WriteSlot(tables, pdpt, idx, PageLeaf(pbase + mapped, rights));
        idx := idx + 1;
        mapped := mapped + HUGE_PAGE_SIZE;
        n := n + 1;
      }
      st := Done;
    }

    /**
     * The 2 MiB loop of map_generic over the PD in `pd`: slots `i2` onwards
     * get large leaves while at least 2 MiB remains and the PD has slots
     * left; a slot already present panics. It writes the run of `n` leaves,
     * every one into a slot that was empty, and changes nothing else.
     */
    method MapLargePages(pd: nat, pbase: nat, psize: nat, rights: MapActions.MapAction, i2: nat)
      returns (st: Status, mapped: nat, ghost n: nat)
      requires pd in tables && i2 < ENTRIES && !Slot(tables, pd, i2).present
      requires psize >= LARGE_PAGE_SIZE
      modifies this`tables
      ensures 0 < n && mapped == LARGE_PAGE_SIZE * n && mapped <= psize
      ensures LeafRun(old(tables), tables, pd, i2, n, LARGE_PAGE_SIZE, pbase, rights)
      ensures st.Done? ==> psize - mapped < LARGE_PAGE_SIZE || i2 + n == ENTRIES
      ensures st.Panicked? ==>
                && st.reason == LargeSlotTaken && i2 + n < ENTRIES && mapped + LARGE_PAGE_SIZE <= psize
                && Slot(tables, pd, i2 + n).present
    {
      var idx := i2;
      mapped, n := 0, 0;
      while mapped < psize && psize - mapped >= LARGE_PAGE_SIZE && idx < ENTRIES
        invariant pd in tables
        invariant idx == i2 + n && mapped == LARGE_PAGE_SIZE * n && mapped <= psize
        invariant LeafRun(old(tables), tables, pd, i2, n, LARGE_PAGE_SIZE, pbase, rights)
        decreases ENTRIES - idx
      {
        if Slot(tables, pd, idx).present {
          return Panicked(LargeSlotTaken), mapped, n;
        }
        LeafRunNext(old(tables), tables, pd, i2, n, idx, mapped, LARGE_PAGE_SIZE, pbase, rights);
        tables := WriteSlot(tables, pd, idx, PageLeaf(pbase + mapped, rights));
        idx := idx + 1;
        mapped := mapped + LARGE_PAGE_SIZE;
        n := n + 1;
      }
      st := Done;
    }

    /**
     * The 4 KiB loop of map_generic over the PT in `pt`: slots from the one
     * of `vbase` onwards get entries for `pbase`, `pbase + 4 KiB`, ... until
     * `psize` is covered or the PT ends; a slot already present is left as
     * it is. It is the run `BaseEntries` over `n` slots.
     */
    method MapBasePages(pt: nat, vbase: nat, pbase: nat, psize: nat, rights: MapActions.MapAction)
      returns (mapped: nat, ghost n: nat)
      requires pt in tables && psize % BASE_PAGE_SIZE == 0
      modifies this`tables
      ensures PtIndex(vbase) + n <= ENTRIES && mapped == BASE_PAGE_SIZE * n && mapped <= psize
      ensures psize > 0 ==> 0 < n
      ensures mapped == psize || PtIndex(vbase) + n == ENTRIES
      ensures tables == BaseEntries(old(tables), pt, PtIndex(vbase), n, pbase, rights)
    {
      var j0 := PtIndex(vbase);
      var idx := j0;
      mapped, n := 0, 0;
      while mapped < psize && idx < ENTRIES
        invariant pt in tables
        invariant idx == j0 + n <= ENTRIES && mapped == BASE_PAGE_SIZE * n && mapped <= psize
        invariant tables == BaseEntries(old(tables), pt, j0, n, pbase, rights)
        decreases ENTRIES - idx
      {
        DivUnique(mapped, BASE_PAGE_SIZE, n, 0);
        AlignedAbove(mapped, psize);
        BaseEntriesNext(old(tables), pt, j0, n, idx, mapped, pbase, rights);
        if !Slot(tables, pt, idx).present {
          tables := WriteSlot(tables, pt, idx, BaseLeaf(pbase + mapped, rights));
        }
        mapped := mapped + BASE_PAGE_SIZE;
        idx := idx + 1;
        n := n + 1;
      }
    }
  }
}
