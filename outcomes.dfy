/**
 * How a map_generic call ends, in terms of the tree it started from: the
 * panics it can raise, the entry a structural panic ran into, and the
 * outcome predicate every stage of the descent promises, with the lemmas
 * that put a stage's outcome together from its parts.
 */
module Outcomes {
  import opened Wrappers
  import opened Addresses
  import opened PageTables
  import opened Mapping
  import opened Growth
  import opened Frames
  import MapActions

  /** Why a mapping call stopped the kernel. map_generic has no error return; it panics instead. */
  datatype Panic =
    | OutOfFrames         // the pager had no frame for new_pt, new_pd or new_pdpt
    | HugeSlotTaken       // the 1 GiB loop met a present PDPT slot
    | CoveredByHugePage   // the PDPT entry on the way down is a 1 GiB page
    | LargeSlotTaken      // the 2 MiB loop met a present PD slot
    | CoveredByLargePage  // the PD entry on the way down is a 2 MiB page

  /** `Done` is the `Ok(())` return; `Panicked` is a kernel panic, which no caller can catch. */
  datatype Status = Done | Panicked(reason: Panic)

  /**
   * The entry a structural panic ran into, found in the tree as it was when
   * the call began: a present PDPT or PD slot at an aligned position the
   * leaf loop reached inside [lo, hi), or a 1 GiB or 2 MiB leaf covering an
   * address of [lo, hi). Running out of frames needs no entry.
   */
  ghost predicate Blocked(pml4: Table, heap: Heap, reason: Panic, lo: nat, hi: nat) {
    match reason
    case OutOfFrames => false
    case HugeSlotTaken =>
      exists w: nat :: lo < w && w + HUGE_PAGE_SIZE <= hi && w % HUGE_PAGE_SIZE == 0 && HugeSlotUsed(pml4, heap, w)
    case LargeSlotTaken =>
      exists w: nat :: lo < w && w + LARGE_PAGE_SIZE <= hi && w % LARGE_PAGE_SIZE == 0 && LargeSlotUsed(pml4, heap, w)
    case CoveredByHugePage => exists u: nat :: lo <= u < hi && HugeLeafAt(pml4, heap, u)
    case CoveredByLargePage => exists u: nat :: lo <= u < hi && LargeLeafAt(pml4, heap, u)
  }

  /**
   * What every return of a mapping call keeps from tree 0: it only added
   * to the tree, changed no translation outside the `size` bytes at
   * `vbase`, and wrote only slots on the walks of addresses below `hi`.
   */
  ghost predicate Confined(pml4_0: Table, heap_0: Heap, pos_0: map<nat, seq<nat>>,
                           pml4: Table, heap: Heap, pos: map<nat, seq<nat>>,
                           vbase: nat, size: nat, hi: nat) {
    && Extends(pml4_0, heap_0, pml4, heap)
    && SameOutside(pml4_0, heap_0, pml4, heap, vbase, size)
    && Grown(pml4_0, heap_0, pos_0, pml4, heap, pos, vbase, hi)
  }

  /**
   * What map_generic promises about the region of `psize` bytes at `vbase`
   * when it started from tree 0: the region's walks confine every change,
   * it mapped the whole region to `pbase` onwards if it returned normally
   * on a fresh region, and a structural panic names an entry of tree 0.
   */
  ghost predicate Outcome(pml4_0: Table, heap_0: Heap, pos_0: map<nat, seq<nat>>,
                          pml4: Table, heap: Heap, pos: map<nat, seq<nat>>,
                          vbase: nat, pbase: nat, psize: nat, st: Status) {
    match st
    case Done =>
      && Confined(pml4_0, heap_0, pos_0, pml4, heap, pos, vbase, psize, vbase + WalkedSize(psize))
      && (Fresh(pml4_0, heap_0, vbase, psize) ==> MapsRange(pml4, heap, vbase, pbase, psize))
    case Panicked(reason) =>
      && Confined(pml4_0, heap_0, pos_0, pml4, heap, pos, vbase, psize, vbase + WalkedSize(psize))
      && (psize <= ADDRESS_SPAN && reason != OutOfFrames ==>
            Blocked(pml4_0, heap_0, reason, vbase, vbase + WalkedSize(psize)))
  }

  /** A panic after the first `mapped` bytes ends the call with its outcome. */
  lemma PanicOutcome(pml4_0: Table, heap_0: Heap, pos_0: map<nat, seq<nat>>,
                     pml4: Table, heap: Heap, pos: map<nat, seq<nat>>,
                     vbase: nat, pbase: nat, psize: nat, mapped: nat, reason: Panic)
    requires mapped <= psize && psize % BASE_PAGE_SIZE == 0
    requires Progress(pml4_0, heap_0, pml4, heap, vbase, pbase, psize, mapped)
    requires Grown(pml4_0, heap_0, pos_0, pml4, heap, pos, vbase, vbase + WalkedSize(mapped))
    requires psize <= ADDRESS_SPAN && reason != OutOfFrames ==>
               Blocked(pml4_0, heap_0, reason, vbase, vbase + WalkedSize(psize))
    ensures Outcome(pml4_0, heap_0, pos_0, pml4, heap, pos, vbase, pbase, psize, Panicked(reason))
  {
    GrownWiden(pml4_0, heap_0, pos_0, pml4, heap, pos, vbase, vbase + WalkedSize(mapped), vbase, vbase + WalkedSize(psize));
  }

  /** Progress over the whole region ends the call normally with its outcome. */
  lemma DoneOutcome(pml4_0: Table, heap_0: Heap, pos_0: map<nat, seq<nat>>,
                    pml4: Table, heap: Heap, pos: map<nat, seq<nat>>,
                    vbase: nat, pbase: nat, psize: nat)
    requires Progress(pml4_0, heap_0, pml4, heap, vbase, pbase, psize, psize)
    requires Grown(pml4_0, heap_0, pos_0, pml4, heap, pos, vbase, vbase + WalkedSize(psize))
    ensures Outcome(pml4_0, heap_0, pos_0, pml4, heap, pos, vbase, pbase, psize, Done)
  {
  }

  /** A 1 GiB leaf already covering `vbase`, met before anything was mapped, ends the call with its outcome. */
  lemma HugeCoveredOutcome(pml4_0: Table, heap_0: Heap, pos_0: map<nat, seq<nat>>,
                            pml4: Table, heap: Heap, pos: map<nat, seq<nat>>,
                            vbase: nat, pbase: nat, psize: nat)
    requires psize % BASE_PAGE_SIZE == 0
    requires Progress(pml4_0, heap_0, pml4, heap, vbase, pbase, psize, 0)
    requires Grown(pml4_0, heap_0, pos_0, pml4, heap, pos, vbase, vbase + BASE_PAGE_SIZE)
    requires HugeLeafAt(pml4, heap, vbase)
    ensures Outcome(pml4_0, heap_0, pos_0, pml4, heap, pos, vbase, pbase, psize, Panicked(CoveredByHugePage))
  {
    assert !InRegion(vbase, vbase, 0);
    HugeLeafWasThere(pml4_0, heap_0, pml4, heap, vbase);
    PanicOutcome(pml4_0, heap_0, pos_0, pml4, heap, pos, vbase, pbase, psize, 0, CoveredByHugePage);
  }

  /** A 2 MiB leaf already covering `vbase`, met before anything was mapped, ends the call with its outcome. */
  lemma LargeCoveredOutcome(pml4_0: Table, heap_0: Heap, pos_0: map<nat, seq<nat>>,
                            pml4: Table, heap: Heap, pos: map<nat, seq<nat>>,
                            vbase: nat, pbase: nat, psize: nat)
    requires psize % BASE_PAGE_SIZE == 0
    requires Progress(pml4_0, heap_0, pml4, heap, vbase, pbase, psize, 0)
    requires Grown(pml4_0, heap_0, pos_0, pml4, heap, pos, vbase, vbase + BASE_PAGE_SIZE)
    requires LargeLeafAt(pml4, heap, vbase)
    ensures Outcome(pml4_0, heap_0, pos_0, pml4, heap, pos, vbase, pbase, psize, Panicked(CoveredByLargePage))
  {
    assert !InRegion(vbase, vbase, 0);
    LargeLeafWasThere(pml4_0, heap_0, pml4, heap, vbase);
    PanicOutcome(pml4_0, heap_0, pos_0, pml4, heap, pos, vbase, pbase, psize, 0, CoveredByLargePage);
  }

  /** Running out of frames before anything was written ends the call with its outcome. */
  lemma OutOfFramesOutcome(pml4: Table, heap: Heap, pos: map<nat, seq<nat>>, vbase: nat, pbase: nat, psize: nat)
    ensures Outcome(pml4, heap, pos, pml4, heap, pos, vbase, pbase, psize, Panicked(OutOfFrames))
  {
    ExtendsReflexive(pml4, heap);
    GrownNothing(pml4, heap, pos, vbase, vbase + WalkedSize(psize));
  }

  /**
   * The outcome of mapping the rest of the region from state 1, after the
   * first `mapped` bytes were mapped from state 0, is the outcome of the
   * whole region from state 0.
   */
  lemma RemainderOutcome(pml4_0: Table, heap_0: Heap, pos_0: map<nat, seq<nat>>,
                         pml4_1: Table, heap_1: Heap, pos_1: map<nat, seq<nat>>,
                         pml4: Table, heap: Heap, pos: map<nat, seq<nat>>,
                         vbase: nat, pbase: nat, psize: nat, mapped: nat, st: Status)
    requires WellFormed(pml4_1, heap_1, pos_1)
    requires psize % BASE_PAGE_SIZE == 0 && mapped % BASE_PAGE_SIZE == 0 && vbase % BASE_PAGE_SIZE == 0
    requires 0 < mapped < psize
    requires Progress(pml4_0, heap_0, pml4_1, heap_1, vbase, pbase, psize, mapped)
    requires Grown(pml4_0, heap_0, pos_0, pml4_1, heap_1, pos_1, vbase, vbase + WalkedSize(mapped))
    requires Outcome(pml4_1, heap_1, pos_1, pml4, heap, pos, vbase + mapped, pbase + mapped, psize - mapped, st)
    ensures Outcome(pml4_0, heap_0, pos_0, pml4, heap, pos, vbase, pbase, psize, st)
  {
    ProgressCompose(pml4_0, heap_0, pml4_1, heap_1, pml4, heap, vbase, pbase, psize, mapped);
    GrownTransitive(pml4_0, heap_0, pos_0, pml4_1, heap_1, pos_1, pml4, heap, pos,
                    vbase, vbase + WalkedSize(mapped), vbase + mapped, vbase + mapped + WalkedSize(psize - mapped),
                    vbase, vbase + WalkedSize(psize));
    match st
    case Done =>
    case Panicked(reason) =>
      if psize <= ADDRESS_SPAN && reason != OutOfFrames {
        RemainderBlocked(pml4_0, heap_0, pos_0, pml4_1, heap_1, pos_1, vbase, psize, mapped, reason);
      }
  }

  /**
   * A structural panic while mapping the rest of the region from state 1
   * names an entry that was already in tree 0.
   */
  lemma RemainderBlocked(pml4_0: Table, heap_0: Heap, pos_0: map<nat, seq<nat>>,
                         pml4_1: Table, heap_1: Heap, pos_1: map<nat, seq<nat>>,
                         vbase: nat, psize: nat, mapped: nat, reason: Panic)
    requires WellFormed(pml4_1, heap_1, pos_1) && Extends(pml4_0, heap_0, pml4_1, heap_1)
    requires mapped % BASE_PAGE_SIZE == 0 && vbase % BASE_PAGE_SIZE == 0
    requires 0 < mapped < psize <= ADDRESS_SPAN
    requires SameOutside(pml4_0, heap_0, pml4_1, heap_1, vbase, mapped)
    requires Grown(pml4_0, heap_0, pos_0, pml4_1, heap_1, pos_1, vbase, vbase + WalkedSize(mapped))
    requires Blocked(pml4_1, heap_1, reason, vbase + mapped, vbase + mapped + WalkedSize(psize - mapped))
    ensures Blocked(pml4_0, heap_0, reason, vbase, vbase + WalkedSize(psize))
  {
    AlignedSum(vbase, mapped);
    BlockedBefore(pml4_0, heap_0, pos_0, pml4_1, heap_1, pos_1, reason, vbase, vbase + WalkedSize(mapped),
                  vbase + mapped, mapped, vbase + mapped + WalkedSize(psize - mapped), vbase + WalkedSize(psize));
  }

  /**
   * A normal return on a fresh region at `offset + pbase` maps every
   * address of the region to the address `offset` below it.
   */
  lemma OffsetTranslation(pml4_0: Table, heap_0: Heap, pos_0: map<nat, seq<nat>>,
                          pml4: Table, heap: Heap, pos: map<nat, seq<nat>>,
                          vbase: nat, pbase: nat, psize: nat, offset: nat)
    requires vbase == offset + pbase
    requires Outcome(pml4_0, heap_0, pos_0, pml4, heap, pos, vbase, pbase, psize, Done)
    requires Fresh(pml4_0, heap_0, vbase, psize)
    ensures forall u: nat :: vbase <= u < vbase + psize ==> Resolve(pml4, heap, u) == Some(u - offset)
  {
    assert MapsRange(pml4, heap, vbase, pbase, psize);
  }

  /** An empty tree has no entry a structural panic could name. */
  lemma EmptyNotBlocked(reason: Panic, lo: nat, hi: nat)
    ensures !Blocked(EMPTY_TABLE, map[], reason, lo, hi)
  {
    forall w: nat
      ensures !HugeSlotUsed(EMPTY_TABLE, map[], w)
    {
      assert EMPTY_TABLE[Pml4Index(w)] == ABSENT;
    }
  }

  /** The PDPT slot the 1 GiB loop met at `vbase + mapped` blocks the region. */
  lemma HugeTakenBlocked(pml4_0: Table, heap_0: Heap, vbase: nat, psize: nat, mapped: nat)
    requires 0 < mapped && mapped + HUGE_PAGE_SIZE <= psize
    requires (vbase + mapped) % HUGE_PAGE_SIZE == 0 && HugeSlotUsed(pml4_0, heap_0, vbase + mapped)
    ensures Blocked(pml4_0, heap_0, HugeSlotTaken, vbase, vbase + WalkedSize(psize))
  {
    assert vbase + mapped + HUGE_PAGE_SIZE <= vbase + WalkedSize(psize);
  }

  /** The PD slot the 2 MiB loop met at `vbase + mapped` blocks the region. */
  lemma LargeTakenBlocked(pml4_0: Table, heap_0: Heap, vbase: nat, psize: nat, mapped: nat)
    requires 0 < mapped && mapped + LARGE_PAGE_SIZE <= psize
    requires (vbase + mapped) % LARGE_PAGE_SIZE == 0 && LargeSlotUsed(pml4_0, heap_0, vbase + mapped)
    ensures Blocked(pml4_0, heap_0, LargeSlotTaken, vbase, vbase + WalkedSize(psize))
  {
    assert vbase + mapped + LARGE_PAGE_SIZE <= vbase + WalkedSize(psize);
  }

  /**
   * A panic met by a call made from state 1 for [lo1, hi1) was met for the
   * caller that started in state 0 at `lo0`: from 0 to 1 only walks below
   * `g`, at most a page past `lo1`, were written, and translations from
   * `lo1` on were kept, so the entry was already there.
   */
  lemma BlockedBefore(pml4_0: Table, heap_0: Heap, pos_0: map<nat, seq<nat>>,
                      pml4_1: Table, heap_1: Heap, pos_1: map<nat, seq<nat>>,
                      reason: Panic, lo0: nat, g: nat, lo1: nat, m: nat, hi1: nat, hi: nat)
    requires WellFormed(pml4_1, heap_1, pos_1) && Extends(pml4_0, heap_0, pml4_1, heap_1)
    requires Grown(pml4_0, heap_0, pos_0, pml4_1, heap_1, pos_1, lo0, g)
    requires lo1 == lo0 + m && SameOutside(pml4_0, heap_0, pml4_1, heap_1, lo0, m)
    requires lo0 <= g <= lo1 + BASE_PAGE_SIZE && lo1 % BASE_PAGE_SIZE == 0
    requires hi1 <= hi <= lo0 + ADDRESS_SPAN
    requires Blocked(pml4_1, heap_1, reason, lo1, hi1)
    ensures Blocked(pml4_0, heap_0, reason, lo0, hi)
  {
    match reason
    case HugeSlotTaken =>
      var w: nat :| lo1 < w && w + HUGE_PAGE_SIZE <= hi1 && w % HUGE_PAGE_SIZE == 0 && HugeSlotUsed(pml4_1, heap_1, w);
      HugeSlotBefore(pml4_0, heap_0, pos_0, pml4_1, heap_1, pos_1, lo0, g, lo1, w);
    case LargeSlotTaken =>
      var w: nat :| lo1 < w && w + LARGE_PAGE_SIZE <= hi1 && w % LARGE_PAGE_SIZE == 0 && LargeSlotUsed(pml4_1, heap_1, w);
      LargeSlotBefore(pml4_0, heap_0, pos_0, pml4_1, heap_1, pos_1, lo0, g, lo1, w);
    case CoveredByHugePage =>
      var u: nat :| lo1 <= u < hi1 && HugeLeafAt(pml4_1, heap_1, u);
      HugeLeafBefore(pml4_0, heap_0, pml4_1, heap_1, lo0, m, u);
    case CoveredByLargePage =>
      var u: nat :| lo1 <= u < hi1 && LargeLeafAt(pml4_1, heap_1, u);
      LargeLeafBefore(pml4_0, heap_0, pml4_1, heap_1, lo0, m, u);
  }

  /** A used PDPT slot met above `lo1` was used in tree 0: only walks below `g` were written. */
  lemma HugeSlotBefore(pml4_0: Table, heap_0: Heap, pos_0: map<nat, seq<nat>>,
                       pml4_1: Table, heap_1: Heap, pos_1: map<nat, seq<nat>>,
                       lo0: nat, g: nat, lo1: nat, w: nat)
    requires WellFormed(pml4_1, heap_1, pos_1)
    requires Grown(pml4_0, heap_0, pos_0, pml4_1, heap_1, pos_1, lo0, g)
    requires lo0 <= g <= lo1 + BASE_PAGE_SIZE && lo1 % BASE_PAGE_SIZE == 0
    requires lo1 < w && w + HUGE_PAGE_SIZE <= lo0 + ADDRESS_SPAN && w % HUGE_PAGE_SIZE == 0
    requires HugeSlotUsed(pml4_1, heap_1, w)
    ensures HugeSlotUsed(pml4_0, heap_0, w)
  {
    DivUnique(w, BASE_PAGE_SIZE, 0x4_0000 * (w / HUGE_PAGE_SIZE), 0);
    AlignedAbove(lo1, w);
    HugeSlotWasUsed(pml4_0, heap_0, pos_0, pml4_1, heap_1, pos_1, lo0, g, w);
  }

  /** A used PD slot met above `lo1` was used in tree 0: only walks below `g` were written. */
  lemma LargeSlotBefore(pml4_0: Table, heap_0: Heap, pos_0: map<nat, seq<nat>>,
                        pml4_1: Table, heap_1: Heap, pos_1: map<nat, seq<nat>>,
                        lo0: nat, g: nat, lo1: nat, w: nat)
    requires WellFormed(pml4_1, heap_1, pos_1)
    requires Grown(pml4_0, heap_0, pos_0, pml4_1, heap_1, pos_1, lo0, g)
    requires lo0 <= g <= lo1 + BASE_PAGE_SIZE && lo1 % BASE_PAGE_SIZE == 0
    requires lo1 < w && w + LARGE_PAGE_SIZE <= lo0 + ADDRESS_SPAN && w % LARGE_PAGE_SIZE == 0
    requires LargeSlotUsed(pml4_1, heap_1, w)
    ensures LargeSlotUsed(pml4_0, heap_0, w)
  {
    DivUnique(w, BASE_PAGE_SIZE, 0x200 * (w / LARGE_PAGE_SIZE), 0);
    AlignedAbove(lo1, w);
    LargeSlotWasUsed(pml4_0, heap_0, pos_0, pml4_1, heap_1, pos_1, lo0, g, w);
  }

  /** A 1 GiB leaf met at `u`, past the first `m` bytes from `lo0`, was a leaf of tree 0: translations there were kept. */
  lemma HugeLeafBefore(pml4_0: Table, heap_0: Heap, pml4_1: Table, heap_1: Heap, lo0: nat, m: nat, u: nat)
    requires Extends(pml4_0, heap_0, pml4_1, heap_1) && SameOutside(pml4_0, heap_0, pml4_1, heap_1, lo0, m)
    requires lo0 + m <= u < lo0 + ADDRESS_SPAN
    requires HugeLeafAt(pml4_1, heap_1, u)
    ensures HugeLeafAt(pml4_0, heap_0, u)
  {
    RegionStart(lo0, u - lo0, m);
    HugeLeafWasThere(pml4_0, heap_0, pml4_1, heap_1, u);
  }

  /** A 2 MiB leaf met at `u`, past the first `m` bytes from `lo0`, was a leaf of tree 0: translations there were kept. */
  lemma LargeLeafBefore(pml4_0: Table, heap_0: Heap, pml4_1: Table, heap_1: Heap, lo0: nat, m: nat, u: nat)
    requires Extends(pml4_0, heap_0, pml4_1, heap_1) && SameOutside(pml4_0, heap_0, pml4_1, heap_1, lo0, m)
    requires lo0 + m <= u < lo0 + ADDRESS_SPAN
    requires LargeLeafAt(pml4_1, heap_1, u)
    ensures LargeLeafAt(pml4_0, heap_0, u)
  {
    RegionStart(lo0, u - lo0, m);
    LargeLeafWasThere(pml4_0, heap_0, pml4_1, heap_1, u);
  }

  /**
   * The state of the map_frames loop after the first `n` frames of the run
   * from `base`, started in state 0: progress over those frames, nothing
   * changed outside the run, and only walks below the end of frame `n - 1`
   * plus a page written.
   */
  ghost predicate FramesRun(pml4_0: Table, heap_0: Heap, pos_0: map<nat, seq<nat>>,
                            pml4: Table, heap: Heap, pos: map<nat, seq<nat>>,
                            base: nat, frames: seq<(Frame, MapActions.MapAction)>, n: nat)
    requires n <= |frames|
  {
    && FramesProgress(pml4_0, heap_0, pml4, heap, base, frames, n)
    && SameOutside(pml4_0, heap_0, pml4, heap, base, TotalSize(frames))
    && Grown(pml4_0, heap_0, pos_0, pml4, heap, pos, base, base + FrameOffset(frames, n) + BASE_PAGE_SIZE)
  }

  /**
   * What map_frames promises about the run of `frames` from `base` when it
   * started from tree 0: the walks below the run's end plus a page confine
   * every change, every frame is mapped at its place if it returned
   * normally on a fresh run, and a structural panic names an entry of
   * tree 0.
   */
  ghost predicate FramesOutcome(pml4_0: Table, heap_0: Heap, pos_0: map<nat, seq<nat>>,
                                pml4: Table, heap: Heap, pos: map<nat, seq<nat>>,
                                base: nat, frames: seq<(Frame, MapActions.MapAction)>, st: Status) {
    match st
    case Done =>
      && Confined(pml4_0, heap_0, pos_0, pml4, heap, pos, base, TotalSize(frames), base + TotalSize(frames) + BASE_PAGE_SIZE)
      && (Fresh(pml4_0, heap_0, base, TotalSize(frames)) ==> MapsFrames(pml4, heap, base, frames, |frames|))
    case Panicked(reason) =>
      && Confined(pml4_0, heap_0, pos_0, pml4, heap, pos, base, TotalSize(frames), base + TotalSize(frames) + BASE_PAGE_SIZE)
      && (TotalSize(frames) < ADDRESS_SPAN && reason != OutOfFrames ==>
            Blocked(pml4_0, heap_0, reason, base, base + TotalSize(frames) + BASE_PAGE_SIZE))
  }

  /**
   * One pass of map_frames: after the first `i` frames from state 0 took
   * the tree to state 1, the outcome of map_generic on frame `i` at
   * `start`, where the frames before it end, is the run's progress to
   * `i + 1` frames, or a panic that names an entry of tree 0.
   */
  lemma {:induction false} NextFrameOutcome(pml4_0: Table, heap_0: Heap, pos_0: map<nat, seq<nat>>,
                         pml4_1: Table, heap_1: Heap, pos_1: map<nat, seq<nat>>,
                         pml4: Table, heap: Heap, pos: map<nat, seq<nat>>,
                         base: nat, frames: seq<(Frame, MapActions.MapAction)>, i: nat, start: nat, st: Status)
    requires WellFormed(pml4_1, heap_1, pos_1) && base % BASE_PAGE_SIZE == 0
    requires forall k :: 0 <= k < |frames| ==> frames[k].0.size % BASE_PAGE_SIZE == 0
    requires i < |frames| && start == base + FrameOffset(frames, i)
    requires FramesRun(pml4_0, heap_0, pos_0, pml4_1, heap_1, pos_1, base, frames, i)
    requires Outcome(pml4_1, heap_1, pos_1, pml4, heap, pos, start, frames[i].0.base, frames[i].0.size, st)
    ensures st.Done? ==> FramesRun(pml4_0, heap_0, pos_0, pml4, heap, pos, base, frames, i + 1)
    ensures st.Panicked? ==> FramesOutcome(pml4_0, heap_0, pos_0, pml4, heap, pos, base, frames, st)
  {
    var frame := frames[i].0;
    FramesStep(pml4_0, heap_0, pml4_1, heap_1, pml4, heap, base, frames, i, start, frame, st.Done?);
    NextFrameGrown(pml4_0, heap_0, pos_0, pml4_1, heap_1, pos_1, pml4, heap, pos, base, frames, i, start, st);
    if st.Panicked? {
      FrameOffsetMonotone(frames, i + 1, |frames|);
      GrownWiden(pml4_0, heap_0, pos_0, pml4, heap, pos, base, start + frame.size + BASE_PAGE_SIZE,
                 base, base + TotalSize(frames) + BASE_PAGE_SIZE);
      if TotalSize(frames) < ADDRESS_SPAN && st.reason != OutOfFrames {
        assert frame.size <= ADDRESS_SPAN;
        NextFrameBlocked(pml4_0, heap_0, pos_0, pml4_1, heap_1, pos_1, base, frames, i, start, st.reason);
      }
    }
  }

  /** Before the first frame the loop state holds of the starting tree. */
  lemma FramesStart(pml4: Table, heap: Heap, pos: map<nat, seq<nat>>,
                    base: nat, frames: seq<(Frame, MapActions.MapAction)>)
    ensures FramesRun(pml4, heap, pos, pml4, heap, pos, base, frames, 0)
  {
    ExtendsReflexive(pml4, heap);
    GrownNothing(pml4, heap, pos, base, base + BASE_PAGE_SIZE);
  }

  /** The loop state after the last frame is the normal outcome of the whole run. */
  lemma FramesDone(pml4_0: Table, heap_0: Heap, pos_0: map<nat, seq<nat>>,
                   pml4: Table, heap: Heap, pos: map<nat, seq<nat>>,
                   base: nat, frames: seq<(Frame, MapActions.MapAction)>)
    requires FramesRun(pml4_0, heap_0, pos_0, pml4, heap, pos, base, frames, |frames|)
    ensures FramesOutcome(pml4_0, heap_0, pos_0, pml4, heap, pos, base, frames, Done)
  {
  }

  /** The walks written for frame `i` lie below the end of the run so far plus the frame. */
  lemma {:induction false} NextFrameGrown(pml4_0: Table, heap_0: Heap, pos_0: map<nat, seq<nat>>,
                       pml4_1: Table, heap_1: Heap, pos_1: map<nat, seq<nat>>,
                       pml4: Table, heap: Heap, pos: map<nat, seq<nat>>,
                       base: nat, frames: seq<(Frame, MapActions.MapAction)>, i: nat, start: nat, st: Status)
    requires Extends(pml4_0, heap_0, pml4_1, heap_1)
    requires i < |frames| && base <= start
    requires Grown(pml4_0, heap_0, pos_0, pml4_1, heap_1, pos_1, base, start + BASE_PAGE_SIZE)
    requires Outcome(pml4_1, heap_1, pos_1, pml4, heap, pos, start, frames[i].0.base, frames[i].0.size, st)
    ensures Grown(pml4_0, heap_0, pos_0, pml4, heap, pos, base, start + frames[i].0.size + BASE_PAGE_SIZE)
  {
    var size := frames[i].0.size;
    assert WalkedSize(size) <= size + BASE_PAGE_SIZE;
    GrownTransitive(pml4_0, heap_0, pos_0, pml4_1, heap_1, pos_1, pml4, heap, pos,
                    base, start + BASE_PAGE_SIZE, start, start + WalkedSize(size),
                    base, start + size + BASE_PAGE_SIZE);
  }

  /** A structural panic on frame `i` names an entry already in tree 0. */
  lemma {:induction false} NextFrameBlocked(pml4_0: Table, heap_0: Heap, pos_0: map<nat, seq<nat>>,
                         pml4_1: Table, heap_1: Heap, pos_1: map<nat, seq<nat>>,
                         base: nat, frames: seq<(Frame, MapActions.MapAction)>, i: nat, start: nat, reason: Panic)
    requires WellFormed(pml4_1, heap_1, pos_1) && base % BASE_PAGE_SIZE == 0
    requires forall k :: 0 <= k < |frames| ==> frames[k].0.size % BASE_PAGE_SIZE == 0
    requires i < |frames| && start == base + FrameOffset(frames, i)
    requires FramesProgress(pml4_0, heap_0, pml4_1, heap_1, base, frames, i)
    requires Grown(pml4_0, heap_0, pos_0, pml4_1, heap_1, pos_1, base, start + BASE_PAGE_SIZE)
    requires TotalSize(frames) < ADDRESS_SPAN
    requires Blocked(pml4_1, heap_1, reason, start, start + WalkedSize(frames[i].0.size))
    ensures Blocked(pml4_0, heap_0, reason, base, base + TotalSize(frames) + BASE_PAGE_SIZE)
  {
    var size := frames[i].0.size;
    FrameOffsetAligned(frames, i);
    FrameOffsetMonotone(frames, i + 1, |frames|);
    FrameOffsetAligned(frames, |frames|);
    AlignedAbove(TotalSize(frames), ADDRESS_SPAN);
    BlockedBefore(pml4_0, heap_0, pos_0, pml4_1, heap_1, pos_1, reason, base, start + BASE_PAGE_SIZE,
                  start, FrameOffset(frames, i), start + WalkedSize(size), base + TotalSize(frames) + BASE_PAGE_SIZE);
  }
}
