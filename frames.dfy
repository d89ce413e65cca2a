/**
 * The frame lists of map_frames: frames laid end to end from a virtual
 * base, each mapped onto its own physical memory.
 */
module Frames {
  import opened Addresses
  import opened Wrappers
  import opened PageTables
  import opened Mapping
  import MapActions

  /** memory::Frame: `size` bytes of physical memory starting at `base`. */
  datatype Frame = Frame(base: nat, size: nat)

  /** Where frame k starts, counted from the base of the run: the sizes of the frames before it. */
  function FrameOffset(frames: seq<(Frame, MapActions.MapAction)>, k: nat): nat
    requires k <= |frames|
  {
    if k == 0 then 0 else FrameOffset(frames, k - 1) + frames[k - 1].0.size
  }

  /** The bytes the whole run covers. */
  function TotalSize(frames: seq<(Frame, MapActions.MapAction)>): nat {
    FrameOffset(frames, |frames|)
  }

  /**
   * Each of the first `n` frames is mapped at its place in the run from
   * `base`: frame k occupies [base + FrameOffset(frames, k), ... + size)
   * and translates onto its own physical memory.
   */
  ghost predicate MapsFrames(pml4: Table, heap: Heap, base: nat, frames: seq<(Frame, MapActions.MapAction)>, n: nat)
    requires n <= |frames|
  {
    n == 0 ||
    (MapsFrames(pml4, heap, base, frames, n - 1) &&
     MapsRange(pml4, heap, base + FrameOffset(frames, n - 1), frames[n - 1].0.base, frames[n - 1].0.size))
  }

  /** MapsFrames says of every one of the first `n` frames that it is mapped at its place. */
  lemma {:induction false} MapsFramesAt(pml4: Table, heap: Heap, base: nat, frames: seq<(Frame, MapActions.MapAction)>, n: nat, k: nat)
    requires k < n <= |frames| && MapsFrames(pml4, heap, base, frames, n)
    ensures MapsRange(pml4, heap, base + FrameOffset(frames, k), frames[k].0.base, frames[k].0.size)
    decreases n
  {
    if k < n - 1 {
      MapsFramesAt(pml4, heap, base, frames, n - 1, k);
    }
  }

  /** The frames before k cover no more than the frames before a later n. */
  lemma {:induction false} FrameOffsetMonotone(frames: seq<(Frame, MapActions.MapAction)>, k: nat, n: nat)
    requires k <= n <= |frames|
    ensures FrameOffset(frames, k) <= FrameOffset(frames, n)
    decreases n
  {
    if k < n {
      FrameOffsetMonotone(frames, k, n - 1);
    }
  }

  /** Frame k ends where the frames before a later i have not yet ended. */
  lemma {:induction false} FrameBefore(frames: seq<(Frame, MapActions.MapAction)>, k: nat, i: nat)
    requires k < i <= |frames|
    ensures FrameOffset(frames, k) + frames[k].0.size <= FrameOffset(frames, i)
    decreases i
  {
    if k + 1 < i {
      FrameBefore(frames, k, i - 1);
    }
  }

  /** Frames of whole 4 KiB pages start at 4 KiB-aligned offsets. */
  lemma {:induction false} FrameOffsetAligned(frames: seq<(Frame, MapActions.MapAction)>, n: nat)
    requires n <= |frames|
    requires forall k :: 0 <= k < |frames| ==> frames[k].0.size % BASE_PAGE_SIZE == 0
    ensures FrameOffset(frames, n) % BASE_PAGE_SIZE == 0
  {
    if n > 0 {
      FrameOffsetAligned(frames, n - 1);
      AlignedSum(FrameOffset(frames, n - 1), frames[n - 1].0.size);
    }
  }

  /**
   * From state 0 the first `n` frames of the run from `base` were mapped:
   * the tree only grew, nothing outside their place changed, and on a
   * fresh run each of them translates onto its memory.
   */
  ghost predicate FramesProgress(pml4_0: Table, heap_0: Heap, pml4: Table, heap: Heap,
                                 base: nat, frames: seq<(Frame, MapActions.MapAction)>, n: nat)
    requires n <= |frames|
  {
    && Extends(pml4_0, heap_0, pml4, heap)
    && SameOutside(pml4_0, heap_0, pml4, heap, base, FrameOffset(frames, n))
    && (Fresh(pml4_0, heap_0, base, TotalSize(frames)) ==> MapsFrames(pml4, heap, base, frames, n))
  }

  /**
   * One pass of the map_frames loop: after the first `i` frames, frame `i`
   * mapped at `start`, the end of the run so far (`done` when that call
   * returned normally), makes progress `i + 1`.
   */
  lemma {:induction false} FramesStep(pml4_0: Table, heap_0: Heap, pml4_1: Table, heap_1: Heap, pml4_2: Table, heap_2: Heap,
                   base: nat, frames: seq<(Frame, MapActions.MapAction)>, i: nat, start: nat, frame: Frame, done: bool)
    requires i < |frames| && start == base + FrameOffset(frames, i) && frame == frames[i].0
    requires FramesProgress(pml4_0, heap_0, pml4_1, heap_1, base, frames, i)
    requires Extends(pml4_1, heap_1, pml4_2, heap_2)
    requires SameOutside(pml4_1, heap_1, pml4_2, heap_2, start, frame.size)
    requires done && Fresh(pml4_1, heap_1, start, frame.size) ==> MapsRange(pml4_2, heap_2, start, frame.base, frame.size)
    ensures Extends(pml4_0, heap_0, pml4_2, heap_2)
    ensures SameOutside(pml4_0, heap_0, pml4_2, heap_2, base, TotalSize(frames))
    ensures done ==> FramesProgress(pml4_0, heap_0, pml4_2, heap_2, base, frames, i + 1)
  {
    var t := FrameOffset(frames, i);
    var s := frames[i].0.size;
    ExtendsTransitive(pml4_0, heap_0, pml4_1, heap_1, pml4_2, heap_2);
    FramesOutside(pml4_0, heap_0, pml4_1, heap_1, pml4_2, heap_2, base, t, s);
    FrameOffsetMonotone(frames, i + 1, |frames|);
    SameOutsideGrow(pml4_0, heap_0, pml4_2, heap_2, base, t + s, TotalSize(frames));
    if done && Fresh(pml4_0, heap_0, base, TotalSize(frames)) {
      FramesFresh(pml4_0, heap_0, pml4_1, heap_1, base, t, s, TotalSize(frames));
      FramesEarlier(pml4_1, heap_1, pml4_2, heap_2, base, frames, i, i);
    }
  }

  /** Changes inside the first `t` bytes, then inside the next `s`, stay inside the first `t + s`. */
  lemma FramesOutside(pml4_0: Table, heap_0: Heap, pml4_1: Table, heap_1: Heap, pml4_2: Table, heap_2: Heap,
                      base: nat, t: nat, s: nat)
    requires SameOutside(pml4_0, heap_0, pml4_1, heap_1, base, t)
    requires SameOutside(pml4_1, heap_1, pml4_2, heap_2, base + t, s)
    ensures SameOutside(pml4_0, heap_0, pml4_2, heap_2, base, t + s)
  {
    forall u: nat | !InRegion(u, base, t + s)
      ensures Resolve(pml4_2, heap_2, u) == Resolve(pml4_0, heap_0, u)
    {
      RegionSplit(u, base, t, t + s);
    }
  }

  /** The place of the next frame is still unmapped when the whole run was. */
  lemma FramesFresh(pml4_0: Table, heap_0: Heap, pml4_1: Table, heap_1: Heap, base: nat, t: nat, s: nat, total: nat)
    requires t + s <= total
    requires SameOutside(pml4_0, heap_0, pml4_1, heap_1, base, t)
    requires Fresh(pml4_0, heap_0, base, total)
    ensures Fresh(pml4_1, heap_1, base + t, s)
  {
    forall u: nat | base + t <= u < base + t + s
      ensures Resolve(pml4_1, heap_1, u).None?
    {
      RegionStart(base, u - base, t);
    }
  }

  /** Mapping frame `i` leaves the frames before it as they were. */
  lemma {:induction false} FramesEarlier(pml4_1: Table, heap_1: Heap, pml4_2: Table, heap_2: Heap,
                                         base: nat, frames: seq<(Frame, MapActions.MapAction)>, i: nat, n: nat)
    requires n <= i < |frames| && FrameOffset(frames, i) + frames[i].0.size <= ADDRESS_SPAN
    requires MapsFrames(pml4_1, heap_1, base, frames, n)
    requires SameOutside(pml4_1, heap_1, pml4_2, heap_2, base + FrameOffset(frames, i), frames[i].0.size)
    ensures MapsFrames(pml4_2, heap_2, base, frames, n)
    decreases n
  {
    if n > 0 {
      FramesEarlier(pml4_1, heap_1, pml4_2, heap_2, base, frames, i, n - 1);
      FrameBefore(frames, n - 1, i);
      FrameKept(pml4_1, heap_1, pml4_2, heap_2, base, FrameOffset(frames, n - 1), frames[n - 1].0.size,
                frames[n - 1].0.base, FrameOffset(frames, i), base + FrameOffset(frames, i), frames[i].0.size);
    }
  }

  /**
   * A range placed wholly before [start, start + s), where start lies t bytes
   * into the run, keeps its translation when only that place changed.
   */
  lemma FrameKept(pml4_1: Table, heap_1: Heap, pml4_2: Table, heap_2: Heap,
                  base: nat, tk: nat, sk: nat, pk: nat, t: nat, start: nat, s: nat)
    requires tk + sk <= t && t + s <= ADDRESS_SPAN && start == base + t
    requires MapsRange(pml4_1, heap_1, base + tk, pk, sk)
    requires SameOutside(pml4_1, heap_1, pml4_2, heap_2, start, s)
    ensures MapsRange(pml4_2, heap_2, base + tk, pk, sk)
  {
    forall u: nat | base + tk <= u < base + tk + sk
      ensures Resolve(pml4_2, heap_2, u) == Resolve(pml4_1, heap_1, u)
    {
      RegionBefore(base, u - base, t, s);
    }
  }
}
