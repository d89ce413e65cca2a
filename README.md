# x86-64 address spaces: page-table builder and walker

This project models the x86-64 four-level page tables of the kernel's
`VSpace` (`kernel/src/arch/x86_64/vspace.rs`) in Dafny, and proves what the
code promises about them.

- **`VSpace`** is a class. Its PML4 is an `array<Entry>` of 512 entries
  that the mapping methods update in place. The PDPT, PD and PT tables live
  in physical frames, modelled as a map from frame address to a 512-entry
  table. That map is a field the methods reassign.
- **The pager** is a class holding a list of free, distinct 4 KiB frames.
  `new_pt`, `new_pd` and `new_pdpt` take their frames from it.
- **`resolve_addr`** is the walk `Resolve`. It is the specification that
  every mapping method is proved against.
- **`map_generic`** follows the source branch by branch:
  - a PDPT is allocated when the PML4 slot is empty;
  - 1 GiB leaves are written when the position, the alignment and the
    remaining size allow; otherwise a PD is allocated;
  - 2 MiB leaves follow the same rule one level down; otherwise a PT is
    allocated;
  - then comes the 4 KiB loop;
  - whatever is left is handled by a recursive call on
    `vbase + mapped` / `pbase + mapped`.

  Its contract, stated against the tree the call started from:
  - the tree only grows, no present slot is ever replaced, and only slots on
    the walks of addresses in the region (of its first page when `psize` is
    0) are written;
  - no translation outside `[vbase, vbase + psize)` changes;
  - when it returns normally on a region that was unmapped and at most
    2^48 bytes long, `resolve_addr(vbase + k) == Some(pbase + k)` for every
    `k < psize`;
  - the panics inside `map_generic` are outcomes, `Panicked(reason)`: a
    present 1 GiB or 2 MiB slot met by a leaf loop and a 1 GiB or 2 MiB page
    on the way down each name an entry that was already in the tree (so on a
    new address space none of them happens), and running out of frames
    leaves the pager empty before the call's table budget was spent;
  - the argument checks (the alignment and `rights != None` asserts of
    `map_generic`, `end > pbase` in `map_identity_with_offset`, the frame
    checks of `map_frames`) are preconditions, not outcomes.
- **The wrappers** get the same contracts, restated for their arguments:
  `map_identity_with_offset`, `map_identity`, `map_frame`, and `map_frames`
  (frames laid end to end).
- **`allocate_pages_aligned`** is a function of the base `paddr` that the
  raw allocation returned. The function is proved never to fail its
  alignment or lost-pages assertions.
- **The Graphviz `node_label` printer** is modelled for all node kinds:
  - PT and PD use the three-state `EmitLine` / `EmitDots` / `Skip` loop,
    proved equal to a declarative description of what is shown;
  - PDPT and PML4 list every present entry;
  - pages get a name.

  A label is a sequence of pieces (field, `...`, separator, page name). The
  hex text inside a piece is left abstract.

## Model

`Outcome` (module `Outcomes`) is the promise every stage of `map_generic` makes, stated against the tree the call started from:
- `Confined`: the tree only grew (`Extends`), no translation outside the region changed (`SameOutside`), and only slots on the walks of the region's addresses were written (`Grown`, module `Growth`);
- on `Done` over a fresh region, every address of the region translates to `pbase` plus its offset (`MapsRange`);
- on a structural panic, `Blocked` names the entry of the old tree that the code ran into.

`FramesOutcome` is the same for a run of frames.

| member | source | states |
|---|---|---|
| VSpaces.VSpace.constructor | kernel/src/arch/x86_64/vspace.rs:32-38 | A new address space has a fresh PML4 array holding 512 absent entries and no lower tables; no address resolves. |
| VSpaces.VSpace.ResolveAddr | kernel/src/arch/x86_64/vspace.rs:342-373 | resolve_addr: there is a translation exactly when the walk of the address ends at a 1 GiB leaf, a 2 MiB leaf or a present 4 KiB entry. |
| PageTables.ResolveLeaves | kernel/src/arch/x86_64/vspace.rs:342-373 | The walk translates exactly when it ends at a present leaf, and then gives the leaf's frame address plus the offset inside that leaf's page (1 GiB, 2 MiB or 4 KiB). |
| VSpaces.Pager.AllocateBasePage | kernel/src/arch/x86_64/vspace.rs:310 | Hands out the first free frame and removes it, or returns None (and changes nothing) when no frame is left. |
| VSpaces.VSpace.NewTable | kernel/src/arch/x86_64/vspace.rs:309-325 | new_pt/new_pd/new_pdpt: the frame taken from the pager was not yet a table; it becomes a zeroed table, and the returned entry is present, not a page, and points to it. No translation changes. When the pager is empty there is no entry and nothing changes (the source panics). |
| VSpaces.VSpace.AttachPdpt | kernel/src/arch/x86_64/vspace.rs:115-118 | new_pdpt stored into the empty PML4 slot of vbase: exactly that PML4 entry now points to a zeroed table in the pager's first frame, exactly one frame is taken, no translation changes, and only the slot on the walk of vbase is written. With no frame left nothing changes. |
| VSpaces.VSpace.AttachTable | kernel/src/arch/x86_64/vspace.rs:186 | new_pd (line 186) or new_pt (line 259) stored into an empty PDPT or PD slot: the tables gain exactly the pager's first frame, zeroed, and that slot points to it; exactly one frame is taken; no translation changes, and a run that wrote only slots on the walks of [lo, hi) still does. With no frame left nothing changes. |
| VSpaces.VSpace.MapGeneric | kernel/src/arch/x86_64/vspace.rs:93-307 | Demands pbase, psize and vbase 4 KiB-aligned and rights != None (the asserts of lines 100-103). Ends in Outcome: only growth, only on the region's walks, nothing outside changed; on Done over a fresh region every vbase + k (k < psize) resolves to pbase + k; a structural panic names an entry of the old tree. Only frames taken from the pager, a prefix of its list, become tables, at most TableBudget(psize) of them; running out of frames leaves the pager empty before that budget was spent. |
| VSpaces.NewSpaceMapsWhole | kernel/src/arch/x86_64/vspace.rs:942-972 | map_generic of at most 2^48 bytes into a new address space whose pager holds the table budget returns Done and maps the whole region: what the tests map_base_doesnt_crash and map_large_doesnt_crash check through `map`, which calls map_generic (line 434) on a new VSpace. |
| VSpaces.VSpace.MapAtPdpt | kernel/src/arch/x86_64/vspace.rs:125-196 | The PDPT stage: an empty slot goes on as MapAtEmptyPdpt; a 1 GiB page in the slot of vbase ends in Panicked(CoveredByHugePage) with that page named in the old tree; otherwise the existing PD is reused. The MapGeneric outcome, with one table fewer in the budget. |
| VSpaces.VSpace.MapAtEmptyPdpt | kernel/src/arch/x86_64/vspace.rs:128-186 | The empty PDPT slot: the 1 GiB branch only when vbase == PML4_SLOT_SIZE*i4 + HUGE*i3, pbase is 1 GiB-aligned and psize >= 1 GiB; otherwise a new PD in the slot, and Panicked(OutOfFrames) with the pager empty when no frame is left. The MapGeneric outcome, with one table fewer in the budget. |
| VSpaces.VSpace.MapAtPd | kernel/src/arch/x86_64/vspace.rs:198-260 | The PD stage: an empty PD slot goes on as MapAtEmptyPd, a used one as the PT stage. The MapGeneric outcome, with two tables fewer in the budget. |
| VSpaces.VSpace.MapAtEmptyPd | kernel/src/arch/x86_64/vspace.rs:200-258 | The empty PD slot: the 2 MiB branch only when vbase == PML4_SLOT_SIZE*i4 + HUGE*i3 + LARGE*i2, pbase is 2 MiB-aligned and psize >= 2 MiB; otherwise a new PT in the slot, and Panicked(OutOfFrames) with the pager empty when no frame is left. The MapGeneric outcome, with two tables fewer in the budget. |
| VSpaces.VSpace.MapAtPt | kernel/src/arch/x86_64/vspace.rs:261-270 | A 2 MiB page in the PD slot of vbase ends in Panicked(CoveredByLargePage) with that page named in the old tree; otherwise the 4 KiB branch. The MapGeneric outcome. |
| VSpaces.VSpace.MapHugeRegion | kernel/src/arch/x86_64/vspace.rs:134-179 | The 1 GiB branch: the huge-page loop, then the remainder. A present PDPT slot met by the loop ends in Panicked(HugeSlotTaken), naming that slot of the old tree; the MapGeneric outcome. |
| VSpaces.VSpace.MapLargeRegion | kernel/src/arch/x86_64/vspace.rs:206-252 | The 2 MiB branch: the large-page loop, then the remainder. A present PD slot met by the loop ends in Panicked(LargeSlotTaken), naming that slot of the old tree; the MapGeneric outcome. |
| VSpaces.VSpace.MapBaseRegion | kernel/src/arch/x86_64/vspace.rs:271-306 | The 4 KiB branch: the base-page loop, then the remainder; the MapGeneric outcome, with the recursive tail's panics named in the old tree. |
| VSpaces.VSpace.FinishRemainder | kernel/src/arch/x86_64/vspace.rs:161-174 | The recursive tail (also lines 234-247 and 289-302): continuing at vbase + mapped with pbase + mapped and psize - mapped (strictly smaller, the termination measure) gives the MapGeneric outcome for the whole region; a panic in the tail names an entry of the tree as it was before the whole call. |
| VSpaces.VSpace.MapHugePages | kernel/src/arch/x86_64/vspace.rs:139-159 | The 1 GiB loop: it writes n >= 1 leaves into the empty slots i3.. of this PDPT, leaf k for pbase + k GiB, and nothing else (LeafRun). It stops at the end of the table or with less than 1 GiB left, on Done, or on a present slot i3 + n with at least 1 GiB left, on Panicked(HugeSlotTaken). |
| VSpaces.VSpace.MapLargePages | kernel/src/arch/x86_64/vspace.rs:210-232 | The 2 MiB loop: as for 1 GiB, in the PD; a present slot i2 + n ends in Panicked(LargeSlotTaken). |
| VSpaces.VSpace.MapBasePages | kernel/src/arch/x86_64/vspace.rs:271-286 | The 4 KiB loop: PtIndex(vbase) + mapped/4 KiB <= 512, and mapped > 0 when psize > 0; it stops at psize or at the end of the PT; the new tables are exactly BaseEntries: empty PT slots get entries to pbase + offset, and a present entry is left unchanged. |
| VSpaces.VSpace.MapIdentityWithOffset | kernel/src/arch/x86_64/vspace.rs:51-76 | Demands end > pbase; maps virtual at_offset + pbase for end - pbase bytes with the MapGeneric outcome and budget; on Done over a fresh region every u in [at_offset + pbase, at_offset + end) resolves to u - at_offset. |
| VSpaces.VSpace.MapIdentity | kernel/src/arch/x86_64/vspace.rs:82-85 | The MapGeneric outcome for [base, end) onto itself; on Done over a fresh region every address of it resolves to itself. |
| VSpaces.VSpace.MapFrames | kernel/src/arch/x86_64/vspace.rs:377-397 | Demands a non-empty list with base a multiple of the first frame's size. Ends in FramesOutcome: frames go back to back from base (frame k at base + the sizes of the frames before it); on Done over a fresh run each frame resolves onto its own memory; nothing outside the run changes; a structural panic stops the run and names an entry of the old tree; the budget is a MapGeneric budget per frame. |
| VSpaces.VSpace.MapNextFrame | kernel/src/arch/x86_64/vspace.rs:390-395 | One loop pass: map_frame on frame i at current_base == base + FrameOffset(i); on Done the run state covers i + 1 frames, on a panic the run ends in FramesOutcome; the frames taken stay within the budget of the frames so far. |
| VSpaces.VSpace.MapFrame | kernel/src/arch/x86_64/vspace.rs:400-410 | map_generic on the frame's base and size, with its outcome and budget for [base, base + size). |
| VSpaces.TookFramesTransitive | kernel/src/arch/x86_64/vspace.rs:309-325 | Frames taken over two stretches of a run are a prefix of the pager's list, and every new table frame came from it. |
| VSpaces.BudgetShrinks | kernel/src/arch/x86_64/vspace.rs:161-174 | The recursive call on the rest of the region leaves room in the budget for the three tables of the pass that made it. |
| VSpaces.FramesBudgetStep | kernel/src/arch/x86_64/vspace.rs:390-395 | The budgets of the frames before i and of frame i add up to the budget of the first i + 1 frames, within the whole run's. |
| Outcomes.PanicOutcome | kernel/src/arch/x86_64/vspace.rs:93-307 | A panic after progress over the first `mapped` bytes, with the named entry in the old tree, is the Outcome of the call. |
| Outcomes.DoneOutcome | kernel/src/arch/x86_64/vspace.rs:303-305 | Progress over the whole region, writing only on its walks, is the Done outcome. |
| Outcomes.OutOfFramesOutcome | kernel/src/arch/x86_64/vspace.rs:115-118 | Running out of frames for the PDPT, before anything was written, is the outcome of the call. |
| Outcomes.HugeCoveredOutcome | kernel/src/arch/x86_64/vspace.rs:190-193 | A 1 GiB page covering vbase, met before anything was mapped, was in the old tree, and Panicked(CoveredByHugePage) is the outcome. |
| Outcomes.LargeCoveredOutcome | kernel/src/arch/x86_64/vspace.rs:265-268 | A 2 MiB page covering vbase, met before anything was mapped, was in the old tree, and Panicked(CoveredByLargePage) is the outcome. |
| Outcomes.RemainderOutcome | kernel/src/arch/x86_64/vspace.rs:161-174 | The outcome of the recursive call on the rest of the region, after the first `mapped` bytes, is the outcome of the whole region. |
| Outcomes.RemainderBlocked | kernel/src/arch/x86_64/vspace.rs:161-174 | An entry the recursive call ran into was already there before the first `mapped` bytes were mapped. |
| Outcomes.OffsetTranslation | kernel/src/arch/x86_64/vspace.rs:62-75 | A Done outcome on a fresh region at offset + pbase maps every address of it to the address `offset` below. |
| Outcomes.EmptyNotBlocked | kernel/src/arch/x86_64/vspace.rs:32-38 | The tree of a new address space has no entry that a structural panic could name. |
| Outcomes.HugeTakenBlocked | kernel/src/arch/x86_64/vspace.rs:143-144 | The present PDPT slot the 1 GiB loop met at vbase + mapped lies inside the region, so it blocks the region. |
| Outcomes.LargeTakenBlocked | kernel/src/arch/x86_64/vspace.rs:214-216 | The present PD slot the 2 MiB loop met at vbase + mapped blocks the region. |
| Outcomes.BlockedBefore | kernel/src/arch/x86_64/vspace.rs:161-174 | A panic met by a later call from [lo1, hi1) names an entry of the tree from before: until then only walks below a page past lo1 were written, and translations from lo1 on were kept. |
| Outcomes.HugeSlotBefore | kernel/src/arch/x86_64/vspace.rs:143-144 | A used PDPT slot above lo1 was already used: the run so far wrote only walks below it. |
| Outcomes.LargeSlotBefore | kernel/src/arch/x86_64/vspace.rs:214-216 | A used PD slot above lo1 was already used. |
| Outcomes.HugeLeafBefore | kernel/src/arch/x86_64/vspace.rs:190-193 | A 1 GiB page on the walk of an address past the mapped prefix was already there. |
| Outcomes.LargeLeafBefore | kernel/src/arch/x86_64/vspace.rs:265-268 | A 2 MiB page on the walk of an address past the mapped prefix was already there. |
| Outcomes.FramesStart | kernel/src/arch/x86_64/vspace.rs:389 | Before the first frame the run state holds of the starting tree. |
| Outcomes.FramesDone | kernel/src/arch/x86_64/vspace.rs:396 | The run state after the last frame is the Done outcome of the whole run. |
| Outcomes.NextFrameOutcome | kernel/src/arch/x86_64/vspace.rs:390-395 | After the first i frames, map_generic's outcome for frame i at current_base is the run state for i + 1 frames on Done, and the run's outcome on a panic. |
| Outcomes.NextFrameGrown | kernel/src/arch/x86_64/vspace.rs:390-395 | The walks written for frame i lie below the end of frame i plus a page. |
| Outcomes.NextFrameBlocked | kernel/src/arch/x86_64/vspace.rs:390-395 | An entry that a panic on frame i names was already in the tree before the run. |
| Growth.WalkedSize | kernel/src/arch/x86_64/vspace.rs:114-130 | The bytes whose walks a call over psize bytes reads: psize, or the first page when psize is 0, since even then the tables down to vbase are allocated. |
| Growth.GrownTransitive | kernel/src/arch/x86_64/vspace.rs:161-174 | Two stretches of growth, each on the walks of an interval inside [lo, hi), are one. |
| Growth.GrownPdpt | kernel/src/arch/x86_64/vspace.rs:115-118 | new_pdpt in the empty PML4 slot of w writes only a slot on the walk of w, to a new table. |
| Growth.GrownAttach | kernel/src/arch/x86_64/vspace.rs:186 | new_pd or new_pt in an empty slot on the walk of w writes only that slot, to a new table whose path extends the slot's (also line 259). |
| Growth.GrownLeaf | kernel/src/arch/x86_64/vspace.rs:145-148 | A leaf written into a slot on the walk of w keeps the growth within the walks up to w (also lines 218-221 and 276). |
| Growth.GrownWiden | kernel/src/arch/x86_64/vspace.rs:93-307 | Growth on the walks of [lo, hi) is growth on the walks of any interval around it. |
| Growth.NotInHugeSlot | kernel/src/arch/x86_64/vspace.rs:130-136 | No address below a 1 GiB-aligned w, and within 2^48 of it, shares w's 1 GiB slot. |
| Growth.NotInLargeSlot | kernel/src/arch/x86_64/vspace.rs:201-208 | The same for the 2 MiB slot of a 2 MiB-aligned w. |
| Growth.HugeSlotWasUsed | kernel/src/arch/x86_64/vspace.rs:143-144 | A 1 GiB slot in use after growth below it was in use before: the run cannot have filled it. |
| Growth.LargeSlotWasUsed | kernel/src/arch/x86_64/vspace.rs:214-216 | The same for a 2 MiB slot. |
| Growth.HugeLeafWasThere | kernel/src/arch/x86_64/vspace.rs:190-193 | A 1 GiB page on a walk whose translation did not change was on it before the tree grew. |
| Growth.LargeLeafWasThere | kernel/src/arch/x86_64/vspace.rs:265-268 | The same for a 2 MiB page. |
| LeafRuns.Leaves | kernel/src/arch/x86_64/vspace.rs:139-159 | n leaves written from slot j0 keep the set of table frames. |
| LeafRuns.LeavesSlot | kernel/src/arch/x86_64/vspace.rs:139-159 | After a run of leaves, slot j0 + k (k < n) holds the leaf for pbase + size * k, and every other slot its old entry (also lines 213-232). |
| LeafRuns.LeafRunNext | kernel/src/arch/x86_64/vspace.rs:145-148 | A pass over the next empty slot extends the run by one leaf. |
| LeafRuns.BaseEntries | kernel/src/arch/x86_64/vspace.rs:274-286 | The 4 KiB loop over n slots keeps the set of table frames. |
| LeafRuns.BaseEntriesSlot | kernel/src/arch/x86_64/vspace.rs:274-286 | After the 4 KiB loop, a slot of the run that was empty holds the entry for pbase + 4 KiB * k, and every other slot its old entry. |
| LeafRuns.BaseEntriesNext | kernel/src/arch/x86_64/vspace.rs:274-286 | One more pass: the shorter loop, then the slot written if it was empty. |
| LeafRuns.HugeLeafStep | kernel/src/arch/x86_64/vspace.rs:143-158 | One 1 GiB pass at an empty slot extends the mapped prefix by 1 GiB, writing on the walk of vbase + mapped. |
| LeafRuns.HugeSlotStop | kernel/src/arch/x86_64/vspace.rs:143-144 | The present slot that stops the 1 GiB loop after its first pass was present before the call. |
| LeafRuns.LargeLeafStep | kernel/src/arch/x86_64/vspace.rs:213-231 | One 2 MiB pass at an empty slot extends the mapped prefix by 2 MiB. |
| LeafRuns.LargeSlotStop | kernel/src/arch/x86_64/vspace.rs:214-216 | The present slot that stops the 2 MiB loop after its first pass was present before the call. |
| LeafRuns.BaseLeafStep | kernel/src/arch/x86_64/vspace.rs:275-276 | One 4 KiB pass at an empty slot extends the mapped prefix by 4 KiB. |
| LeafRuns.BaseSkipStep | kernel/src/arch/x86_64/vspace.rs:277-282 | A 4 KiB pass over a present entry writes nothing, and the region was not fresh. |
| LeafRuns.HugeRunEffect | kernel/src/arch/x86_64/vspace.rs:139-159 | A run of n huge leaves from slot i3, where vbase lies, maps the first n GiB of the region and writes only on their walks. |
| LeafRuns.LargeRunEffect | kernel/src/arch/x86_64/vspace.rs:210-232 | The same for a run of large leaves in the PD. |
| LeafRuns.BaseRunEffect | kernel/src/arch/x86_64/vspace.rs:271-286 | The same for the 4 KiB loop over n slots of the PT. |
| LeafRuns.PdDistinct | kernel/src/arch/x86_64/vspace.rs:198 | The PD below a PDPT slot is not the PDPT itself. |
| LeafRuns.PtDistinct | kernel/src/arch/x86_64/vspace.rs:270 | The PT below a PD slot, that PD and the PDPT above are three different tables. |
| PageTables.ResolvePreserved | kernel/src/arch/x86_64/vspace.rs:342-373 | An extension of the tree (no present slot changed) keeps every translation that resolved before. |
| PageTables.ResolveSamePage | kernel/src/arch/x86_64/vspace.rs:342-373 | Within one 4 KiB page the walk fails everywhere or everywhere carries the page offset over unchanged. |
| PageTables.ResolveIgnoresHighBits | kernel/src/arch/x86_64/vspace.rs:342-373 | The walk reads bits 0..47 only: addr and addr mod 2^48 resolve alike. |
| PageTables.AddTable | kernel/src/arch/x86_64/vspace.rs:309-325 | A zeroed frame added as a table keeps the tree well-formed and changes no translation. |
| PageTables.InstallPdpt | kernel/src/arch/x86_64/vspace.rs:116-119 | An empty PML4 slot pointed at a zeroed PDPT keeps the tree and changes no translation. |
| PageTables.InstallTable | kernel/src/arch/x86_64/vspace.rs:186 | An empty PDPT or PD slot pointed at a zeroed table keeps the tree and changes no translation (also line 259). |
| PageTables.WriteSlot | kernel/src/arch/x86_64/vspace.rs:145-148 | Writing one slot changes exactly that slot of that table and keeps the set of table frames. |
| PageTables.WriteHugeLeaf | kernel/src/arch/x86_64/vspace.rs:145-148 | A 1 GiB leaf in an empty PDPT slot: addresses with those two indices resolve to the leaf address plus the huge-page offset; all others as before. |
| PageTables.WriteLargeLeaf | kernel/src/arch/x86_64/vspace.rs:218-221 | A 2 MiB leaf in an empty PD slot: addresses with those three indices resolve to the leaf address plus the large-page offset; all others as before. |
| PageTables.WriteBaseEntry | kernel/src/arch/x86_64/vspace.rs:276 | A 4 KiB entry in an empty PT slot: addresses with those four indices resolve to the entry address plus the base-page offset; all others as before. |
| PageTables.WalkPositions | kernel/src/arch/x86_64/vspace.rs:342-373 | Along the walk of any address the tables reached are those of that address's own index path. |
| Mapping.HugeLeafEffect | kernel/src/arch/x86_64/vspace.rs:145-148 | The 1 GiB leaf at virtual position w maps [w, w + 1 GiB) onto the leaf and changes nothing else. |
| Mapping.LargeLeafEffect | kernel/src/arch/x86_64/vspace.rs:218-221 | The 2 MiB leaf at virtual position w maps [w, w + 2 MiB) onto the leaf and changes nothing else. |
| Mapping.BaseEntryEffect | kernel/src/arch/x86_64/vspace.rs:276 | The 4 KiB entry at virtual position w maps [w, w + 4 KiB) onto the entry and changes nothing else. |
| Mapping.ProgressStep | kernel/src/arch/x86_64/vspace.rs:143-158 | A step mapping size bytes at vbase + mapped to pbase + mapped, changing nothing else, advances progress from mapped to mapped + size. |
| Mapping.ProgressCompose | kernel/src/arch/x86_64/vspace.rs:161-174 | Progress over the first mapped bytes plus a mapping of the remainder at vbase + mapped / pbase + mapped is a mapping of the whole region (the offset is preserved). |
| Mapping.HugeStep | kernel/src/arch/x86_64/vspace.rs:143-158 | One 1 GiB iteration extends progress by 1 GiB and keeps the tree well-formed. |
| Mapping.LargeStep | kernel/src/arch/x86_64/vspace.rs:213-231 | One 2 MiB iteration extends progress by 2 MiB and keeps the tree well-formed. |
| Mapping.BaseStep | kernel/src/arch/x86_64/vspace.rs:274-286 | One 4 KiB iteration that writes an entry extends progress by 4 KiB. |
| Mapping.PresentEntryNotFresh | kernel/src/arch/x86_64/vspace.rs:277-282 | A PT entry already present where the loop is can only be met when the region was not unmapped. |
| Addresses.Pml4Index | kernel/src/arch/x86_64/vspace.rs:115 | Every table index is below 512. |
| Addresses.HugeSlotPosition | kernel/src/arch/x86_64/vspace.rs:130-136 | vaddr_pos at the PDPT equals vbase exactly when vbase is 1 GiB-aligned below 2^48. |
| Addresses.LargeSlotPosition | kernel/src/arch/x86_64/vspace.rs:201-208 | vaddr_pos at the PD equals vbase exactly when vbase is 2 MiB-aligned below 2^48. |
| Addresses.Decompose | kernel/src/arch/x86_64/vspace.rs:342-373 | An address is the sum of its four index digits, its page offset and the bits above bit 47. |
| Frames.MapsFramesAt | kernel/src/arch/x86_64/vspace.rs:390-394 | The run's mapping gives each of the first n frames its own translation at its offset in the run. |
| Frames.FramesStep | kernel/src/arch/x86_64/vspace.rs:392-394 | Mapping the next frame at current_base extends the run by one frame without disturbing the frames before it. |
| Frames.FramesEarlier | kernel/src/arch/x86_64/vspace.rs:390-394 | Mapping frame i leaves the translations of frames 0..n-1 (n <= i) as they were. |
| Frames.FrameOffsetAligned | kernel/src/arch/x86_64/vspace.rs:394 | current_base stays 4 KiB-aligned when every frame size is. |
| Labels.Join | kernel/src/arch/x86_64/vspace.rs:654-658 | The text of n fields holds 2n - 1 pieces (none for no field). |
| Labels.JoinShape | kernel/src/arch/x86_64/vspace.rs:654-658 | Fields sit at the even positions in order, " \| " at every odd position. |
| Labels.Shown | kernel/src/arch/x86_64/vspace.rs:651-686 | Each index contributes at most one piece, and a field it shows carries its own index. |
| Labels.CompressedLabel | kernel/src/arch/x86_64/vspace.rs:643-689 | The state-machine loop (with the reset at 511) produces exactly Join(Compressed(t)), the declarative set of shown pieces. |
| Labels.PrintEntry | kernel/src/arch/x86_64/vspace.rs:651-685 | One pass of the printer: in the state the loop has reached entry i in, it appends exactly what Shown gives for entry i (with " \| " before it when text is nonempty) and leaves the state due at entry i + 1. |
| Labels.CompressedShows | kernel/src/arch/x86_64/vspace.rs:651-666 | Field(i, a) is in the PT/PD label iff entry i is present with address a and starts a run or is index 511: only present indices, and every run's first entry. |
| Labels.LastAlwaysShown | kernel/src/arch/x86_64/vspace.rs:646-648 | A present entry 511 always appears. |
| Labels.ShownFromIndices | kernel/src/arch/x86_64/vspace.rs:645 | Every field shown from the slice lo..hi has an index in lo..hi. |
| Labels.ShownFromOrdered | kernel/src/arch/x86_64/vspace.rs:645 | The fields of the PT/PD label come in strictly increasing index order. |
| Labels.EllipsesAppend | kernel/src/arch/x86_64/vspace.rs:667-678 | The "..." count of two label parts adds up. |
| Labels.RunEllipses | kernel/src/arch/x86_64/vspace.rs:667-685 | A run of present entries a..b produces one "..." when it is longer than one entry, except the run 510..511, which the reset at 511 prints as two fields; a one-entry run produces none. |
| Labels.FullLabel | kernel/src/arch/x86_64/vspace.rs:739-760 | The PDPT/PML4 loop produces exactly Join(Listed(t, 512)). |
| Labels.ListedShows | kernel/src/arch/x86_64/vspace.rs:739-747 | Field(i, a) is in the PDPT/PML4 label iff entry i is present with address a. |
| Labels.ListedOrdered | kernel/src/arch/x86_64/vspace.rs:739-747 | Every piece of the PDPT/PML4 field list is a field, in strictly increasing index order. |
| Labels.NodeLabel | kernel/src/arch/x86_64/vspace.rs:642-764 | Dispatch: compressed label for PT and PD, full list for PDPT and PML4, a size-tagged name for 4 KiB, 2 MiB and 1 GiB pages. |
| AlignedAlloc.ActualPages | kernel/src/arch/x86_64/vspace.rs:454-456 | actual = how_many + align_to/4096 when that fits in 64 bits, and otherwise wraps to below how_many (which the assertion catches). |
| AlignedAlloc.AllocatePagesAligned | kernel/src/arch/x86_64/vspace.rs:440-483 | Demands align_to a power of two and >= 4096. Stops only on an overflowing count; never fails the alignment or lost-pages assertions; the base is a multiple of align_to and of 4096, and paddr <= base <= paddr + actual*4096 - how_many*4096. |
| AlignedAlloc.AlignDownBounds | kernel/src/arch/x86_64/vspace.rs:463 | Rounding down gives a multiple of the alignment less than one alignment below its argument. |
| AlignedAlloc.PowerOfTwoMultiple | kernel/src/arch/x86_64/vspace.rs:445-449 | A power of two is a multiple of every smaller power of two (so align_to is a whole number of pages). |
| AlignedAlloc.AlignedBottom | kernel/src/arch/x86_64/vspace.rs:463-470 | The aligned base lies a whole number of pages above paddr, at most align_to/4096 of them. |
| AlignedAlloc.UnusedPages | kernel/src/arch/x86_64/vspace.rs:466-480 | The unused bottom and top page counts add up to actual - how_many, and the kept pages end inside the allocation. |

## Left out

- Zeroing frames through raw pointers, `transmute` and `paddr_to_kernel_vaddr`
  (`get_pt`, `get_pd`, `get_pdpt`) are left out. Tables are values in a map from
  frame address to table, and a fresh table is the all-absent table.
- The pager (`TCache`) is abstracted as the `Pager` class: a list of distinct
  free frames, none of them a table yet, that hands out its first frame.
  `map_identity_with_offset` takes it as a parameter instead of fetching it
  from the per-core KCB.
- `allocate_pages` (the global-allocator call) is left out. Its result is the
  `paddr` parameter, which must be 4 KiB-aligned as its 4096-byte layout
  guarantees. Freeing the unused pages is not implemented in the source either.
- `pml4_address`, `map` (marked broken in the source), `dump_current_table`,
  `dump_table`, `graph_id`, `node_shape`, `node_id`, `edge_label`,
  `parse_nodes_edges`, `nodes`, `edges`, `source` and `target` are left out.
  They are CR3 reads, logging, and Graphviz plumbing that depends on raw
  table-pointer identity.
- The `debug!`/`trace!` logging is left out.
- The flag bits are abstracted.
  - An entry keeps its present bit, its page-size bit, its frame address, and
    where its flags came from.
  - The bit encoding of `to_pdpt_rights`, `to_pd_rights` and `to_pt_rights`
    is not modelled.
- The hex formatting in `node_label` is abstract. A field is a token holding its
  index and its address.
- Integers are unbounded. The model covers 64-bit wrap-around only in
  `actual_how_many`, where the source checks it. These sums are not checked for
  overflow: `vbase + psize`, `paddr + actual_how_many * 4096`, and
  `current_base += frame.size()`.
- VSpaces.VSpace.MapGeneric: the mapping clause needs the region to be unmapped
  and no longer than 2^48 bytes. The walk reads only bits 0..47, so a longer
  region meets its own start again. The 4 KiB loop then silently keeps the
  entry that is already present.
- VSpaces.VSpace.MapGeneric: on a panic the contract bounds what changed (the
  tree only grew, only on the region's walks) and names the entry it ran into.
  It does not say how much of the region was mapped before the panic.
- VSpaces.VSpace.MapGeneric: a structural panic names an entry of the old tree
  only for regions of at most 2^48 bytes. In a longer region the walk meets its
  own start again, so a slot the call wrote itself can stop it.
- VSpaces.VSpace.MapGeneric: running out of frames is bounded by the table
  budget, three frames per 4 KiB page of the region plus three. The contract
  does not give the exact number of tables a call needs.
- VSpaces.VSpace.MapFrames: a structural panic names an entry of the old tree
  only when the run is shorter than 2^48 bytes. The entry lies in the run or in
  the page after it, because a frame of size 0 still walks its first page.
- VSpaces.VSpace.MapGeneric: for a `vbase` at or above 2^48, `vaddr_pos` never
  equals `vbase`, so such a region always gets 4 KiB entries. The model does the
  same; the contracts do not depend on the leaf size.
- AlignedAlloc.AlignDown: models `(paddr + mask) & !mask` as rounding down to a
  multiple of `align_to`. The bit-level identity for powers of two is not proved.
- Labels.RunEllipses: "a run longer than one entry produces exactly one `...`"
  does not hold for the run 510..511. The reset at index 511 prints it as two
  fields with no `...`. The lemma states the exact count.
- VSpaces.VSpace.MapFrame: map_frame discards map_generic's `Result` and
  returns `Ok`. map_generic never returns `Err` (it panics instead), so the
  model passes map_generic's status on unchanged.
- The "Option<usize>" slot that table nodes carry only feeds `node_id` and
  edges. It is not part of `Node`.
- `kcb.rs`, `usr/init`, the kernel entry point and the boot/emulator pipeline
  are not part of this model.
