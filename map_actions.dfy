/**
 * The access rights a mapping is created with. The enum itself lives in
 * kernel/src/memory/vspace.rs, which is not part of this model; the variants
 * are the ones the page-table code and its property tests name. How each
 * variant becomes PDPT, PD or PT flag bits is not modelled: a leaf entry
 * records the action it was written with.
 */
module MapActions {

  datatype MapAction =
    | None
    | ReadUser
    | ReadKernel
    | ReadWriteUser
    | ReadWriteKernel
    | ReadExecuteUser
    | ReadExecuteKernel
    | ReadWriteExecuteUser
    | ReadWriteExecuteKernel
}
