/** The optional value returned by the page-table walk and by the frame allocator. */
module Wrappers {

  datatype Option<T> = None | Some(value: T)
}
