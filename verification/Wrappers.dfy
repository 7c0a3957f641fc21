/** A value that may be missing: a NULL pointer in the source. */
module Wrappers {

  datatype Option<+T> = None | Some(value: T)
}
