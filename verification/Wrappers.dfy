/** A value that may be absent, as Go's `, ok` results and nil pointers express it. */
module Wrappers {
  datatype Option<+T> = None | Some(value: T)
}
