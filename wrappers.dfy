/** The present/absent result that replaces Go's nil pointers. */
module Wrappers {
  datatype Option<+T> = None | Some(value: T)
}
