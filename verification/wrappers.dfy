/** Optional values, used where the Go code would panic or return a nil
    pointer. */
module Wrappers {
  datatype Option<+T> = None | Some(value: T)
}
