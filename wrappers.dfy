/** Optional values, for the C functions that return NULL on failure. */
module Wrappers {
  datatype Option<+T> = None | Some(value: T)
}
