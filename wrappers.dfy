/** Optional values: a file read that may fail. */
module Wrappers {
  datatype Option<+T> = None | Some(value: T)
}
