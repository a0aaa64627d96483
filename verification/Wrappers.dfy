/** Optional values: a Go value or map entry that may be absent. */
module Wrappers {
  datatype Option<+T> = None | Some(value: T)
}
