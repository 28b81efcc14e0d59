/** Optional values, for the `Option` results of the path and string conversions. */
module Wrappers {
  datatype Option<+T> = None | Some(value: T)
}
