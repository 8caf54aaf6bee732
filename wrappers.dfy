/** Optional values, standing for a possibly-null owning pointer. */
module Wrappers {
  datatype Option<+T> = None | Some(value: T)
}
