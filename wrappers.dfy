/** Optional values, for results that are absent on some paths. */
module Wrappers {
  datatype Option<+T> = None | Some(value: T)
}
