/** Optional values: a fetch that may fail, a statistic that may be undefined. */
module Wrappers {
  datatype Option<+T> = None | Some(value: T)
}
