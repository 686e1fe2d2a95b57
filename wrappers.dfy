/** Optional values: Python's `None` and PHP's missing value. */
module Wrappers {

  datatype Option<+T> = None | Some(value: T)
}
