/** Optional values, used for PHP's `null` and for "no result". */
module Wrappers {
  datatype Option<+T> = None | Some(value: T)
}
