/** Optional values, for operations of the source that may fail (an exception) or find nothing. */
module Wrappers {
  datatype Option<+T> = None | Some(value: T)
}
