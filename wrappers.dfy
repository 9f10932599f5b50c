/** Optional values, used where the source has `None` or a missing document field. */
module Wrappers {
  datatype Option<+T> = None | Some(value: T)
}
