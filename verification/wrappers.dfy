/** Optional values, used where the source has `None` or a failed read. */
module Wrappers {

  datatype Option<+T> = None | Some(value: T)
}
