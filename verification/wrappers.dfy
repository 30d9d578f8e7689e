/** Optional values, used for storage records that may be absent. */
module Wrappers {

  datatype Option<+T> = None | Some(value: T)
}
