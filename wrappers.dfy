/** Optional values, used where the source returns null or a value. */
module Wrappers {

  datatype Option<+T> = None | Some(value: T)
}
