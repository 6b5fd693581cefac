/** Optional values: a lookup that may find nothing, a regular expression that may not match. */
module Wrappers {

  datatype Option<+T> = None | Some(value: T)
}
