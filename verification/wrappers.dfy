/** Optional values: a DOM query that may find nothing. */
module Wrappers {

  datatype Option<+T> = None | Some(value: T)
}
