/** Optional values, used for a probe of the table that may find nothing. */
module Wrappers {

  datatype Option<+T> = None | Some(value: T)
}
