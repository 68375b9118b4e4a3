/** Optional values, used wherever the source can come back with "no match". */
module Wrappers {

  datatype Option<+T> = None | Some(value: T)
}
