/** Optional values: a search that finds nothing ("npos"), a code that names no value. */
module Wrappers {

  datatype Option<+T> = None | Some(value: T)
}
