/** Optional values: a missing cell, a file that was skipped. */
module Wrappers {

  datatype Option<+T> = None | Some(value: T)
}
