/** Optional values, standing for the nil results of the Go library calls. */
module Wrappers {
  datatype Option<+T> = None | Some(value: T)
}
