/** Optional values: a field that may be missing, a timer with nothing pending. */
module Wrappers {

  datatype Option<+T> = None | Some(value: T)
}
