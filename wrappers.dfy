/** Optional values, used for "not found", "could not open" and malformed input. */
module Wrappers {

  datatype Option<+T> = None | Some(value: T)
}
