/** Go's "value or nil" shape: None plays the part of a nil error or a missing value. */
module Wrappers {
  datatype Option<+T> = None | Some(value: T)
}
