/** A value that may be absent: the model's stand-in for R's NULL in a result slot. */
module Wrappers {
  datatype Option<+T> = None | Some(value: T)
}
