/** A value that may be absent: the "not found" and "does not parse" outcomes of the model. */
module Wrappers {
  datatype Option<+T> = None | Some(value: T)
}
