/** The C code signals "not found" with a NULL pointer; the model uses Option. */
module Wrappers {

  datatype Option<+T> = None | Some(value: T)
}
