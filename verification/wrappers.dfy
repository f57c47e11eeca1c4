/** A value that may be absent: the null pointers and error codes of the C interfaces. */
module Wrappers {
  datatype Option<+T> = None | Some(value: T)
}
