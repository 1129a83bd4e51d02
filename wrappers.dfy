/** The optional value used for "no match", "not found" and Python's None. */
module Wrappers {
  datatype Option<+T> = None | Some(value: T)
}
