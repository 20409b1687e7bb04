/** The optional value used for the calls that return -1 on failure. */
module Wrappers {
  datatype Option<+T> = None | Some(value: T)
}
