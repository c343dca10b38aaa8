/** The optional value used where the Go code has a nil reference or a missing map entry. */
module Wrappers {
  datatype Option<+T> = None | Some(value: T)
}
