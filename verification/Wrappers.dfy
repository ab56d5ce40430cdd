/** The optional value used where the program returns a NULL pointer or a -1 status. */
module Wrappers {
  datatype Option<+T> = None | Some(value: T)
}
