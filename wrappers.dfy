/** The usual optional value, used for the nullable function pointers and table names. */
module Wrappers {
  datatype Option<+T> = None | Some(value: T)
}
