/** The optional value used for "a file that may not decode". */
module Wrappers {
  datatype Option<+T> = None | Some(value: T)
}
