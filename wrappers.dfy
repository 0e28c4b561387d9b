/** The optional value used for "the pattern did not match" and similar outcomes. */
module Wrappers {
  datatype Option<+T> = None | Some(value: T)
}
