/** The optional value used by the scanner. */
module Wrappers {

  /** Either no value (`None`) or a value (`Some`). */
  datatype Option<+T> = None | Some(value: T)
}
