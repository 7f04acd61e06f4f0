/** Option and Outcome, for values that may be missing and checks that may fail. */
module Wrappers {

  datatype Option<+T> = None | Some(value: T)

  /** The result of a check that either passes or fails with an error. */
  datatype Outcome<+E> = Pass | Fail(error: E)
}
