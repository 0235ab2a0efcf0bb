/** Option and outcome types shared by the whole model. */
module Wrappers {

  /** A lookup that may fail; `None` plays the part of a null shared pointer. */
  datatype Option<+T> = None | Some(value: T)

  /** The outcome of an operation that may raise an exception. */
  datatype Outcome<+E> = Pass | Fail(error: E)
}
