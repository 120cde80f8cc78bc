/** Option and outcome types shared by the model. */
module Wrappers {

  /** An optional value: `undefined`/`null` in the original code is `None`. */
  datatype Option<+T> = None | Some(value: T)

  /** What the remote side returned to a subscriber: the value passed to the
      success callback, or the error passed to the error callback. */
  datatype Outcome<+T> = Success(value: T) | Failure(error: Error)

  /** The error object handed to an error callback; only its identity as a
      message matters to the model. */
  type Error = string
}
