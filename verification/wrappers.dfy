/** The `Option` and `Result` types shared by the model. `None` stands for a
    missing storage key or for a JavaScript `undefined` field. */
module Wrappers {

  datatype Option<+T> = None | Some(value: T)

  /** The outcome of an event handler that either updates something or stops
      with one of the alert messages the screen shows. */
  datatype Result<+R, +E> = Success(value: R) | Failure(error: E)
}
