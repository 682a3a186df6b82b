/** Option, Result and Outcome: the shapes the service uses for "maybe absent"
    columns and for the error paths of its operations. */
module Wrappers {

  datatype Option<+T> = None | Some(value: T)

  datatype Result<+R, +E> = Success(value: R) | Failure(error: E)

  datatype Outcome<+E> = Pass | Fail(error: E)
}
