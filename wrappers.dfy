/** Success/failure carriers shared by the modules of this model. */
module Wrappers {

  datatype Option<+T> = None | Some(value: T)

  datatype Result<+R, +E> = Success(value: R) | Failure(error: E)

  /** A check that either passes or reports why it failed. */
  datatype Outcome<+E> = Pass | Fail(error: E)
}
