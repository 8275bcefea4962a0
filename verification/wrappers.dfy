/** Failure-carrying datatypes shared by the rest of the model. */
module Wrappers {

  /** A value that may be missing (a search that found nothing). */
  datatype Option<+T> = None | Some(value: T)

  /** Either a computed value or the error the program would raise instead. */
  datatype Result<+T, +E> = Ok(value: T) | Err(error: E)
}
