/** Option and Result values used for the lookups and searches of the model. */
module Wrappers {

  /** A value that may be missing: a lookup or a search that found nothing. */
  datatype Option<+T> = None | Some(value: T)

  /** The outcome of an operation that can fail with an error of type E. */
  datatype Result<+T, +E> = Ok(value: T) | Err(error: E)
}
