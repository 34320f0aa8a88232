/** Option and Result values for the absent and failing outcomes of the event lister. */
module Wrappers {

  /** A value that may be absent, as Python's `None`. */
  datatype Option<+T> = None | Some(value: T)

  /** The outcome of a run that may stop with an error. */
  datatype Result<+R, +E> = Success(value: R) | Failure(error: E)
}
