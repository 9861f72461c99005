/** Option and Result: the model's stand-ins for Python's `None` and for the
    assertion failures that end a run before anything is opened. */
module Wrappers {

  /** A value that may be unset (`None` in the source's configuration dictionary). */
  datatype Option<+T> = None | Some(value: T)

  /** Either a value or the reason none could be produced. */
  datatype Result<+R, +E> = Success(value: R) | Failure(error: E)
}
