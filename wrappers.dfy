/** Option and Result: the model's replacement for Python's `None` and for the
    ad hoc `{"error": ...}` dictionaries the repository returns. */
module Wrappers {

  datatype Option<+T> = None | Some(value: T)

  datatype Result<+R, +E> = Success(value: R) | Failure(error: E)
}
