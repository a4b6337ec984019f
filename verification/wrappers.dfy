/** Tagged results used in place of the source's "value or None" returns. */
module Wrappers {

  /** A value that may be absent; `None` stands for Python's `None`. */
  datatype Option<+T> = None | Some(value: T)

  /** A value or an error describing why there is none. */
  datatype Result<+T, +E> = Success(value: T) | Failure(error: E)
}
