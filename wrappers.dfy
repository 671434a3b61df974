// Optional values and results, standing for Python's `None`-or-value returns
// and for the messages the front ends flash or print on failure.
module Wrappers {
  datatype Option<+T> = None | Some(value: T)

  datatype Result<+T, +E> = Success(value: T) | Failure(error: E)
}
