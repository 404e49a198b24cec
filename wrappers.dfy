/** Option and Result: the absent values and error returns of the Python code. */
module Wrappers {

  /** `None` stands for Python's `None` (a failed service call, a missing value). */
  datatype Option<+T> = None | Some(value: T)

  /** `Failure` stands for a raised `ValueError` or an error response. */
  datatype Result<+R, +E> = Success(value: R) | Failure(error: E)
}
