/** Option and Result, the shapes Ruby's `nil` and a raised exception take in this model. */
module Base {

  datatype Option<+T> = None | Some(value: T)

  /** `Failure` carries the index of the input line that made the source raise. */
  datatype Result<+R, +E> = Success(value: R) | Failure(error: E)
}
