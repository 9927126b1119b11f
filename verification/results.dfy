/** The wrappers used across the model. */
module Results {

  /** A value that may be missing; `None` also stands for pandas' NaN. */
  datatype Option<+T> = None | Some(value: T)

  /** The outcome of a step that can abort the script. */
  datatype Result<+R, +E> = Success(value: R) | Failure(error: E)
}
