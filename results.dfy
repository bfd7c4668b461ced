/** Option and Result: the model's stand-ins for Go's `(value, error)` return pairs. */
module Results {

  datatype Option<+T> = None | Some(value: T)

  /** `Success(v)` is Go's `(v, nil)`; `Failure(e)` is `(zero value, e)`. */
  datatype Result<+T, +E> = Success(value: T) | Failure(error: E)
}
