/** Failure-carrying wrappers shared by the model: Go's `(T, error)` pairs become `Result`. */
module Results {

  datatype Option<+T> = None | Some(value: T)

  datatype Result<+T, +E> = Success(value: T) | Failure(error: E)
}
