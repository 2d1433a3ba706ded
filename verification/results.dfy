/** Failure-carrying values shared by the whole model: the Go code returns
    `(*User, error)` pairs and bare `error`s; here they become datatypes. */
module Results {

  /** A value that may be absent (a nil result, a record not found). */
  datatype Option<+T> = None | Some(value: T)

  /** Either a value or an error (a Go `(T, error)` pair where exactly one is set). */
  datatype Result<+T, +E> = Success(value: T) | Failure(error: E)

  /** A bare Go `error`: nil (Pass) or an error value (Fail). */
  datatype Outcome<+E> = Pass | Fail(error: E)
}
