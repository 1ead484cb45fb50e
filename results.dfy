/** Outcomes of operations that can fail: Go's `(value, error)` pairs and nil results. */
module Results {
  datatype Result<T> = Success(value: T) | Failure(error: string)

  datatype Option<T> = None | Some(value: T)
}
