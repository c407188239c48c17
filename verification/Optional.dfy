/** Failure-carrying wrappers: Python's `Optional[...]` and the raise-or-return
    shape of the services. */
module Optional {

  /** `None` or a value; the model of `Optional[T]`. */
  datatype Option<+T> = None | Some(value: T)

  /** Either a value or the error a caller would have seen raised. */
  datatype Result<+R, +E> = Success(value: R) | Failure(error: E)
}
