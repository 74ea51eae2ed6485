/** Optional values and success/failure results shared by the other modules. */
module Results {

  datatype Option<+T> = None | Some(value: T)

  /** An operation that either produces a value or fails with an error, as a raised
      Ruby exception would abort the call. */
  datatype Result<+R, +E> = Success(value: R) | Failure(error: E)
}
