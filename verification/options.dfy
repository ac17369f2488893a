/** Optional values and results, used instead of Python's None and exceptions. */
module Options {

  datatype Option<+T> = None | Some(value: T)

  datatype Result<+R, +E> = Success(value: R) | Failure(error: E)
}
