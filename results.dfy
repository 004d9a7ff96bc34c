/** The value-or-error wrapper that stands for a Python function that either returns or raises. */
module Results {

  datatype Result<+T, +E> = Success(value: T) | Failure(error: E)
}
