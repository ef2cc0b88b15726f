/** Outcome of an operation that may raise a Python exception. */
module Results {

  /** The exceptions the modelled code can raise. */
  datatype Error =
    | ZeroDivision   // float division by zero
    | IndexOutOfRange // list index out of range

  datatype Result<+T> = Success(value: T) | Failure(error: Error)
}
