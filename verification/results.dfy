/** A success-or-failure value, standing in for the exceptions the interpreter raises. */
module Results {

  datatype Result<+T, +E> = Success(value: T) | Failure(error: E)

}
