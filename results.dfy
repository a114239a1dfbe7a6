/** Success/failure wrappers shared by the modules of the model. */
module Results {

  datatype Option<+T> = None | Some(value: T)

  /** The outcome of an operation that either produces a value or fails with an error. */
  datatype Result<+R, +E> = Success(value: R) | Failure(error: E)

  /** An `HTTPException` a route raises: its status code and detail text. */
  datatype HttpException = HttpException(status: nat, detail: string)
}
