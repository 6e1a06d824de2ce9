/** Outcomes of the store's operations: a value, or the exception the service throws. */
module Results {

  datatype Option<+T> = None | Some(value: T)

  /** The exceptions that the modelled operations raise. */
  datatype Failure =
    | ResourceNotFound   // the application's ResourceNotFoundException
    | BadApiRequest      // the application's BadApiRequest
    | IndexOutOfBounds   // String.substring called with a negative index
    | FileAlreadyExists  // Files.copy onto a path that already exists

  datatype Result<+T> = Ok(value: T) | Err(error: Failure)
}
