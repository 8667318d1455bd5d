/** Failure-compatible return types of the services.

    The services report their error paths by raising FastAPI's HTTPException
    with a status code and a detail message; here that becomes a `Failure`
    carrying the same two values. */
module Results {

  datatype Option<T> = None | Some(value: T)

  /** An HTTP error as the services raise it: status code and detail text. */
  datatype HttpError = HttpError(status: nat, detail: string)

  datatype Result<T> = Success(value: T) | Failure(error: HttpError)

  const StatusBadRequest: nat := 400
  const StatusNotFound: nat := 404
  const StatusConflict: nat := 409
  const StatusInternalError: nat := 500

  /** The answer of the application's catch-all exception handler: any
      exception that is not an HTTPException, such as a rejected insert. */
  const InternalError := HttpError(StatusInternalError, "Internal server error")
}
