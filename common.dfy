/** Small shared vocabulary: optional values, results, and the HTTP status
    a request handler of the parking application answers with. */
module Common {

  datatype Option<+T> = None | Some(value: T)

  datatype Result<+T, +E> = Success(value: T) | Failure(error: E)

  /** The outcome of one request handler: `Ok` is `jsonify(success=True)`
      (status 200); the others are the error statuses the handlers produce. */
  datatype Response =
    | Ok            // 200
    | BadRequest    // 400: missing or blank plate
    | NotFound      // 404: no car with that id
    | ServerError   // 500: an exception Flask turns into an internal error
}
