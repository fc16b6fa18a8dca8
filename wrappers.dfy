/** Option and Result types and the handlers' error taxonomy. */
module Wrappers {

  datatype Option<+T> = None | Some(value: T)

  /** The failures a handler can report, with the HTTP status each is surfaced as. */
  datatype Error =
    | Conflict         // 400: duplicate email on register
    | Unauthenticated  // 401: bad credentials
    | NotFound         // 404: entry absent or not owned by the caller
    | Validation       // 422: a query parameter outside its declared bounds

  datatype Result<+T> = Ok(value: T) | Err(error: Error)
}
