/**
  The error kinds the route handlers return. The handlers' `?` on a hashing
  or storage failure is `Internal`; how each kind becomes an HTTP status is
  decided outside the handlers modelled here.
 */
module WebErrors {

  datatype WebError =
    | NotFound
    | Unauthorized
    | Forbidden
    | BadRequest
    | InvalidInternalState
    | Internal
}
