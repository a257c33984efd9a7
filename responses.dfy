/** What a service hands back to the HTTP layer: the kind of response the
    ResponseBuilder helpers would build, with its body, instead of an Express
    response object. */
module Responses {
  import opened Wrappers

  /** The failure responses: MissingContent (400), NotFound (404), a
      BuildResponse with status 400, and ServerError (503). */
  datatype Error = MissingContent | NotFound | BadRequest | ServerError

  /** CreateSuccessful (201), GetSuccessful (200), UpdateSuccessful (200, with
      or without a body), DeleteSuccessful (204), or a failure. */
  datatype Outcome<T> =
    | Created
    | Retrieved(body: T)
    | Updated(updated: Option<T>)
    | Deleted
    | Failed(error: Error)

  /** The HTTP status the response builder attaches to an outcome. */
  function StatusCode<T>(o: Outcome<T>): int {
    match o
    case Created => 201
    case Retrieved(_) => 200
    case Updated(_) => 200
    case Deleted => 204
    case Failed(MissingContent) => 400
    case Failed(NotFound) => 404
    case Failed(BadRequest) => 400
    case Failed(ServerError) => 503
  }
}
