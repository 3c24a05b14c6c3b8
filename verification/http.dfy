/**
 * The HTTP layer the handlers answer through: the status codes they use and
 * the shape of a reply. Error replies carry a fixed message text that is not
 * modelled; only their status is.
 */
module Http {
  import opened Wrappers

  const OK: int := 200
  const Created: int := 201
  const NoContent: int := 204
  const BadRequest: int := 400
  const Unauthorized: int := 401
  const NotFound: int := 404
  const Conflict: int := 409
  const InternalServerError: int := 500

  /** A reply: its status and, when the handler sends one, the JSON payload. */
  datatype Reply<T> = Reply(status: int, body: Option<T>)

  /** A reply with an error body: only the status is observable here. */
  function Fail<T>(status: int): Reply<T> {
    Reply(status, None)
  }

  /** A reply carrying the service's result. */
  function Send<T>(status: int, body: T): Reply<T> {
    Reply(status, Some(body))
  }

  /** The reply of an endpoint that may change a table, together with the table after it. */
  datatype Exchange<S, T> = Exchange(state: S, reply: Reply<T>)
}
