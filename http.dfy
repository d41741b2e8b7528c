/** What a route hands back to Fastify: the handler's return value (sent
    as a 200 JSON body) or reply.status(n).send({ error }). */
module Http {
  import opened Js

  /** A response: Success carries the fields of a 200 body; Failure the
      status code and the `error` field, None when the body has none. */
  datatype Reply<+T> = Success(body: T) | Failure(status: nat, error: Option<string>)

  /** What a preHandler hook decides: let the route run, or answer in its
      place with a status and an error. */
  datatype Hook = Continue | Halt(status: nat, error: string)

  function Fail<T>(status: nat, error: string): Reply<T> {
    Failure(status, Some(error))
  }
}
