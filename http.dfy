/** What a route handler sees of the request context and what it answers:
    a status with either a JSON value or an `{ error }` body. */
module Http {

  /** The context user `{ id, email, name }` that the auth middleware sets. */
  datatype Identity = Identity(id: string, email: string, name: string)

  /** Fields an error body carries besides `error`: the upload handler adds
      `allowedTypes` or `maxSize`. */
  datatype Extra = NoExtra | AllowedTypes(types: seq<string>) | MaxSize(bytes: int)

  /** The `{ message }` body of handlers that answer with a sentence. */
  datatype Message = Message(message: string)

  datatype Reply<+T> =
    | Ok(status: int, value: T)
    | Err(status: int, error: string, extra: Extra)

  function Fail<T>(status: int, error: string): (r: Reply<T>)
    ensures r.Err? && r.status == status && r.error == error && r.extra == NoExtra
  {
    Err(status, error, NoExtra)
  }
}
