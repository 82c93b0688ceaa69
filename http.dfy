/** Values the HTTP handlers of the activity service hand back to their callers. */
module Http {

  /** An optional value, as FastAPI's `Optional[str]` dependencies produce. */
  datatype Option<+T> = None | Some(value: T)

  /** What a handler produces: a JSON body `{"message": ...}` on success, or the
      status code and `detail` text of the `HTTPException` it raises. */
  datatype Response = Ok(message: string) | Err(status: nat, detail: string)

  const Unauthorized: nat := 401
  const NotFound: nat := 404
  const BadRequest: nat := 400
}
