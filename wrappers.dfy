/** Small value types shared by the whole model. */
module Wrappers {

  /** A nullable value: Python's `T | None`. */
  datatype Option<T> = None | Some(value: T)

  /** One field of a partial-update request body: left out of the request, or sent
      (possibly with an explicit null, when the field's type is itself an Option). */
  datatype Field<T> = Unset | Sent(value: T)

  /** The outcome of a request handler: a value, or one of the client errors the
      handlers raise (NotFound, BadRequest) or the storage layer raises (Conflict). */
  datatype Result<T> =
    | Ok(value: T)
    | NotFound(detail: string)
    | BadRequest(detail: string)
    | Conflict(detail: string)
}
