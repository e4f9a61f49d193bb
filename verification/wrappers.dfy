/** Small shared datatypes: optional values, handler replies and the HTTP
    status codes the controllers answer with. */
module Wrappers {

  datatype Option<+T> = None | Some(value: T)

  /** The reply of a request handler: a success code with a body, or an
      error code (the message text is not modelled). */
  datatype Reply<+T> = Ok(code: int, body: T) | Fail(code: int)

  const OK: int := 200
  const CREATED: int := 201
  const BAD_REQUEST: int := 400
  const UNAUTHORIZED: int := 401
  const FORBIDDEN: int := 403
  const NOT_FOUND: int := 404
  const SERVER_ERROR: int := 500

  /** A request field as the handler sees it: absent (`undefined`), or
      supplied, with the value `Number(..)` / `new Date(..)` gives it;
      `None` stands for NaN or an invalid date. */
  datatype Input<+T> = Undefined | Supplied(parsed: Option<T>)
}
