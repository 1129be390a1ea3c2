/**
  The pieces of Flask's request/response behaviour that every handler of the
  two services shares: an optional JSON field, the reply a view function ends
  with, and the `try: ... except Exception: abort(status)` wrapper that the
  handlers put around their bodies.
 */
module Http {

  /** A JSON body field that may be absent (`body.get(name, None)`). */
  datatype Option<T> = None | Some(value: T)

  /**
    How a handler ends.
    - Ok: a 200 response carrying the handler's JSON payload;
    - Abort: `abort(status)`, rendered by the registered error handler;
    - Raised: an exception that is not an HTTP abort (an AttributeError on
      `None`, a TypeError on a missing body field) raised inside a `try` block;
      it never leaves a handler, because the `except` clause turns it into an
      Abort;
    - NoResponse: the view function fell off its end and returned `None`;
    - AuthError: the permission decorator refused the call because the caller
      lacks `missingScope`; the handler body did not run.
   */
  datatype Reply<T> =
    | Ok(body: T)
    | Abort(status: int)
    | Raised
    | NoResponse
    | AuthError(missingScope: string)

  const NotFound: int := 404
  const Unprocessable: int := 422

  /**
    `try: <block> except Exception: abort(status)`. `abort` works by raising an
    HTTPException, which is itself an Exception, so an `abort(404)` inside the
    block is caught like any other failure and re-raised as `abort(status)`.
   */
  function Catch<T>(block: Reply<T>, status: int): (r: Reply<T>)
    ensures r.Abort? <==> block.Abort? || block.Raised?
    ensures r.Abort? ==> r.status == status
    ensures !r.Abort? ==> r == block
  {
    if block.Abort? || block.Raised? then Abort(status) else block
  }

  /** Python truthiness of an optional string or list field: present and non-empty. */
  predicate Truthy<T>(field: Option<seq<T>>)
  {
    field.Some? && |field.value| > 0
  }
}
