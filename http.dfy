/**
 * The slice of Go's `net/http` the handlers touch: method and status constants, what a
 * handler receives (method, path, a body that may fail to read or to decode) and what it
 * leaves in its `http.ResponseWriter` (an explicit status or none, header entries, and
 * what was written to the body).
 */
module Http {
  import opened Wrappers

  const MethodGet: string := "GET"
  const MethodPost: string := "POST"
  const MethodPut: string := "PUT"
  const MethodDelete: string := "DELETE"
  const MethodOptions: string := "OPTIONS"

  const StatusOK: int := 200
  const StatusCreated: int := 201
  const StatusBadRequest: int := 400
  const StatusNotFound: int := 404
  const StatusMethodNotAllowed: int := 405
  const StatusInternalServerError: int := 500

  /**
   * A request body as the handler sees it after reading and decoding it: reading failed,
   * the bytes did not decode into the expected record, or they decoded to `value`.
   */
  datatype Body<T> = Unreadable | Malformed | Decoded(value: T)

  datatype Request<T> = Request(verb: string, path: string, body: Body<T>)

  /** What the handler wrote to the response body, or handed to a library to write. */
  datatype Payload =
    | NoPayload
    | Bytes(data: string)       // `w.Write(data)`
    | Served(name: string)      // `http.ServeContent` under this name
    | FileStream(name: string)  // `io.Copy` of the opened file

  /**
   * The state a handler leaves its response writer in. `status` is the argument of
   * `WriteHeader`, or `None` when the handler never called it.
   */
  datatype Response = Response(status: Option<int>, header: map<string, string>, payload: Payload)

  /** A handler's response together with the store or filesystem operations it invoked, in order. */
  datatype Handled<C> = Handled(response: Response, calls: seq<C>)

  /** A response carrying only an explicit status. */
  function StatusOnly(code: int): Response
  {
    Response(Some(code), map[], NoPayload)
  }

  /** A response the handler did not touch at all (the `OPTIONS` branches). */
  function Untouched(): Response
  {
    Response(None, map[], NoPayload)
  }

  /**
   * The status the client receives when the handler itself decides it: the explicit
   * one, or 200, which `net/http` sends when a handler writes (or returns) without
   * calling `WriteHeader`. For a `Served` payload the library decides, so this is the
   * status of a plain, unconditional request.
   */
  function SentStatus(r: Response): int
  {
    match r.status
    case Some(c) => c
    case None => StatusOK
  }
}
