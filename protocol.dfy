/**
 * The request and response records exchanged between the client and the
 * server (generated from the service's interface definition), and the
 * shape a request must have for the server not to panic on it.
 */
module Protocol {

  datatype Option<+T> = None | Some(value: T)

  datatype RequestType = Ping | Set | Get | Del | Exit | Illegal

  /** Declaration order matters: the first variant is the zero value. */
  datatype ResponseType = Ok | Value | Error

  datatype Request = Request(key: Option<seq<string>>, value: Option<string>, requestType: RequestType)

  datatype Response = Response(value: Option<string>, responseType: ResponseType)

  /** `Default::default()`: no value and the zero response type. */
  const DefaultResponse: Response := Response(None, Ok)

  /**
   * The server unwraps the key list and its first element for Set and Get,
   * the value for Set and the key list for Del; any other request it
   * accepts as it is.
   */
  predicate WellFormed(req: Request)
  {
    match req.requestType
    case Set => req.key.Some? && |req.key.value| >= 1 && req.value.Some?
    case Get => req.key.Some? && |req.key.value| >= 1
    case Del => req.key.Some?
    case _ => true
  }

  /** A request with no fields, as both parsers start from. */
  function Bare(t: RequestType): Request
  {
    Request(None, None, t)
  }
}
