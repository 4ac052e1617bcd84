/**
 * The exception hierarchy and `custom_exception_handler` of backend/documents/exceptions.py.
 */
module Exceptions {
  import opened Wrappers

  /**
   * A raised exception, by class. The first four are `DocumentError` and its three
   * subclasses; `OtherError` is any exception outside that hierarchy.
   */
  datatype Exc =
    | DocumentError(message: string)
    | FileStorageError(message: string)
    | FileValidationError(message: string)
    | DocumentNotFoundError(message: string)
    | OtherError(message: string)
  {
    /** `isinstance(exc, DocumentError)`. */
    predicate IsDocumentError() { !OtherError? }
  }

  /** The `details` entry: the framework's own response data, or `str(exc)`. */
  datatype Details<D> = Data(data: D) | Text(text: string)

  /** The uniform error body. */
  datatype Envelope<D> = Envelope(error: bool, message: string, details: Details<D>, statusCode: int)

  /** A response produced by the handler: its HTTP status and its body. */
  datatype HandledResponse<D> = HandledResponse(status: int, body: Envelope<D>)

  /** What REST framework's default handler returned: its status and its data. */
  datatype FrameworkResponse<D> = FrameworkResponse(status: int, data: D)

  const GenericMessage: string := "An error occurred"

  /** The message shown for a status the default handler produced. */
  function MessageFor(statusCode: int): (m: string)
    ensures m == GenericMessage <==> statusCode !in {400, 401, 403, 404, 405, 500}
  {
    if statusCode == 400 then "Invalid request data"
    else if statusCode == 401 then "Authentication required"
    else if statusCode == 403 then "Permission denied"
    else if statusCode == 404 then "Resource not found"
    else if statusCode == 405 then "Method not allowed"
    else if statusCode == 500 then "Internal server error"
    else GenericMessage
  }

  /** The six named statuses each get a message of their own. */
  lemma NamedMessagesDistinct(c1: int, c2: int)
    requires c1 in {400, 401, 403, 404, 405, 500} && c2 in {400, 401, 403, 404, 405, 500}
    requires MessageFor(c1) == MessageFor(c2)
    ensures c1 == c2
  {
  }

  /**
   * `custom_exception_handler`: a response from the default handler keeps its status and
   * is wrapped, its data moved into `details`; otherwise the three document exceptions
   * get a response of their own, and anything else (including a bare `DocumentError`)
   * gets none.
   */
  function CustomExceptionHandler<D>(exc: Exc, framework: Option<FrameworkResponse<D>>): (r: Option<HandledResponse<D>>)
    ensures framework.Some? ==> r == Some(HandledResponse(framework.value.status,
              Envelope(true, MessageFor(framework.value.status), Data(framework.value.data), framework.value.status)))
    ensures framework.None? ==>
              (r.Some? <==> exc.FileStorageError? || exc.FileValidationError? || exc.DocumentNotFoundError?)
    ensures framework.None? && r.Some? ==>
              r.value.body.error && r.value.body.details == Text(exc.message) && r.value.body.statusCode == r.value.status
    ensures framework.None? && r.Some? ==> exc.IsDocumentError()
    ensures r.Some? ==> r.value.body.error && r.value.body.statusCode == r.value.status
  {
    match framework
    case Some(resp) =>
      Some(HandledResponse(resp.status, Envelope(true, MessageFor(resp.status), Data(resp.data), resp.status)))
    case None =>
      match exc
      case FileStorageError(m) => Some(HandledResponse(500, Envelope(true, "File storage error", Text(m), 500)))
      case FileValidationError(m) => Some(HandledResponse(400, Envelope(true, "File validation error", Text(m), 400)))
      case DocumentNotFoundError(m) => Some(HandledResponse(404, Envelope(true, "Document not found", Text(m), 404)))
      case _ => None
  }

  /** Without a framework response, each document exception has its fixed status and message. */
  lemma DocumentExceptionStatus<D>(exc: Exc)
    ensures var r := CustomExceptionHandler<D>(exc, None);
      && (exc.FileStorageError? ==> r.Some? && r.value.status == 500 && r.value.body.message == "File storage error")
      && (exc.FileValidationError? ==> r.Some? && r.value.status == 400 && r.value.body.message == "File validation error")
      && (exc.DocumentNotFoundError? ==> r.Some? && r.value.status == 404 && r.value.body.message == "Document not found")
  {
  }
}
