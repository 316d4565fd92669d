/**
 * The Express error middleware: every error that reaches `next(err)` is turned
 * into an HTTP status and the envelope `{ success: false, error: <message> }`.
 */
module ErrorMiddleware {
  import opened Wrappers

  /**
   * What the handler reads from an error object: its `name`, the `value`
   * a Mongoose CastError carries (as a template literal renders it), the
   * `statusCode` own enumerable property (copied by `{...err}`), and `message`.
   * `None` stands for `undefined`.
   */
  datatype ErrorRecord = ErrorRecord(
    name: string,
    value: Option<string>,
    statusCode: Option<int>,
    message: Option<string>)

  datatype Envelope = Envelope(success: bool, error: string)
  datatype ErrorReply = ErrorReply(status: int, body: Envelope)

  const CastErrorName := "CastError"
  const DefaultStatus := 500
  const DefaultMessage := "Server Error"

  /** `${x}` for a value that may be `undefined`. */
  function Rendered(x: Option<string>): string
  {
    if x.Some? then x.value else "undefined"
  }

  /** JavaScript truthiness of a status code and of a message. */
  predicate StatusTruthy(code: Option<int>)
  {
    code.Some? && code.value != 0
  }

  predicate MessageTruthy(m: Option<string>)
  {
    m.Some? && m.value != ""
  }

  /**
   * `new ErrorResponse(message, statusCode)`: an Error whose name is "Error"
   * and which carries the status as an own property.
   */
  function NewErrorResponse(message: string, statusCode: int): (e: ErrorRecord)
    ensures e.name != CastErrorName
    ensures e.statusCode == Some(statusCode) && e.message == Some(message)
  {
    ErrorRecord("Error", None, Some(statusCode), Some(message))
  }

  /** The message of the 404 the handler substitutes for a Mongoose CastError. */
  function CastErrorMessage(value: Option<string>): string
  {
    "Resource not found with id of " + Rendered(value)
  }

  /** `errorHandler(err, req, res, next)`, as the status and body it sends. */
  function ErrorHandler(err: ErrorRecord): (reply: ErrorReply)
    ensures !reply.body.success
    ensures reply.body.error != ""
    ensures reply.status == 404 || Some(reply.status) == err.statusCode || reply.status == DefaultStatus
    // A CastError becomes a 404 whatever status it carried.
    ensures err.name == CastErrorName ==>
      reply == ErrorReply(404, Envelope(false, CastErrorMessage(err.value)))
    // Any other error keeps a carried non-zero status and falls back to 500.
    ensures err.name != CastErrorName ==>
      (StatusTruthy(err.statusCode) ==> reply.status == err.statusCode.value) &&
      (!StatusTruthy(err.statusCode) ==> reply.status == DefaultStatus)
    // ... and keeps a non-empty message, falling back to "Server Error".
    ensures err.name != CastErrorName ==>
      (MessageTruthy(err.message) ==> reply.body.error == err.message.value) &&
      (!MessageTruthy(err.message) ==> reply.body.error == DefaultMessage)
  {
    var error :=
      if err.name == CastErrorName then NewErrorResponse(CastErrorMessage(err.value), 404)
      else err;
    var status := if StatusTruthy(error.statusCode) then error.statusCode.value else DefaultStatus;
    var message := if MessageTruthy(error.message) then error.message.value else DefaultMessage;
    ErrorReply(status, Envelope(false, message))
  }

  /**
   * An ErrorResponse with a non-empty message and a non-zero status reaches
   * the client exactly as it was raised.
   */
  lemma ErrorResponseDelivered(message: string, statusCode: int)
    requires message != "" && statusCode != 0
    ensures ErrorHandler(NewErrorResponse(message, statusCode)) ==
      ErrorReply(statusCode, Envelope(false, message))
  {
  }

  /** The status sent is the default 500 exactly when no usable status was carried (or 500 was). */
  lemma ServerErrorExactly(err: ErrorRecord)
    requires err.name != CastErrorName
    ensures ErrorHandler(err).status == DefaultStatus <==>
      !StatusTruthy(err.statusCode) || err.statusCode == Some(DefaultStatus)
  {
  }
}
