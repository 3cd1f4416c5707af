/**
  exception/RestExceptionHandler.kt: the two failures the service and the
  method validation raise, and the HTTP error body each is translated to.
*/
module Errors {
  import opened Text

  const NotFoundStatus: int := 404
  const BadRequestStatus: int := 400
  /** The separator between constraint-violation messages. */
  const MessageSeparator: string := "; "

  /** NotFoundException(message), or ConstraintViolationException with its violations' messages in iteration order. */
  datatype Failure = NotFound(message: string) | ConstraintViolation(messages: seq<string>)

  /** The response body: ApiError(status, message). */
  datatype ApiError = ApiError(status: int, message: string)

  /** The exception handler: NotFound becomes 404 with the message verbatim, a violation 400 with its messages joined by "; ". */
  function Handle(f: Failure): (r: ApiError)
    ensures f.NotFound? ==> r == ApiError(NotFoundStatus, f.message)
    ensures f.ConstraintViolation? ==> r.status == BadRequestStatus
  {
    match f
    case NotFound(message) => ApiError(NotFoundStatus, message)
    case ConstraintViolation(messages) => ApiError(BadRequestStatus, Join(messages, MessageSeparator))
  }

  /** The status tells the two failures apart. */
  lemma StatusDistinguishes(f: Failure, g: Failure)
    requires Handle(f).status == Handle(g).status
    ensures f.NotFound? <==> g.NotFound?
  {
  }

  /** A single violation's message is reported verbatim. */
  lemma SingleViolationVerbatim(message: string)
    ensures Handle(ConstraintViolation([message])) == ApiError(BadRequestStatus, message)
  {
  }

  /** The reported message starts with the first violation's message and ends with the last one's. */
  lemma ViolationMessageEnds(messages: seq<string>)
    requires |messages| > 0
    ensures var m := Handle(ConstraintViolation(messages)).message;
      && |messages[0]| <= |m| && m[..|messages[0]|] == messages[0]
      && |messages[|messages| - 1]| <= |m| && m[|m| - |messages[|messages| - 1]|..] == messages[|messages| - 1]
  {
    JoinEnds(messages, MessageSeparator);
  }

  /** The reported message is every violation message plus two characters per separator. */
  lemma ViolationMessageLength(messages: seq<string>)
    requires |messages| > 0
    ensures |Handle(ConstraintViolation(messages)).message| == TotalLength(messages) + 2 * (|messages| - 1)
  {
    JoinLength(messages, MessageSeparator);
  }

  /** Two violation groups are reported as their two messages joined by one separator. */
  lemma ViolationMessagesConcat(a: seq<string>, b: seq<string>)
    requires |a| > 0 && |b| > 0
    ensures Handle(ConstraintViolation(a + b)).message
         == Handle(ConstraintViolation(a)).message + MessageSeparator + Handle(ConstraintViolation(b)).message
  {
    JoinConcat(a, b, MessageSeparator);
  }
}
