/** The error taxonomy: the `ErrorCode` table, the five sealed kinds of
    business exception, and the advice that turns an exception into an HTTP
    status and error body. */
module Errors {
  import opened Seqs
  import opened Strings

  /** The six entries of the error-code table. */
  datatype ErrorCode =
    | ValidationError
    | Unauthorized
    | Forbidden
    | NotFound
    | Duplicate
    | InternalServerError
  {
    /** The public error code string. */
    function Code(): string {
      match this
      case ValidationError => "EFC9400"
      case Unauthorized => "EFC9457"
      case Forbidden => "EFC9403"
      case NotFound => "EFC9404"
      case Duplicate => "EFC9409"
      case InternalServerError => "EFC9500"
    }

    /** The numeric value of the entry's `HttpStatus`. */
    function Status(): int {
      match this
      case ValidationError => 400
      case Unauthorized => 401
      case Forbidden => 403
      case NotFound => 404
      case Duplicate => 409
      case InternalServerError => 500
    }

    function Title(): string {
      match this
      case ValidationError => "Validation Error"
      case Unauthorized => "Unauthorized"
      case Forbidden => "Forbidden"
      case NotFound => "Not Found"
      case Duplicate => "Conflict"
      case InternalServerError => "Internal Server Error"
    }
  }

  /** No two entries share a code string or an HTTP status, and every code
      carries the common "EFC9" prefix. */
  lemma ErrorCodeTableWellFormed()
    ensures forall a: ErrorCode, b: ErrorCode :: a != b ==> a.Code() != b.Code()
    ensures forall a: ErrorCode, b: ErrorCode :: a != b ==> a.Status() != b.Status()
    ensures forall a: ErrorCode :: "EFC9" <= a.Code()
  {
  }

  /** The two rows the login API test relies on. */
  lemma LoginApiTestRows()
    ensures Unauthorized.Code() == "EFC9457" && Unauthorized.Status() == 401
    ensures Unauthorized.Title() == "Unauthorized"
    ensures ValidationError.Code() == "EFC9400" && ValidationError.Status() == 400
    ensures ValidationError.Title() == "Validation Error"
  {
  }

  /** The sealed `BusinessException` hierarchy: exactly five kinds, each
      carrying the caller's message. */
  datatype BusinessException =
    | ResourceNotFoundException(message: string)
    | ValidationException(message: string)
    | UnauthorizedException(message: string)
    | ForbiddenException(message: string)
    | DuplicateException(message: string)
  {
    /** The fixed `ErrorCode` each kind passes to the base class. */
    function ErrorCodeOf(): (c: ErrorCode)
      ensures c != InternalServerError
    {
      match this
      case ResourceNotFoundException(_) => NotFound
      case ValidationException(_) => ValidationError
      case UnauthorizedException(_) => Unauthorized
      case ForbiddenException(_) => Forbidden
      case DuplicateException(_) => Duplicate
    }
  }

  /** Distinct kinds never share an error code, so the code identifies the
      kind and the internal-error code is left for failures outside the
      taxonomy. */
  lemma ErrorCodeOfIdentifiesKind(e1: BusinessException, e2: BusinessException)
    ensures e1.ErrorCodeOf() == e2.ErrorCodeOf() && e1.message == e2.message ==> e1 == e2
  {
  }

  /** The outcome of a service call: a value, or the business exception it
      throws. */
  datatype Result<+T> = Ok(value: T) | Err(error: BusinessException)

  /** A state-changing service call: the state after the call's own steps,
      and its outcome. */
  datatype Step<+S, +T> = Step(state: S, result: Result<T>)

  /** The body the advice sends back. */
  datatype ErrorReply = ErrorReply(status: int, errorCode: ErrorCode, message: string)

  /** The five `@ExceptionHandler` methods, each with the status it hard-codes. */
  function HandleBusinessException(e: BusinessException): (r: ErrorReply)
    ensures r.status == e.ErrorCodeOf().Status()
    ensures r.errorCode == e.ErrorCodeOf()
    ensures r.message == e.message
  {
    match e
    case ResourceNotFoundException(m) => ErrorReply(404, e.ErrorCodeOf(), m)
    case ValidationException(m) => ErrorReply(400, e.ErrorCodeOf(), m)
    case UnauthorizedException(m) => ErrorReply(401, e.ErrorCodeOf(), m)
    case ForbiddenException(m) => ErrorReply(403, e.ErrorCodeOf(), m)
    case DuplicateException(m) => ErrorReply(409, e.ErrorCodeOf(), m)
  }

  /** A bean-validation failure on one request field. */
  datatype FieldError = FieldError(field: string, defaultMessage: Option<string>)

  const DefaultFieldMessage: string := "유효하지 않은 값입니다."
  const DefaultValidationMessage: string := "요청값이 올바르지 않습니다."

  /** "field: message", with the default text for a missing message. */
  function FormatFieldError(fe: FieldError): string {
    fe.field + ": " + (if fe.defaultMessage.Some? then fe.defaultMessage.value else DefaultFieldMessage)
  }

  function FormatAll(errs: seq<FieldError>): (r: seq<string>)
    ensures |r| == |errs|
    ensures forall i :: 0 <= i < |errs| ==> r[i] == FormatFieldError(errs[i])
  {
    if |errs| == 0 then [] else [FormatFieldError(errs[0])] + FormatAll(errs[1..])
  }

  /** The handler for `MethodArgumentNotValidException`: join the formatted
      field errors with ", " and fall back to the default text when the
      result is blank. */
  function HandleFieldErrors(errs: seq<FieldError>): (r: ErrorReply)
    ensures r.status == 400 && r.errorCode == ValidationError
    ensures r == HandleBusinessException(ValidationException(r.message))
  {
    var joined := JoinWith(FormatAll(errs), ", ");
    ErrorReply(400, ValidationError, if IsBlank(joined) then DefaultValidationMessage else joined)
  }

  /** `t` occurs in `s` at some position. */
  predicate Contains(s: string, t: string) {
    exists k :: 0 <= k <= |s| && t <= s[k..]
  }

  lemma {:induction false} JoinContainsEachPart(parts: seq<string>, sep: string, i: nat)
    requires i < |parts|
    ensures Contains(JoinWith(parts, sep), parts[i])
  {
    var j := JoinWith(parts, sep);
    if i == 0 {
      JoinWithPrefix(parts, sep);
      assert j[0..] == j;
    } else {
      JoinContainsEachPart(parts[1..], sep, i - 1);
      var rest := JoinWith(parts[1..], sep);
      var k :| 0 <= k <= |rest| && parts[i] <= rest[k..];
      var off := |parts[0]| + |sep|;
      assert j == parts[0] + sep + rest;
      assert j[off + k..] == rest[k..];
    }
  }

  /** A formatted field error is never blank: it contains the ':' separator. */
  lemma FormattedIsNotBlank(fe: FieldError)
    ensures !IsBlank(FormatFieldError(fe))
  {
    var s := FormatFieldError(fe);
    assert s[|fe.field|] == ':';
  }

  /** The field-error reply: the default text exactly when there are no field
      errors, and otherwise a message that starts with the first field name and
      contains every "field: message" entry. */
  lemma {:induction false} FieldErrorMessage(errs: seq<FieldError>)
    ensures |errs| == 0 ==> HandleFieldErrors(errs).message == DefaultValidationMessage
    ensures |errs| > 0 ==> errs[0].field <= HandleFieldErrors(errs).message
    ensures forall i :: 0 <= i < |errs| ==> Contains(HandleFieldErrors(errs).message, FormatFieldError(errs[i]))
  {
    var parts := FormatAll(errs);
    var joined := JoinWith(parts, ", ");
    if |errs| > 0 {
      JoinWithPrefix(parts, ", ");
      FormattedIsNotBlank(errs[0]);
      assert parts[0] <= joined;
      assert !IsBlank(joined) by {
        var k := |errs[0].field|;
        assert joined[k] == parts[0][k];
        assert !IsWhitespace(parts[0][k]);
      }
      assert errs[0].field <= parts[0];
      forall i | 0 <= i < |errs|
        ensures Contains(HandleFieldErrors(errs).message, FormatFieldError(errs[i]))
      {
        JoinContainsEachPart(parts, ", ", i);
      }
    }
  }
}
