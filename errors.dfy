/**
 * The API error classes of errors.ts: `BaseAPIError` checks its three
 * arguments in order and throws a `ParameterError` naming the first one
 * that is missing or invalid; `GenericAxiosError` and
 * `UnexpectedResponseContentType` only pass their arguments on to it.
 */
module Errors {
  import opened Wrappers

  const USER_NOT_LOGGED: string := "User not authenticated, unable to continue"
  const INVALID_USER_ID: string := "Invalid user ID"
  const INVALID_POST_ID: string := "Invalid post ID"
  const INVALID_THREAD_ID: string := "Invalid thread ID"
  const INVALID_ERROR_ID: string := "The error ID cannot be null and must be greater than zero"
  const INVALID_ERROR_MESSAGE: string := "The error message cannot be null or empty"
  const INVALID_ERROR_ERROR: string := "The reporting error cannot be null"

  /** A JavaScript number: a finite value, `NaN` or one of the infinities. */
  datatype JsNumber = Finite(value: real) | NaN | PosInfinity | NegInfinity

  /** The `Error` object being reported; only its identity as a present value matters here. */
  datatype ReportedError = ReportedError(name: string, message: string)

  /** The thrown `ParameterError`, with its message. */
  datatype ParameterError = ParameterError(message: string)

  /** `IBaseError`; `None` stands for a field that is `null` or `undefined`. */
  datatype ErrorArgs = ErrorArgs(id: Option<JsNumber>, message: Option<string>, error: Option<ReportedError>)

  /** Which class is being built; the subclasses add nothing to the checks. */
  datatype ErrorKind = BaseAPIError | GenericAxiosError | UnexpectedResponseContentType

  /** `!!id`: `null`, `undefined`, zero and `NaN` are falsy. */
  predicate IdTruthy(id: Option<JsNumber>) {
    match id
    case None => false
    case Some(Finite(x)) => x != 0.0
    case Some(NaN) => false
    case Some(_) => true
  }

  /** `id < 0`, where `null` and `undefined` compare as 0 and `NaN` respectively. */
  predicate IdBelowZero(id: Option<JsNumber>) {
    match id
    case Some(Finite(x)) => x < 0.0
    case Some(NegInfinity) => true
    case _ => false
  }

  /** `!!message` on a string: absent and empty strings are falsy. */
  predicate MessageTruthy(message: Option<string>) {
    message.Some? && message.value != ""
  }

  /** The identifier the documentation asks for: a number greater than zero. */
  predicate PositiveId(id: Option<JsNumber>) {
    id == Some(PosInfinity) || (id.Some? && id.value.Finite? && id.value.value > 0.0)
  }

  /**
   * The checks of the `BaseAPIError` constructor, in source order: the
   * result is the error thrown, or `None` when construction succeeds.
   * The identifier check rejects exactly the identifiers that are not
   * greater than zero; the message check exactly the absent or empty
   * messages; the error check exactly an absent error; each is reached
   * only when the earlier ones passed.
   */
  function CheckArgs(args: ErrorArgs): (r: Option<ParameterError>)
    ensures r == Some(ParameterError(INVALID_ERROR_ID)) <==> !PositiveId(args.id)
    ensures r == Some(ParameterError(INVALID_ERROR_MESSAGE)) <==>
      PositiveId(args.id) && (args.message == None || args.message == Some(""))
    ensures r == Some(ParameterError(INVALID_ERROR_ERROR)) <==>
      PositiveId(args.id) && args.message.Some? && args.message.value != "" && args.error == None
    ensures r == None <==>
      PositiveId(args.id) && args.message.Some? && args.message.value != "" && args.error.Some?
  {
    if !IdTruthy(args.id) || IdBelowZero(args.id) then Some(ParameterError(INVALID_ERROR_ID))
    else if !MessageTruthy(args.message) || args.message == Some("") then Some(ParameterError(INVALID_ERROR_MESSAGE))
    else if args.error.None? then Some(ParameterError(INVALID_ERROR_ERROR))
    else None
  }

  /** A constructed error of one of the three classes. */
  class ApiError {
    const kind: ErrorKind
    var id: JsNumber
    var message: string
    var error: ReportedError

    /** The field assignments once the checks have passed. */
    constructor(kind: ErrorKind, id: JsNumber, message: string, error: ReportedError)
      ensures this.kind == kind && this.id == id && this.message == message && this.error == error
    {
      this.kind := kind;
      this.id := id;
      this.message := message;
      this.error := error;
    }
  }

  /**
   * `new BaseAPIError(args)`, `new GenericAxiosError(args)` or
   * `new UnexpectedResponseContentType(args)`: the constructor throws the
   * first failed check, and otherwise copies the three arguments into the
   * new object. Whether and how it fails does not depend on the class.
   */
  method NewApiError(kind: ErrorKind, args: ErrorArgs) returns (r: Result<ApiError, ParameterError>)
    ensures r.Failure? <==> CheckArgs(args).Some?
    ensures r.Failure? ==> r.error == CheckArgs(args).value
    ensures r.Success? ==>
      (fresh(r.value) && r.value.kind == kind
       && Some(r.value.id) == args.id && Some(r.value.message) == args.message && Some(r.value.error) == args.error)
  {
    if !IdTruthy(args.id) || IdBelowZero(args.id) {
      return Failure(ParameterError(INVALID_ERROR_ID));
    }
    if !MessageTruthy(args.message) || args.message == Some("") {
      return Failure(ParameterError(INVALID_ERROR_MESSAGE));
    }
    if args.error.None? {
      return Failure(ParameterError(INVALID_ERROR_ERROR));
    }
    var e := new ApiError(kind, args.id.value, args.message.value, args.error.value);
    return Success(e);
  }

  /**
   * A fractional identifier such as 0.5 is accepted, and so is an infinite
   * one; zero, `NaN` and every negative value are refused.
   */
  lemma IdBoundaries()
    ensures PositiveId(Some(Finite(0.5))) && PositiveId(Some(PosInfinity))
    ensures !PositiveId(Some(Finite(0.0))) && !PositiveId(Some(NaN)) && !PositiveId(Some(NegInfinity))
    ensures forall x: real :: x < 0.0 ==> CheckArgs(ErrorArgs(Some(Finite(x)), Some("m"), None)) == Some(ParameterError(INVALID_ERROR_ID))
  {
  }
}
