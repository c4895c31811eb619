/** Wrappers used for the source's nullable values and raised errors. */
module Wrappers {

  /** A nullable value: `None` stands for the source's `None` / SQL NULL. */
  datatype Option<+T> = None | Some(value: T) {
    function GetOr(default: T): T {
      match this
      case Some(v) => v
      case None => default
    }
  }

  /** The outcome of an operation that either returns a value or raises. */
  datatype Result<+R, +E> = Success(value: R) | Failure(error: E)
}

/** The HTTP errors the service layer raises (FastAPI's `HTTPException`). */
module Http {

  datatype HttpError = HttpError(status: int, detail: string)

  const BadRequest: int := 400
  const Unauthorized: int := 401
  const Forbidden: int := 403
  const NotFound: int := 404

  /** The 404 every endpoint and service raises for an unknown user id. */
  const UserNotFound := HttpError(NotFound, "User not found")
}

/** Field-level request validation: each complaint names the field it is about. */
module Validation {
  import opened Wrappers

  datatype FieldError = Missing(field: string) | OutOfRange(field: string)

  /** The complaint about a required field, if any. */
  function FieldErrors<T>(field: string, v: Option<T>, ok: T -> bool): (errs: seq<FieldError>)
    ensures errs == [] <==> v.Some? && ok(v.value)
    ensures v.None? ==> errs == [Missing(field)]
    ensures v.Some? && !ok(v.value) ==> errs == [OutOfRange(field)]
  {
    match v
    case None => [Missing(field)]
    case Some(x) => if ok(x) then [] else [OutOfRange(field)]
  }

  /** The complaint about an optional field, if any: an absent field is never wrong. */
  function OptionalFieldErrors<T>(field: string, v: Option<T>, ok: T -> bool): (errs: seq<FieldError>)
    ensures errs == [] <==> (v.Some? ==> ok(v.value))
    ensures v.Some? && !ok(v.value) ==> errs == [OutOfRange(field)]
  {
    match v
    case None => []
    case Some(x) => if ok(x) then [] else [OutOfRange(field)]
  }
}
