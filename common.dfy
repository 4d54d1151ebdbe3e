/** Shared vocabulary of the service layer: nullable values, results that
    carry the exception a Java method would throw, and the "null means keep"
    rule that every partial update applies field by field. */
module Common {

  /** A Java reference that may be null. */
  datatype Option<+T> = None | Some(value: T)

  /** The outcome of a Java method: its return value, or the exception it throws. */
  datatype Result<+R> = Success(value: R) | Failure(error: Failure)

  /** The HTTP status a ResourceException carries. `Unstated` stands for the
      two-argument constructor, which names no status. */
  datatype Status = NotFound | InternalServerError | Conflict | Unstated

  /** The exceptions the modelled code can throw. */
  datatype Failure =
    | ResourceException(status: Status)
    | UsernameNotFoundException
    | ArrayIndexOutOfBoundsException
    | NullPointerException
    | IllegalArgumentException

  /** `patch == null ? stored : patch`: the value a setter receives in a
      partial update. */
  function KeepUnlessSupplied<T>(stored: T, patch: Option<T>): (r: T)
    ensures patch.Some? ==> r == patch.value
    ensures patch.None? ==> r == stored
  {
    match patch
    case Some(v) => v
    case None => stored
  }
}
