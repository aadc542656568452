/** Nullable values and failing computations, standing in for Java's `null`
    and thrown exceptions. */
module Wrappers {

  /** A Java reference that may be null: `None` is null. */
  datatype Option<+T> = None | Some(value: T) {

    /** The value, or `default` when null (Java's `x == null ? default : x`). */
    function GetOr(default: T): T {
      match this
      case Some(v) => v
      case None => default
    }
  }

  /** The exceptions the modelled code can throw. */
  datatype Error =
    | UnsupportedTemporalType   // java.time.temporal.UnsupportedTemporalTypeException
    | DateTimeOutOfRange        // java.time.DateTimeException from an Instant bound
    | IllegalArgument           // java.lang.IllegalArgumentException
    | NullPointer               // java.lang.NullPointerException

  /** Either a value or the exception that ended the computation. */
  datatype Result<+T> = Success(value: T) | Failure(error: Error)
}
