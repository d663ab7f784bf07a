/** Failure-carrying values shared by the three tools. */
module Wrappers {

  /** A value that may be absent: an external query that failed, a file that cannot be read. */
  datatype Option<+T> = None | Some(value: T) {

    /** The value, or `default` when absent. */
    function GetOr(default: T): T {
      match this
      case Some(v) => v
      case None => default
    }
  }

  /** A run of a script that either completes with a value or stops on an uncaught exception. */
  datatype Result<+R, +E> = Success(value: R) | Failure(error: E)

  /** The only uncaught exception the modelled scripts can raise: `int()` of a non-numeral. */
  datatype Crash = ValueError
}
