/** Optional values and fallible results, used for the lookups that may miss
    and for the Python exceptions the pipeline can raise. */
module Results {

  /** A value that may be absent: a missing dictionary entry, or a pandas cell
      holding NaN. */
  datatype Option<+T> = None | Some(value: T) {

    /** The value if present, otherwise `default`. */
    function GetOr(default: T): T {
      match this
      case Some(v) => v
      case None => default
    }
  }

  /** The exceptions the modelled code lets escape to its caller. */
  datatype Error =
    | MissingColumn(column: string)   // pandas KeyError on a frame without that column
    | EmptyMax                        // Python `max()` of an empty sequence

  /** Either a computed value or the exception that stopped the computation. */
  datatype Result<+R> = Success(value: R) | Failure(error: Error)
}
