/** Optional values, the exceptions the modelled code can raise, and results
    that either carry a value or the exception that was raised instead. */
module Common {

  /** A value that may be absent: a dictionary key that may be missing. */
  datatype Option<+T> = None | Some(value: T) {

    /** `d.get(key, default)`: the value when present, otherwise `default`. */
    function GetOr(default: T): T
    {
      match this
      case Some(v) => v
      case None => default
    }
  }

  /** The exceptions that reach a caller. */
  datatype Error =
    | KeyError(key: string)                  // `d['key']` on a dictionary without that key
    | ForeignKeyViolation(accountId: string) // the store rejects a row whose account does not exist
    | ValueError(message: string)            // a malformed access URL

  /** Either the value an operation returns or the exception it raises. */
  datatype Result<+T> = Ok(value: T) | Err(error: Error)
}
