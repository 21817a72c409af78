/** Optional values, and results that may be an exception. */
module Options {
  datatype Option<+T> = None | Some(value: T)
  {
    function GetOr(default: T): T {
      if None? then default else value
    }
  }

  datatype Result<+T, +E> = Ok(value: T) | Err(error: E)
}
