/** Option and Result, the two failure-carrying shapes the Rust code uses. */
module Wrappers {

  datatype Option<+T> = None | Some(value: T) {
    /** `Option::unwrap_or`: the carried value, or the default when there is none. */
    function GetOr(default: T): T {
      match this
      case Some(v) => v
      case None => default
    }
  }

  datatype Result<+T, +E> = Ok(value: T) | Err(error: E)
}
