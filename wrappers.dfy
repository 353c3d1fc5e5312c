/** Optional values: an attribute cheerio may not find, an element id that may be absent. */
module Wrappers {

  datatype Option<+T> = None | Some(value: T) {

    /** The value if present, otherwise `default`. */
    function GetOr(default: T): T
    {
      match this
      case Some(v) => v
      case None => default
    }
  }

  /** A value or a client error carrying its message. */
  datatype Result<+T> = Ok(value: T) | Err(message: string)
}
