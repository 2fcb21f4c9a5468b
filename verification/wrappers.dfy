/** Failure-carrying datatypes shared by the toolkit model: Python's `None`
    and raised exceptions become values of these types. */
module Wrappers {

  /** An optional value; `None` plays the role of Python's `None`. */
  datatype Option<+T> = None | Some(value: T) {

    /** The carried value, or `default` when there is none. */
    function GetOr(default: T): T {
      match this
      case Some(v) => v
      case None => default
    }
  }

  /** Either a value or the error a Python call would have raised. */
  datatype Result<+T, +E> = Ok(value: T) | Err(error: E)
}
