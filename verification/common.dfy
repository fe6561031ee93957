/** The optional value used throughout the model for Python's `None`. */
module Options {

  datatype Option<+T> = None | Some(value: T) {

    /** The value, or `default` when there is none (Python's `x if x is not None else default`). */
    function GetOr(default: T): T {
      match this
      case Some(v) => v
      case None => default
    }
  }
}

/** Octets, as Python's `bytes` holds them. */
module Bytes {

  type byte = x: int | 0 <= x < 256
}
