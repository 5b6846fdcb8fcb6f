/** PHP's nullable values: `?string`, `?int`, `?DateTimeInterface`, `?Playlist`. */
module Nullable {

  /** `None` is PHP's `null`. */
  datatype Option<+T> = None | Some(value: T) {

    /** The value, or `default` when null (`$x ?? $default`, `(string) $x`). */
    function GetOr(default: T): T
    {
      match this
      case Some(v) => v
      case None => default
    }
  }
}
