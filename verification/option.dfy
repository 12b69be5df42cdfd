/**
  A value that may be missing: the model's form of JavaScript's `null` and
  Python's `None`.
 */
module Optional {

  datatype Option<+T> = None | Some(value: T) {

    /** The value, falling back to `fallback` when it is missing (`v ?? d`, `v or d`). */
    function GetOr(fallback: T): T {
      if Some? then value else fallback
    }
  }
}
