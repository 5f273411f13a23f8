/** The optional value used wherever the modelled Python code returns
    `None` or looks a key up with a default. */
module Options {

  datatype Option<+T> = None | Some(value: T) {

    /** The held value, or `default` for `None` (Python's `x or default`
        and `d.get(k, default)`). */
    function GetOr(default: T): T {
      match this
      case Some(v) => v
      case None => default
    }
  }
}
