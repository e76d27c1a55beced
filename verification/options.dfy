/** A value that may be absent: `null`, `undefined` or a falsy lookup in the source. */
module Options {

  datatype Option<+T> = None | Some(value: T) {

    /** The value, or `default` when absent (`x ?? default`). */
    function GetOr(default: T): T {
      match this
      case Some(v) => v
      case None => default
    }
  }
}
