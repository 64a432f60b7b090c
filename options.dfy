/** An optional value: a field that may be `undefined`, a lookup that may miss. */
module Options {

  datatype Option<+T> = None | Some(value: T) {

    /** The value, or `default` when there is none (JavaScript `x ?? default`; the dialog uses `x || ""`, which agrees with it because the default is `""`). */
    function GetOr(default: T): T {
      match this
      case Some(v) => v
      case None => default
    }
  }
}
