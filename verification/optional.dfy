/** The Some/None datatype used wherever a JavaScript or Java value may be
    null or undefined. */
module Optional {

  datatype Option<+T> = None | Some(value: T) {

    /** Returns the wrapped value, or `default` when there is none. */
    function GetOr(default: T): T {
      match this
      case Some(v) => v
      case None => default
    }
  }
}
