/** The optional value used wherever a JavaScript field may be `undefined` or `null`. */
module Optional {

  datatype Option<T> = None | Some(value: T) {

    /** The value, or `default` when absent (a JavaScript default parameter). */
    function GetOr(default: T): T {
      match this
      case Some(v) => v
      case None => default
    }
  }
}
