/** Java's nullable references as an explicit optional value: `None` is `null`. */
module Optional {

  datatype Option<T> = None | Some(value: T) {

    /** The carried value, or `default` when there is none (the `x != null ? x : d` idiom). */
    function GetOr(default: T): T {
      match this
      case Some(v) => v
      case None => default
    }
  }
}
