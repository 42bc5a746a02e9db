/** The optional value used wherever the plugin receives or produces a nullable reference. */
module Options {

  datatype Option<+T> = None | Some(value: T) {

    /** The wrapped value, or `default` when there is none (C#'s `x ?? default`). */
    function GetOr(default: T): (r: T)
      ensures Some? ==> r == value
      ensures None? ==> r == default
    {
      match this
      case Some(v) => v
      case None => default
    }
  }
}
