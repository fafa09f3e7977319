/** The optional results of the whole project: an absent key, a dropped frame, a failed inference. */
module Options {
  datatype Option<+T> = None | Some(value: T) {
    /** The value, or `default` when there is none. */
    function GetOr(default: T): T {
      match this
      case Some(v) => v
      case None => default
    }
  }
}
