/** The optional value used wherever the source returns `null`, a `Try…` out-parameter
    pair, or a `FirstOrDefault` that found nothing. */
module Optional {

  datatype Option<+T> = None | Some(value: T) {

    /** The wrapped value, or `default` when there is none. */
    function GetOr(default: T): T {
      match this
      case Some(v) => v
      case None => default
    }
  }
}
