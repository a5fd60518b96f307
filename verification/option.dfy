/** An optional value, standing in for PHP's `null`-or-value results. */
module Optional {

  datatype Option<+T> = None | Some(value: T) {

    function GetOr(default: T): T {
      match this
      case Some(v) => v
      case None => default
    }
  }
}
