/** Optional arguments of the samplers (Python's `None` default). */
module Options {

  datatype Option<T> = None | Some(value: T) {

    /** The carried value, or `default` when the argument was omitted. */
    function GetOr(default: T): T
    {
      match this
      case Some(v) => v
      case None => default
    }
  }
}
