/**
 * The optional result the library signals with `null`: an out-of-range corner or
 * edge index, a singular matrix, a pair of circles that do not touch.
 */
module Options {

  datatype Option<+T> = None | Some(value: T) {

    /** The wrapped value, or `default` when there is none (`x || default`). */
    function GetOr(default: T): T {
      match this
      case Some(v) => v
      case None => default
    }
  }
}
