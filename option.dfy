/** An optional value: a Python `None` or a Kotlin `null` on one side, a present value on the other. */
module Opt {

  datatype Option<+T> = None | Some(value: T) {

    /** The present value, or `default` when there is none (Kotlin's `?:`). */
    function GetOr(default: T): T {
      match this
      case Some(v) => v
      case None => default
    }
  }
}
