/** An optional value used by the menu model. */
module Wrappers {

  /** A present value or nothing; stands for a Go slice that may be `nil`. */
  datatype Option<+T> = None | Some(value: T) {

    /** Returns the wrapped value, or `default` when there is none. */
    function GetOr(default: T): (r: T)
    {
      match this
      case Some(v) => v
      case None => default
    }
  }
}
