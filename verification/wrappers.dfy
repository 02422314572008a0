/** The optional value used throughout the model: a missing row, a NaN id,
    an absent JSON field, a value PostgreSQL cannot convert. */
module Wrappers {

  datatype Option<+T> = None | Some(value: T) {

    /** The carried value, or `default` when there is none. */
    function GetOr(default: T): T {
      match this
      case Some(v) => v
      case None => default
    }
  }
}
