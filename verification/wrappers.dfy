/** The optional-value type used across the model for Python's `None`-or-value results. */
module Wrappers {

  /** `None` stands for Python's `None` (or an absent dictionary key); `Some(v)` for a value. */
  datatype Option<+T> = None | Some(value: T) {

    /** The wrapped value, or `default` when there is none (Python's `d.get(k, default)`). */
    function GetOr(default: T): T {
      match this
      case Some(v) => v
      case None => default
    }
  }
}
