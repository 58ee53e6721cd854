/** Values that may be missing. */
module Wrappers {

  /**
   * A value that may be missing: `None` stands for an `undefined` threshold
   * field, and for the logger's stored timing while it is still `null`.
   */
  datatype Option<+T> = None | Some(value: T) {

    /** The held value, falling back to `fallback` when it is missing. */
    function ValueOr(fallback: T): (r: T)
      ensures Some? ==> r == value
      ensures None? ==> r == fallback
    {
      if Some? then value else fallback
    }
  }
}
