/** Python's `Optional[...]`: a value that may be absent (`None`). */
module Wrappers {

  datatype Option<+T> = None | Some(value: T) {

    /** `x or default` for an optional value whose present values are all truthy. */
    function GetOr(default: T): (r: T)
      ensures Some? ==> r == value
      ensures None? ==> r == default
    {
      match this
      case Some(v) => v
      case None => default
    }
  }
}
