/** Small value wrappers shared by every module of the model. */
module Wrappers {

  /** A value that may be absent: JavaScript's `null`/`undefined` (or any falsy object slot). */
  datatype Option<+T> = None | Some(value: T) {
    function GetOr(default: T): T {
      match this
      case Some(v) => v
      case None => default
    }
  }

  /**
   * A dynamically typed input slot that the source only trusts after an
   * `Array.isArray` test: either a real array or some other value.
   */
  datatype MaybeList<+T> = List(items: seq<T>) | NotList {
    /** `Array.isArray(x) ? x : []` */
    function Items(): seq<T> {
      if List? then items else []
    }
  }
}
