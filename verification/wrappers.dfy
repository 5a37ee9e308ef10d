/** The optional value used wherever a pattern may fail to match. */
module Wrappers {

  datatype Option<+T> = None | Some(value: T) {

    /** This value when present, otherwise `other`: the way a regular
        expression alternation falls through to its next alternative. */
    function OrElse(other: Option<T>): (r: Option<T>)
      ensures Some? ==> r == this
      ensures None? ==> r == other
    {
      if Some? then this else other
    }
  }
}
