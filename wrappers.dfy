/** The optional value used wherever the C code returns a pointer that may be NULL
    or a flag saying whether an out-parameter was filled. */
module Wrappers {

  datatype Option<+T> = None | Some(value: T) {

    /** The wrapped value, or `default` when there is none. */
    function GetOr(default: T): T
    {
      match this
      case Some(v) => v
      case None => default
    }
  }
}
