/** Option, for SQL lookups that may find no row and for absent request parts. */
module Wrappers {

  datatype Option<+T> = None | Some(value: T) {

    function GetOr(default: T): T {
      match this
      case Some(v) => v
      case None => default
    }

    /** The zero-or-one element sequence an optional insert contributes to a table. */
    function ToSeq(): seq<T> {
      match this
      case Some(v) => [v]
      case None => []
    }
  }
}
