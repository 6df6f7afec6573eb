/** The optional value used for metadata that may be absent and for dictionary lookups. */
module Wrappers {

  datatype Option<+T> = None | Some(value: T) {

    /**
      Python's `dict.get(key, default)`, where `None` stands for a key that is
      absent: the default replaces only a missing entry.
     */
    function GetOr(default: T): T {
      match this
      case Some(v) => v
      case None => default
    }
  }
}
