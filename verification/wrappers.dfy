/** Optional values, standing in for Python's `None` and for dictionary keys
    that may be missing. */
module Wrappers {

  datatype Option<+T> = None | Some(value: T) {

    /** Returns the encapsulated value, or `default` when there is none
        (Python's `d.get(key, default)`). */
    function GetOr(default: T): T
    {
      match this
      case Some(v) => v
      case None => default
    }
  }

  /** Python truthiness of an optional string: `None` and `""` are both false. */
  predicate Truthy(o: Option<string>)
  {
    o.Some? && o.value != ""
  }
}
