/** Optional values and success/failure results: the shapes the model uses
    where the source returns `null` or throws. */
module Wrappers {

  /** A value that may be absent (`undefined` / `null` in the source). */
  datatype Option<+T> = None | Some(value: T) {
    /** The value, or `default` when absent (the source's `??`). */
    function GetOr(default: T): T {
      if Some? then value else default
    }
  }

  /** Either a value or the error that the source throws instead. */
  datatype Result<+T, +E> = Ok(value: T) | Err(error: E)

  /** An optional string JavaScript treats as true in a condition: present and non-empty. */
  predicate Truthy(o: Option<string>) {
    o.Some? && o.value != ""
  }
}
