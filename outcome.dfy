/** Optional values and success-or-error results, used wherever the source
    returns None or raises an exception. */
module Outcome {

  datatype Option<+T> = None | Some(value: T)

  datatype Result<+T, +E> = Ok(value: T) | Err(error: E)

  /** Python truthiness of an optional string: present and not empty. */
  predicate Truthy<T>(o: Option<seq<T>>)
  {
    o.Some? && o.value != []
  }
}
