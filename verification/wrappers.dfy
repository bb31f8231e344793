/** Small value wrappers shared by every module of the model. */
module Wrappers {

  /** The conventional optional value; `None` stands for Python's `None` result. */
  datatype Option<+T> = None | Some(value: T)

  /** The state of one key of a Python dict read with `.get(key, default)`:
      the key is missing, the key holds `None`, or the key holds a value.
      The distinction matters wherever the source tests truthiness or
      `is not None` after a `.get` with a default. */
  datatype Field<+T> = Absent | Null | Present(value: T)

  /** Python truthiness of an optional string: neither `None` nor empty. */
  predicate Truthy(o: Option<string>)
  {
    o.Some? && o.value != ""
  }

  /** `o or fallback` for an optional string. */
  function OrElse(o: Option<string>, fallback: string): (r: string)
    ensures Truthy(o) ==> r == o.value
    ensures !Truthy(o) ==> r == fallback
  {
    if Truthy(o) then o.value else fallback
  }
}
