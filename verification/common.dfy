/**
 * Small shared vocabulary: JavaScript's `null`/`undefined` and thrown
 * exceptions are modelled with these two datatypes.
 */
module Common {

  /** A value that may be absent (`null` or `undefined` in the source). */
  datatype Option<+T> = None | Some(value: T)

  /** A computation that either yields a value or throws an error message. */
  datatype Result<+T> = Ok(value: T) | Err(message: string)

  /** JavaScript truthiness of an optional string: absent and `""` are falsy. */
  predicate Truthy(s: Option<string>)
  {
    s.Some? && s.value != ""
  }
}
