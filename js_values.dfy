/** JavaScript values as the export script sees them.
    `undefined` and `null` are both `None`; a string property that is set is `Some`.
    JavaScript treats the empty string as false in a condition, so "truthy" means
    present AND non-empty. */
module JsValues {

  datatype Option<+T> = None | Some(value: T)

  datatype Result<+T, +E> = Ok(value: T) | Err(error: E)

  /** The JavaScript truth value of an optional string. */
  predicate Truthy(s: Option<string>) {
    s.Some? && s.value != ""
  }
}
