/** Optional values and results shared by every module of the model.
    `Option` stands for a JavaScript value that may be `undefined`;
    `Result` stands for a computation that may throw. */
module Base {

  datatype Option<+T> = None | Some(value: T) {

    /** The value, or `default` when it is absent. */
    function GetOr(default: T): T {
      match this
      case Some(v) => v
      case None => default
    }
  }

  datatype Result<+T, +E> = Ok(value: T) | Err(error: E)

  /** JavaScript truthiness of an optional boolean: only `true` is truthy. */
  predicate IsTrue(b: Option<bool>) {
    b == Some(true)
  }

  /** JavaScript truthiness of an optional string: absent and "" are falsy. */
  predicate Truthy(s: Option<string>) {
    s.Some? && s.value != ""
  }
}
