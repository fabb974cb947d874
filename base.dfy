/** Failure-carrying values shared by every component of the model. */
module Base {

  /** An optional value: a C pointer that may be NULL, a Lua `nil` result. */
  datatype Option<+T> = None | Some(value: T)

  /** The outcome of an operation that raises a Lua error (`luaL_error`) on failure. */
  datatype Result<+T, +E> = Ok(value: T) | Err(error: E)
}
