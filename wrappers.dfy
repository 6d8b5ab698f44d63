/** The optional value of the engine: `undefined`, `null` or "not found" on the JavaScript side. */
module Wrappers {

  datatype Option<+T> = None | Some(value: T)
}
