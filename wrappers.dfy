/** The optional value a scoped key's cell holds: empty, or the value bound by a `set`. */
module Wrappers {
  datatype Option<+T> = None | Some(value: T)
}
