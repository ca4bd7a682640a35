/** The optional value used for lookups that may fail. */
module Wrappers {

  /** Some value, or None in place of Go's `(value, err)` with `err != nil`. */
  datatype Option<+T> = None | Some(value: T)
}
