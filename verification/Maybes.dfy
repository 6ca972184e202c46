module Maybes {
  /** A value that may be missing: a null pointer, an absent entry. */
  datatype Maybe<+T> = None | Some(value: T)
}
