/** The optional value the context uses for "no dictionary referenced yet"
    and for a path that may be missing. */
module Wrappers {
  datatype Option<T> = None | Some(value: T)
}
