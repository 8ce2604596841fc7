/** The optional value used for the resolver's cache (absent when caching is
    switched off), for store lookups and for the error half of a Go `(value, error)`
    return. */
module Wrappers {

  datatype Option<+T> = None | Some(value: T)
}
