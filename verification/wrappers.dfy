/** Optional values, used for lookups that can fail:
    parsing a report buffer of the wrong size, or reading past the end of
    a table. */
module Wrappers {

  datatype Option<+T> = None | Some(value: T)
}
