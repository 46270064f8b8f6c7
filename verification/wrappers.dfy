/** The optional value shared by the roster model: the source's `T | null`
    and the results of `find` and of table lookups. */
module Wrappers {

  /** A value that may be absent: `null`/`undefined` in the source. */
  datatype Option<+T> = None | Some(value: T)
}
