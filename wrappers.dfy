/** The optional value used wherever the source returns `null` / `None` or throws a
    recoverable error that the caller turns into "no result". */
module Wrappers {
  datatype Option<+T> = None | Some(value: T)
}
