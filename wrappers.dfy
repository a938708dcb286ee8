/** The Option datatype used for Python's `Optional[...]` results. */
module Wrappers {

  datatype Option<+T> = None | Some(value: T)
}
