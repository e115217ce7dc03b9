/** The optional value the container's lookups and removals return. */
module Wrappers {

  /** `None` when there is nothing to return, `Some(value)` otherwise. */
  datatype Option<+T> = None | Some(value: T)
}
