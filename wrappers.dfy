/** Optional values and success/failure outcomes. */
module Wrappers {

  datatype Option<+T> = None | Some(value: T)

  /** The result of an operation that returns nothing but may throw. */
  datatype Outcome<+E> = Ok | Fail(error: E)
}
