/** The typed failures raised by the tree engine, and the result types that carry them. */
module Wrappers {

  /**
   * PathOverflow is the base failure of path arithmetic; TooManyChildren and
   * PathTooDeep are its two refinements; MovingToDescendant is raised by the
   * ancestry check of every move.
   */
  datatype Error = PathOverflow | TooManyChildren | PathTooDeep | MovingToDescendant

  datatype Result<T> = Ok(value: T) | Err(error: Error)

  /** The outcome of an operation that changes the table and returns nothing. */
  datatype Outcome = Done | Fail(error: Error)

  /** A nullable value, such as a root's parent reference. */
  datatype Option<T> = None | Some(value: T)
}
