/** Option, Result and Outcome: the null cells and the raised errors of the pipeline. */
module Wrappers {

  /** A value that may be missing: a null cell, an absent join partner, an unset option. */
  datatype Option<+T> = None | Some(value: T)

  /** Either a value or the error the pipeline raises instead of returning. */
  datatype Result<+R, +E> = Ok(value: R) | Err(error: E)

  /** A step that returns nothing, or raises. */
  datatype Outcome<+E> = Pass | Fail(error: E)
}
