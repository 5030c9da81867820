/** Failure-compatible result types used across the model. */
module Wrappers {
  datatype Option<+T> = None | Some(value: T)

  datatype Result<+T, +E> = Ok(value: T) | Err(error: E)

  datatype Outcome<+E> = Pass | Fail(error: E)
}

/**
 * The error kinds the grid engine reports.
 *   `OutOfRange`: numpy's IndexError (an unknown board, a position or a
 *     slice beyond the grid, too many indices).
 *   `InvalidParameter`: a value that cannot be built or placed in a cell's
 *     column (a list of the wrong length, an inverted slice with a negative
 *     extent), and a call the type system refuses (TypeError).
 *   `ShapeMismatch`: an argument whose shape differs from the region it is
 *     assigned to, or a reshape to a shape with a negative extent.
 *   `MissingAttribute`: Python's AttributeError (a field the object lacks).
 *   `DivisionByZero`: Python's ZeroDivisionError (`% 0`).
 */
module Errors {
  datatype Error = InvalidParameter | OutOfRange | ShapeMismatch | MissingAttribute | DivisionByZero
}
