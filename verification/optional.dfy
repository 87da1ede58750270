/** Missing values and error returns.

    A spreadsheet cell that pandas reads as NaN is `None`; a Python exception
    raised by an operation is the `Err` side of a `Result`.
 */
module Optional {

  /** A possibly missing cell. */
  datatype Option<+T> = None | Some(value: T)

  /** The value of an operation, or the exception it raises. */
  datatype Result<+T, +E> = Ok(value: T) | Err(error: E)
}
