/** Success and failure values shared by the parser and the matrix operations.
    Every exception the source raises becomes one of the two error kinds. */
module Outcome {

  datatype Option<+T> = None | Some(value: T)

  /** The two ways a matrix operation fails: operands whose shapes do not fit,
      and input text that cannot be read as a matrix. */
  datatype MatrixError = DimensionMismatch | FormatError

  datatype Result<+T> = Ok(value: T) | Err(error: MatrixError)
}
