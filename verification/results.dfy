/** Failure-carrying values shared by the column and screen models.

    The program signals its two error kinds with Python exceptions: a
    `ValueError` when a character is changed in an empty column, and an
    `IndexError` when the cursor is moved outside the terminal or a coloured
    cell is missing. Here they are returned as values instead.
 */
module Results {

  /** A value that may be absent, used by the parsers of control sequences. */
  datatype Option<+T> = None | Some(value: T)

  /** Why an operation did not complete. */
  datatype Error =
    /** `change_random_character` on a column whose buffer is empty (ValueError). */
    | EmptyColumn
    /** `move` to a position beyond the captured terminal size (IndexError). */
    | OutsideTerminal(row: int, col: int)
    /** `stdout_write_column` asked for a coloured cell past the end of the list (IndexError). */
    | MissingColoredCell(offset: int)

  /** Either the result of an operation or the error that stopped it. */
  datatype Result<+T> = Ok(value: T) | Fail(error: Error)
}
