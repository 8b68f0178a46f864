/**
 * The value shapes of src/interface.ts that the game controller uses:
 * a mark, a board cell, one history snapshot and a board coordinate.
 */
module Interface {
  import opened Wrappers

  /** The two marks a player can write into a cell ('X' and 'O'). */
  datatype Mark = X | O

  /** A cell of the board: `None` is the empty cell (`null` in the source). */
  type Cell = Option<Mark>

  /**
   * One snapshot of the game: the cells of the board, row-major, and the index of
   * the cell whose mark produced this snapshot (-1 for the empty starting board).
   */
  datatype SquaresObject = SquaresObject(squares: seq<Cell>, squareIndex: int)

  /** A board coordinate: `x` is the row and `y` the column. */
  datatype LocationXY = LocationXY(x: int, y: int)
}
