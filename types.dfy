/**
  The data types and constants of the Minesweeper game field: the state and
  the kind of a cell, the four cursor directions, and the default grid size
  and mine density.
 */
module Types {

  /** Default number of rows and columns, and the share of cells (in percent) that hold a bomb. */
  const DefaultRows: int := 10
  const DefaultCols: int := 10
  const BombPercentage: int := 25

  /** Whether the player has revealed a cell, marked it, or neither. */
  datatype State = Open | Closed | Flagged

  /** What a cell holds; fixed once the bombs are placed. */
  datatype CellType = Empty | Bomb

  datatype Direction = Up | Down | Left | Right

  datatype Cell = Cell(state: State, ctype: CellType)

  /** A row and a column of the grid (not necessarily inside it). */
  type Position = (int, int)

  /** The cell every grid starts with. */
  const ClosedEmpty: Cell := Cell(Closed, Empty)
}
