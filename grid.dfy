/**
 * The generic Battleship grid: a rows x cols matrix of integers whose cells
 * are addressed from (1, 1). Reading or writing a cell off the grid is the
 * game's IndexError, which is returned here as `None` or `false`.
 */
module Grids {
  import opened Boards

  /** The value of a fresh cell. */
  const EMPTY := 0

  /** The board size every grid of a game is created with. */
  const ROWS := 10
  const COLS := 10

  class Grid {
    const rows: nat
    const cols: nat
    /** The rows of cell values, replaced as a whole on each write. */
    var cells: Board

    ghost predicate Valid()
      reads this
    {
      Shaped(cells, rows, cols)
    }

    constructor (rows: nat, cols: nat)
      ensures Valid()
      ensures this.rows == rows && this.cols == cols
      ensures cells == Filled(rows, cols, EMPTY)
    {
      this.rows := rows;
      this.cols := cols;
      cells := Filled(rows, cols, EMPTY);
    }

    /** The value at (row, col), or `None` when the cell is off the grid. */
    function GetCell(row: int, col: int): (r: Option<int>)
      reads this
      ensures r.Some? <==> InGrid(cells, Cell(row, col))
      ensures r.Some? ==> r.value == Value(cells, Cell(row, col))
    {
      if row < 1 || col < 1 || row > |cells| || col > |cells[row - 1]| then None
      else Some(cells[row - 1][col - 1])
    }

    /** Sets (row, col) to `value`; `false` and no change when the cell is off the grid. */
    method SetCell(row: int, col: int, value: int) returns (ok: bool)
      requires Valid()
      modifies this
      ensures Valid()
      ensures ok <==> InGrid(old(cells), Cell(row, col))
      ensures cells == if ok then Write(old(cells), Cell(row, col), value) else old(cells)
    {
      if row < 1 || col < 1 || row > |cells| || col > |cells[row - 1]| {
        return false;
      }
      cells := Write(cells, Cell(row, col), value);
      ok := true;
    }

    /** Whether (row, col) holds EMPTY, or `None` when the cell is off the grid. */
    function IsEmpty(row: int, col: int): (r: Option<bool>)
      reads this
      ensures r.Some? <==> InGrid(cells, Cell(row, col))
      ensures r.Some? ==> (r.value <==> Value(cells, Cell(row, col)) == EMPTY)
    {
      match GetCell(row, col)
      case None => None
      case Some(v) => Some(v == EMPTY)
    }
  }
}
