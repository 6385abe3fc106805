/**
 * The array board of src/geometry/board.rs: a (BOARD_ROWS + 2) by
 * (BOARD_COLS + 2) array of cells in row-major order whose outermost rows
 * and columns form the permanent rim around the playfield.
 */
module RimArray {
  import opened Tiles
  import CellGrid

  const BOARD_ROWS: nat := 5
  const BOARD_COLS: nat := 5

  /** The cells, indexed `cells[row][column]`, row 0 at the bottom. */
  datatype Board = Board(cells: seq<seq<bool>>)

  /** The array is 7 by 7. */
  predicate HasShape(cells: seq<seq<bool>>)
  {
    |cells| == BOARD_ROWS + 2 && forall r :: 0 <= r < |cells| ==> |cells[r]| == BOARD_COLS + 2
  }

  /** The cell (r, c) belongs to the rim. */
  predicate IsRimCell(r: int, c: int)
  {
    r == 0 || r == BOARD_ROWS + 1 || c == 0 || c == BOARD_COLS + 1
  }

  /** Board::new: every rim cell set, every playfield cell clear. */
  function New(): (b: Board)
    ensures HasShape(b.cells)
    ensures forall r, c :: 0 <= r < BOARD_ROWS + 2 && 0 <= c < BOARD_COLS + 2 ==>
              b.cells[r][c] == IsRimCell(r, c)
  {
    Board(seq(BOARD_ROWS + 2, r =>
      if r == 0 || r == BOARD_ROWS + 1 then seq(BOARD_COLS + 2, _ => true)
      else seq(BOARD_COLS + 2, c => c == 0 || c == BOARD_COLS + 1)))
  }

  /** Default::default: the board Board::new builds. */
  function Default(): (b: Board)
    ensures HasShape(b.cells)
    ensures forall r, c :: 0 <= r < BOARD_ROWS + 2 && 0 <= c < BOARD_COLS + 2 ==>
              b.cells[r][c] == IsRimCell(r, c)
  {
    New()
  }

  /** Rasterization::rasterize: a copy of the stored array. */
  function Rasterize(b: Board): seq<seq<bool>>
  {
    b.cells
  }

  /** A new board has no playfield cell set. */
  lemma NewInteriorEmpty(r: int, c: int)
    requires 1 <= r <= BOARD_ROWS && 1 <= c <= BOARD_COLS
    ensures !Rasterize(New())[r][c]
  {
  }

  /**
   * The array of a new board and the rim of the 7 by 7 set grid agree on
   * every cell: row r, column c is set exactly when the point (c, r) is on
   * the rim.
   */
  lemma NewMatchesRim()
    ensures HasShape(Rasterize(New()))
    ensures forall r, c :: 0 <= r < BOARD_ROWS + 2 && 0 <= c < BOARD_COLS + 2 ==>
              (Rasterize(New())[r][c] <==> Point(c, r) in CellGrid.Rim())
  {
  }
}
