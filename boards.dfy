/**
 * The board state machine of src/gameplay/board.rs. A board owns one 7 by 7
 * grid whose rim is always set, and is in one of two phases: it takes a
 * tile, or it scans the rows after a tile was frozen, with a 0-indexed
 * cursor on the row under examination. Each phase is its own type, so an
 * operation of the other phase cannot be applied.
 */
module Boards {
  import opened Tiles
  import opened Wrappers
  import opened CellGrid

  const BOARD_ROWS: nat := 5
  const BOARD_COLS: nat := 5

  /** The phase in which the board accepts a falling tile. */
  datatype TakesTile = TakesTile

  /** The row scan; `current` counts the rows of the 5 by 5 grid from 0. */
  datatype ProcessesRows = ProcessesRows(current: nat)

  /** ProcessesRows::default: the scan starts at the bottom row. */
  function DefaultProcessesRows(): ProcessesRows
  {
    ProcessesRows(0)
  }

  datatype BoardError = InvalidPosition

  /** Board<S>: a phase and the grid. */
  datatype Board<S> = Board(state: S, grid: ExtGrid)

  /** Board::new: the rim alone. */
  function New(): (b: Board<TakesTile>)
    ensures Framed(b.grid) && Center(b.grid) == {}
  {
    Board(TakesTile, Rim())
  }

  /**
   * is_position_valid: the tile converts to a 7 by 7 grid that overlaps no
   * cell of the board, the rim included.
   */
  predicate IsPositionValid(b: Board<TakesTile>, t: Tile)
  {
    match TryFromTile(t)
    case Ok(raster) => !Overlaps(b.grid, raster)
    case Err(_) => false
  }

  /**
   * On a framed board, being off the playfield and colliding with a settled
   * cell are one condition: a position is valid exactly when every cell of
   * the tile is a free playfield cell.
   */
  lemma ValidIffInPlayfield(b: Board<TakesTile>, t: Tile)
    requires Framed(b.grid)
    ensures IsPositionValid(b, t) <==> forall p :: p in Cells(t) ==> InPlayfield(p) && p !in b.grid
  {
    CellsClose(t);
    var r := TryFromTile(t);
    if IsPositionValid(b, t) {
      var q :| q in r.value;
      ContainsIffCells(t, q.x, q.y);
      assert q !in b.grid * r.value;
      assert q !in Rim();
      forall p | p in Cells(t) ensures InPlayfield(p) && p !in b.grid {
        assert Adjacent(p, q);
        assert InWindow(p);
        ContainsIffCells(t, p.x, p.y);
        assert p in r.value;
        assert p !in b.grid * r.value;
        assert p !in Rim();
      }
    }
    if forall p :: p in Cells(t) ==> InPlayfield(p) && p !in b.grid {
      var a := Anchor(t);
      ContainsIffCells(t, a.x, a.y);
      assert r.Ok?;
      forall p | p in r.value ensures p !in b.grid {
        ContainsIffCells(t, p.x, p.y);
      }
      assert b.grid * r.value == {};
    }
  }

  /**
   * The same condition point by point: on a framed board a position is
   * valid exactly when every point the tile occupies is a free playfield cell.
   */
  lemma ValidIffContained(b: Board<TakesTile>, t: Tile)
    requires Framed(b.grid)
    ensures IsPositionValid(b, t) <==>
            forall x, y :: Tiles.Contains(t, x, y) ==> InPlayfield(Point(x, y)) && Point(x, y) !in b.grid
  {
    ValidIffInPlayfield(b, t);
    forall x, y ensures Tiles.Contains(t, x, y) <==> Point(x, y) in Cells(t) {
      ContainsIffCells(t, x, y);
    }
  }

  /**
   * freeze_tile_assume_valid: union the tile's raster (or the empty grid if
   * the tile does not convert) into the board and start the scan at row 0.
   */
  function FreezeTileAssumeValid(b: Board<TakesTile>, t: Tile): (r: Board<ProcessesRows>)
    ensures r.state.current == 0
    ensures forall p :: p in r.grid <==> p in b.grid || (InWindow(p) && Tiles.Contains(t, p.x, p.y))
    ensures Framed(b.grid) ==> Framed(r.grid)
  {
    var raster := match TryFromTile(t) case Ok(g) => g case Err(_) => {};
    Board(DefaultProcessesRows(), b.grid + raster)
  }

  /**
   * freeze_tile: fails with InvalidPosition exactly when the position is not
   * valid; otherwise the new grid is the old one with the tile's cells added
   * and nothing cleared, and the scan starts at row 0.
   */
  function FreezeTile(b: Board<TakesTile>, t: Tile): (r: Result<Board<ProcessesRows>, BoardError>)
    ensures r.Err? <==> !IsPositionValid(b, t)
    ensures r.Ok? ==> r.value.state.current == 0 && b.grid <= r.value.grid
    ensures r.Ok? ==> forall p :: p in r.value.grid <==> p in b.grid || (InWindow(p) && Tiles.Contains(t, p.x, p.y))
    ensures r.Ok? && Framed(b.grid) ==> Framed(r.value.grid)
  {
    if !IsPositionValid(b, t) then Err(InvalidPosition)
    else Ok(FreezeTileAssumeValid(b, t))
  }

  /**
   * Freezing a valid tile on a framed board adds exactly the tile's cells,
   * none of which was set before.
   */
  lemma FreezeAddsTileCells(b: Board<TakesTile>, t: Tile)
    requires Framed(b.grid) && IsPositionValid(b, t)
    ensures FreezeTile(b, t).value.grid == b.grid + Occupied(t)
    ensures b.grid * Occupied(t) == {}
  {
    ValidIffInPlayfield(b, t);
    OccupancyIsCells(t);
    var g := FreezeTile(b, t).value.grid;
    forall p ensures p in g <==> p in b.grid + Occupied(t) {
      ContainsIffCells(t, p.x, p.y);
    }
  }

  /** Rasterization<Passive> for a board taking a tile: the playfield. */
  function RasterizePassive(b: Board<TakesTile>): (g: Grid)
    ensures forall p :: p in g <==> InGrid(p) && Point(p.x + 1, p.y + 1) in b.grid
  {
    Center(b.grid)
  }

  /** Row `r` of the playfield is fully populated (the test process_row makes). */
  predicate RowFull(grid: ExtGrid, r: nat)
    requires r < BOARD_ROWS
  {
    Covers(grid, FromGrid(Row(r)))
  }

  /** Row `r` of the playfield holds no cell (the look-ahead test of process_row). */
  predicate RowEmpty(grid: ExtGrid, r: nat)
    requires r < BOARD_ROWS
  {
    !Overlaps(grid, FromGrid(Row(r)))
  }

  /** Every playfield cell of row `r` is set. */
  ghost predicate RowComplete(grid: ExtGrid, r: nat)
  {
    forall p :: InPlayfield(p) && p.y == r + 1 ==> p in grid
  }

  /** process_row's test for a full row holds exactly when all five cells of the row are set. */
  lemma RowFullIff(grid: ExtGrid, r: nat)
    requires r < BOARD_ROWS
    ensures RowFull(grid, r) <==> RowComplete(grid, r)
  {
  }

  /**
   * The grid after removing the full row `row` of the playfield
   * (discard_and_shift on the centre, embedded again with the rim).
   */
  function ShiftedGrid(grid: ExtGrid, row: nat): (g: ExtGrid)
    requires row < BOARD_ROWS
    ensures Framed(g)
  {
    FromGrid(DiscardAndShift(Center(grid), row).value) + Rim()
  }

  /**
   * Removing row `row` (0-indexed) keeps the rows below it: the 7 by 7 rows
   * y <= row are playfield rows 0 to row - 1 of the 5 by 5 grid.
   */
  lemma ShiftKeepsRowsBelow(grid: ExtGrid, row: nat)
    requires row < BOARD_ROWS
    ensures forall p :: InPlayfield(p) && p.y <= row ==> (p in ShiftedGrid(grid, row) <==> p in grid)
  {
    forall p | InPlayfield(p) && p.y <= row
      ensures p in ShiftedGrid(grid, row) <==> p in grid
    {
      ShiftedCell(grid, row, p);
    }
  }

  /** Removing row `row` moves every playfield row above it down by one. */
  lemma ShiftMovesRowsAbove(grid: ExtGrid, row: nat)
    requires row < BOARD_ROWS
    ensures forall p :: InPlayfield(p) && row < p.y < BOARD_ROWS ==>
              (p in ShiftedGrid(grid, row) <==> Point(p.x, p.y + 1) in grid)
  {
    forall p | InPlayfield(p) && row < p.y < BOARD_ROWS
      ensures p in ShiftedGrid(grid, row) <==> Point(p.x, p.y + 1) in grid
    {
      ShiftedCell(grid, row, p);
    }
  }

  /** One playfield cell after removing row `row`: kept below it, taken from the cell above from it up. */
  lemma ShiftedCell(grid: ExtGrid, row: nat, p: Point)
    requires row < BOARD_ROWS && InPlayfield(p)
    ensures p.y <= row ==> (p in ShiftedGrid(grid, row) <==> p in grid)
    ensures row < p.y < BOARD_ROWS ==> (p in ShiftedGrid(grid, row) <==> Point(p.x, p.y + 1) in grid)
  {
    ShiftedCellFrom(grid, row, p);
    MovedCell(ShiftedGrid(grid, row), DiscardAndShift(Center(grid), row).value, Center(grid), grid, row, p);
  }

  /**
   * The step behind ShiftedCell, on plain sets: `g` reads the playfield of
   * `d`, `d` is `c` without row `row`, and `c` is the playfield of `grid`.
   */
  lemma MovedCell(g: set<Point>, d: set<Point>, c: set<Point>, grid: set<Point>, row: nat, p: Point)
    requires InPlayfield(p) && (p in g <==> Point(p.x - 1, p.y - 1) in d)
    requires forall x, y :: 0 <= y < row ==> (Point(x, y) in d <==> InGrid(Point(x, y)) && Point(x, y) in c)
    requires forall x, y :: row <= y < GRID_ROWS - 1 ==> (Point(x, y) in d <==> 0 <= x < GRID_COLS && Point(x, y + 1) in c)
    requires forall q :: q in c <==> InGrid(q) && Point(q.x + 1, q.y + 1) in grid
    ensures p.y <= row ==> (p in g <==> p in grid)
    ensures row < p.y < BOARD_ROWS ==> (p in g <==> Point(p.x, p.y + 1) in grid)
  {
    var q := Point(p.x - 1, p.y - 1);
    if p.y <= row {
      assert q in d <==> q in c;
      assert q in c <==> p in grid;
    } else if p.y < BOARD_ROWS {
      var above := Point(q.x, q.y + 1);
      assert q in d <==> above in c;
      assert InGrid(above) && Point(above.x + 1, above.y + 1) == Point(p.x, p.y + 1);
    }
  }

  /** A playfield cell of the shifted grid is the matching cell of the shifted 5 by 5 grid. */
  lemma ShiftedCellFrom(grid: ExtGrid, row: nat, p: Point)
    requires row < BOARD_ROWS && InPlayfield(p)
    ensures p in ShiftedGrid(grid, row) <==> Point(p.x - 1, p.y - 1) in DiscardAndShift(Center(grid), row).value
  {
    assert p !in Rim();
  }

  /** Removing a row leaves the top row of the playfield empty. */
  lemma ShiftClearsTopRow(grid: ExtGrid, row: nat)
    requires row < BOARD_ROWS
    ensures forall p :: p in ShiftedGrid(grid, row) && InPlayfield(p) ==> p.y < BOARD_ROWS
  {
    var c := Center(grid);
    assert IsGrid(c);
    var d := DiscardAndShift(c, row).value;
    forall p | p in ShiftedGrid(grid, row) && InPlayfield(p) ensures p.y < BOARD_ROWS {
      assert p !in Rim();
      assert p in FromGrid(d);
      assert Point(p.x - 1, p.y - 1) in d;
    }
  }

  /** The grid process_row leaves: shifted when the current row is full, else unchanged. */
  function PrunedGrid(grid: ExtGrid, current: nat): ExtGrid
    requires current < BOARD_ROWS
  {
    if RowFull(grid, current) then ShiftedGrid(grid, current) else grid
  }

  /** The row process_row examines next: the same one after a removal, else the one above. */
  function NextRow(grid: ExtGrid, current: nat): nat
    requires current < BOARD_ROWS
  {
    if RowFull(grid, current) then current else current + 1
  }

  /** The grid of either successor. */
  function GridAfter(r: Either<Board<ProcessesRows>, Board<TakesTile>>): ExtGrid
  {
    match r
    case Left(b) => b.grid
    case Right(b) => b.grid
  }

  /**
   * process_row: one step of the row scan. A full row is removed, the rows
   * above move down one and the rim is set again; the same row is examined
   * next. Otherwise the grid stays and the cursor advances. The scan ends
   * when the next row lies beyond the playfield or is empty, and goes on
   * at that row otherwise.
   */
  function ProcessRow(b: Board<ProcessesRows>): (r: Either<Board<ProcessesRows>, Board<TakesTile>>)
    requires b.state.current < BOARD_ROWS
    ensures GridAfter(r) == PrunedGrid(b.grid, b.state.current)
    ensures r.Left? ==> r.left.state.current == NextRow(b.grid, b.state.current)
    ensures r.Left? <==> NextRow(b.grid, b.state.current) < BOARD_ROWS
                         && !RowEmpty(GridAfter(r), NextRow(b.grid, b.state.current))
  {
    var current := b.state.current;
    var nextRow := NextRow(b.grid, current);
    var prunedGrid := PrunedGrid(b.grid, current);
    if nextRow >= BOARD_ROWS then Right(Board(TakesTile, prunedGrid))
    else if RowEmpty(prunedGrid, nextRow) then Right(Board(TakesTile, prunedGrid))
    else Left(Board(ProcessesRows(nextRow), prunedGrid))
  }

  /** A row that is not full and a next row that is not empty: the scan moves up one row. */
  lemma ProcessRowAdvances(b: Board<ProcessesRows>)
    requires b.state.current + 1 < BOARD_ROWS
    requires !RowComplete(b.grid, b.state.current) && !RowEmpty(b.grid, b.state.current + 1)
    ensures ProcessRow(b) == Left(Board(ProcessesRows(b.state.current + 1), b.grid))
  {
    RowFullIff(b.grid, b.state.current);
  }

  /**
   * A full row: it is removed and the scan stays on that row, unless the row
   * that moved down into it is empty, which ends the scan.
   */
  lemma ProcessRowRemoves(b: Board<ProcessesRows>)
    requires b.state.current < BOARD_ROWS && RowComplete(b.grid, b.state.current)
    ensures var g := ShiftedGrid(b.grid, b.state.current);
            ProcessRow(b) == if RowEmpty(g, b.state.current) then Right(Board(TakesTile, g))
                             else Left(Board(ProcessesRows(b.state.current), g))
  {
    RowFullIff(b.grid, b.state.current);
  }

  /** A step of the scan keeps the rim, and keeps a framed grid framed. */
  lemma ProcessRowKeepsRim(b: Board<ProcessesRows>)
    requires b.state.current < BOARD_ROWS
    ensures Rim() <= b.grid ==> Rim() <= GridAfter(ProcessRow(b))
    ensures Framed(b.grid) ==> Framed(GridAfter(ProcessRow(b)))
  {
  }

  /** The number of full rows among the lowest `n` rows of the playfield. */
  ghost function FullRowsBelow(grid: ExtGrid, n: nat): (k: nat)
    requires n <= BOARD_ROWS
    ensures k <= n
  {
    if n == 0 then 0 else FullRowsBelow(grid, n - 1) + (if RowComplete(grid, n - 1) then 1 else 0)
  }

  /** The number of full rows of the playfield. */
  ghost function FullRows(grid: ExtGrid): nat
  {
    FullRowsBelow(grid, BOARD_ROWS)
  }

  /** The relation between a grid and the grid left by removing its row `k` (ShiftedGrid). */
  ghost predicate IsShiftOf(g: ExtGrid, grid: ExtGrid, k: nat)
  {
    && (forall p :: InPlayfield(p) && p.y <= k ==> (p in g <==> p in grid))
    && (forall p :: InPlayfield(p) && k < p.y < BOARD_ROWS ==> (p in g <==> Point(p.x, p.y + 1) in grid))
    && (forall p :: p in g && InPlayfield(p) ==> p.y < BOARD_ROWS)
  }

  /** ShiftedGrid is such a shift. */
  lemma ShiftedGridIsShift(grid: ExtGrid, k: nat)
    requires k < BOARD_ROWS
    ensures IsShiftOf(ShiftedGrid(grid, k), grid, k)
  {
    ShiftKeepsRowsBelow(grid, k);
    ShiftMovesRowsAbove(grid, k);
    ShiftClearsTopRow(grid, k);
  }

  /**
   * After removing row `k`, every row below it is full exactly as before,
   * each row from `k` up is full as the row above it was, and the top row is
   * not full.
   */
  lemma ShiftedRowComplete(g: ExtGrid, grid: ExtGrid, k: nat, y: nat)
    requires IsShiftOf(g, grid, k) && y < BOARD_ROWS
    ensures y < k ==> (RowComplete(g, y) <==> RowComplete(grid, y))
    ensures k <= y < BOARD_ROWS - 1 ==> (RowComplete(g, y) <==> RowComplete(grid, y + 1))
    ensures y == BOARD_ROWS - 1 ==> !RowComplete(g, y)
  {
    if y == BOARD_ROWS - 1 {
      assert Point(1, BOARD_ROWS) !in g;
    } else if k <= y {
      if RowComplete(grid, y + 1) {
        forall p | InPlayfield(p) && p.y == y + 1 ensures p in g {
          assert Point(p.x, p.y + 1) in grid;
        }
      }
      if RowComplete(g, y) {
        forall q | InPlayfield(q) && q.y == y + 2 ensures q in grid {
          assert Point(q.x, q.y - 1) in g;
        }
      }
    }
  }

  /**
   * Removing the full row `k` takes one full row away: below `k` the counts
   * agree, and from `k` up the shifted grid is one full row behind.
   */
  lemma {:induction false} FullRowsBelowShift(g: ExtGrid, grid: ExtGrid, k: nat, n: nat)
    requires k < BOARD_ROWS && n <= BOARD_ROWS && RowComplete(grid, k) && IsShiftOf(g, grid, k)
    ensures n <= k ==> FullRowsBelow(g, n) == FullRowsBelow(grid, n)
    ensures k < n ==> FullRowsBelow(g, n - 1) + 1 == FullRowsBelow(grid, n)
    decreases n
  {
    if n > 0 {
      FullRowsBelowShift(g, grid, k, n - 1);
      ShiftedRowComplete(g, grid, k, n - 1);
      if k < n - 1 {
        ShiftedRowComplete(g, grid, k, n - 2);
      }
    }
  }

  /** Removing a full row lowers the number of full rows by exactly one. */
  lemma FullRowsShift(grid: ExtGrid, k: nat)
    requires k < BOARD_ROWS && RowFull(grid, k)
    ensures FullRows(ShiftedGrid(grid, k)) + 1 == FullRows(grid)
  {
    var g := ShiftedGrid(grid, k);
    RowFullIff(grid, k);
    ShiftedGridIsShift(grid, k);
    FullRowsBelowShift(g, grid, k, BOARD_ROWS);
    ShiftedRowComplete(g, grid, k, BOARD_ROWS - 1);
  }

  /** The rows the scan may still visit: those above the cursor plus every full row. */
  ghost function Remaining(b: Board<ProcessesRows>): nat
    requires b.state.current < BOARD_ROWS
  {
    BOARD_ROWS - b.state.current + FullRows(b.grid)
  }

  /**
   * Every step of the scan that does not end it lowers the remaining count by
   * one: either the cursor advances, or a full row is removed.
   */
  lemma ProcessRowProgress(b: Board<ProcessesRows>)
    requires b.state.current < BOARD_ROWS && ProcessRow(b).Left?
    ensures Remaining(ProcessRow(b).left) + 1 == Remaining(b)
  {
    if RowFull(b.grid, b.state.current) {
      FullRowsShift(b.grid, b.state.current);
    }
  }

  /**
   * Calling process_row until the board takes a tile again: the final board
   * and the number of calls. The scan ends after at most as many calls as
   * rows above the cursor plus full rows, and the rim survives it.
   */
  function Scan(b: Board<ProcessesRows>): (r: (Board<TakesTile>, nat))
    requires b.state.current < BOARD_ROWS
    ensures 1 <= r.1 <= Remaining(b)
    ensures Rim() <= b.grid ==> Rim() <= r.0.grid
    ensures Framed(b.grid) ==> Framed(r.0.grid)
    decreases Remaining(b)
  {
    ProcessRowKeepsRim(b);
    match ProcessRow(b)
    case Right(done) => (done, 1)
    case Left(next) =>
      ProcessRowProgress(b);
      var rest := Scan(next);
      (rest.0, rest.1 + 1)
  }

  /** A call of process_row that ends the scan is the scan's only call. */
  lemma ScanEnds(b: Board<ProcessesRows>, done: Board<TakesTile>)
    requires b.state.current < BOARD_ROWS && ProcessRow(b) == Right(done)
    ensures Scan(b) == (done, 1)
  {
  }

  /** A call of process_row that goes on adds one call to the rest of the scan. */
  lemma ScanContinues(b: Board<ProcessesRows>, next: Board<ProcessesRows>)
    requires b.state.current < BOARD_ROWS && ProcessRow(b) == Left(next)
    ensures next.state.current < BOARD_ROWS
    ensures Scan(b).0 == Scan(next).0
    ensures Scan(b).1 == Scan(next).1 + 1
  {
  }

  /** Every playfield cell of row `r` is clear. */
  ghost predicate RowClear(grid: ExtGrid, r: nat)
  {
    forall p :: InPlayfield(p) && p.y == r + 1 ==> p !in grid
  }

  /** process_row's look-ahead test for an empty row holds exactly when all five cells of the row are clear. */
  lemma RowEmptyIff(grid: ExtGrid, r: nat)
    requires r < BOARD_ROWS
    ensures RowEmpty(grid, r) <==> RowClear(grid, r)
  {
    if !RowEmpty(grid, r) {
      var q :| q in grid * FromGrid(Row(r));
      assert InPlayfield(q) && q.y == r + 1;
    }
    if !RowClear(grid, r) {
      var q :| InPlayfield(q) && q.y == r + 1 && q in grid;
      assert Point(q.x - 1, q.y - 1) in Row(r);
      assert q in grid * FromGrid(Row(r));
    }
  }

  /** A full row is not clear. */
  lemma CompleteNotClear(grid: ExtGrid, r: nat)
    requires r < BOARD_ROWS && RowComplete(grid, r)
    ensures !RowClear(grid, r)
  {
    assert InPlayfield(Point(1, r + 1));
  }

  /**
   * No empty playfield row lies below a row that holds a cell: the settled
   * cells form a stack without gaps, which the early end of the scan relies on.
   */
  ghost predicate NoGaps(grid: ExtGrid)
  {
    forall i: nat, j: nat :: i < j < BOARD_ROWS && RowClear(grid, i) ==> RowClear(grid, j)
  }

  /** A new board has no gaps: every playfield row is clear. */
  lemma NewBoardNoGaps()
    ensures forall r: nat :: r < BOARD_ROWS ==> RowClear(New().grid, r)
    ensures NoGaps(New().grid)
  {
    forall r: nat | r < BOARD_ROWS ensures RowClear(New().grid, r) {
      forall p | InPlayfield(p) && p.y == r + 1 ensures p !in New().grid {
        assert p !in Rim();
      }
    }
  }

  /**
   * After removing row `k`, every row below it is clear exactly as before,
   * each row from `k` up is clear as the row above it was, and the top row is
   * clear.
   */
  lemma ShiftedRowClear(g: ExtGrid, grid: ExtGrid, k: nat, y: nat)
    requires IsShiftOf(g, grid, k) && y < BOARD_ROWS
    ensures y < k ==> (RowClear(g, y) <==> RowClear(grid, y))
    ensures k <= y < BOARD_ROWS - 1 ==> (RowClear(g, y) <==> RowClear(grid, y + 1))
    ensures y == BOARD_ROWS - 1 ==> RowClear(g, y)
  {
    if k <= y < BOARD_ROWS - 1 {
      if RowClear(grid, y + 1) {
        forall p | InPlayfield(p) && p.y == y + 1 ensures p !in g {
          assert Point(p.x, p.y + 1) !in grid;
        }
      }
      if RowClear(g, y) {
        forall q | InPlayfield(q) && q.y == y + 2 ensures q !in grid {
          assert Point(q.x, q.y - 1) !in g;
        }
      }
    }
  }

  /** Removing a row keeps a stack without gaps. */
  lemma ShiftKeepsNoGaps(grid: ExtGrid, k: nat)
    requires k < BOARD_ROWS && NoGaps(grid)
    ensures NoGaps(ShiftedGrid(grid, k))
  {
    var g := ShiftedGrid(grid, k);
    ShiftedGridIsShift(grid, k);
    forall i: nat, j: nat | i < j < BOARD_ROWS && RowClear(g, i) ensures RowClear(g, j) {
      ShiftedRowClear(g, grid, k, i);
      ShiftedRowClear(g, grid, k, j);
      if j < BOARD_ROWS - 1 {
        if i < k {
          assert RowClear(grid, i);
        } else {
          assert RowClear(grid, i + 1);
        }
      }
    }
  }

  /**
   * Adding a group of cells at most one row apart, one of which rests on
   * the floor or on a settled cell, keeps a stack without gaps.
   */
  lemma SettleKeepsNoGaps(grid: ExtGrid, cells: set<Point>, q: Point)
    requires NoGaps(grid)
    requires forall p, p' :: p in cells && p' in cells ==> Adjacent(p, p')
    requires q in cells && InPlayfield(q) && (q.y == 1 || Point(q.x, q.y - 1) in grid)
    ensures NoGaps(grid + cells)
  {
    var g := grid + cells;
    SupportedRows(grid, q);
    forall i: nat, j: nat | i < j < BOARD_ROWS && RowClear(g, i) ensures RowClear(g, j) {
      assert RowClear(grid, i) && q.y != i + 1;
      assert RowClear(grid, j);
      forall m | InPlayfield(m) && m.y == j + 1 ensures m !in g {
        assert !Adjacent(m, q);
      }
    }
  }

  /** Every row below a cell that rests on the floor or on a settled cell holds a cell. */
  lemma SupportedRows(grid: ExtGrid, q: Point)
    requires NoGaps(grid)
    requires InPlayfield(q) && (q.y == 1 || Point(q.x, q.y - 1) in grid)
    ensures forall i: nat :: i + 1 < q.y ==> !RowClear(grid, i)
  {
    forall i: nat | i + 1 < q.y ensures !RowClear(grid, i) {
      assert InPlayfield(Point(q.x, q.y - 1));
      assert !RowClear(grid, q.y - 2);
    }
  }

  /**
   * Freezing a tile in a valid position where one of its cells rests on the
   * floor or on a settled cell keeps the stack without gaps.
   */
  lemma FreezeKeepsNoGaps(b: Board<TakesTile>, t: Tile, q: Point)
    requires Framed(b.grid) && NoGaps(b.grid) && IsPositionValid(b, t)
    requires q in Cells(t) && (q.y == 1 || Point(q.x, q.y - 1) in b.grid)
    ensures NoGaps(FreezeTile(b, t).value.grid)
  {
    assert InPlayfield(q) by {
      ValidIffInPlayfield(b, t);
    }
    assert q in Occupied(t);
    OccupiedClose(t);
    SettleKeepsNoGaps(b.grid, Occupied(t), q);
    FreezeAddsTileCells(b, t);
  }

  /** The lowest `n` rows hold no full row exactly when none of them is full. */
  lemma {:induction false} FullRowsBelowZero(grid: ExtGrid, n: nat)
    requires n <= BOARD_ROWS
    ensures FullRowsBelow(grid, n) == 0 <==> forall r: nat :: r < n ==> !RowComplete(grid, r)
    decreases n
  {
    if n > 0 {
      FullRowsBelowZero(grid, n - 1);
    }
  }

  /**
   * The scan removes every full row: started on a stack without gaps, with
   * no full row below the cursor, it ends on a board with no full row and
   * still without gaps. Stacked full rows collapse in the one pass, and
   * stopping at the first empty row misses none, because every row above an
   * empty one is empty.
   */
  lemma {:induction false} ScanClearsFullRows(b: Board<ProcessesRows>)
    requires b.state.current < BOARD_ROWS && NoGaps(b.grid)
    requires forall r: nat :: r < b.state.current ==> !RowComplete(b.grid, r)
    ensures FullRows(Scan(b).0.grid) == 0
    ensures NoGaps(Scan(b).0.grid)
    decreases Remaining(b)
  {
    var c := b.state.current;
    var g := PrunedGrid(b.grid, c);
    var n := NextRow(b.grid, c);
    RowFullIff(b.grid, c);
    if RowFull(b.grid, c) {
      ShiftedGridIsShift(b.grid, c);
      ShiftKeepsNoGaps(b.grid, c);
      forall r | r < c ensures !RowComplete(g, r) {
        ShiftedRowComplete(g, b.grid, c, r);
      }
    }
    assert forall r: nat :: r < n ==> !RowComplete(g, r);
    match ProcessRow(b)
    case Right(done) =>
      ScanEnds(b, done);
      if n < BOARD_ROWS {
        RowEmptyIff(g, n);
        forall r: nat | n <= r < BOARD_ROWS ensures !RowComplete(g, r) {
          if RowComplete(g, r) {
            CompleteNotClear(g, r);
          }
        }
      }
      FullRowsBelowZero(g, BOARD_ROWS);
    case Left(next) =>
      ProcessRowProgress(b);
      ScanContinues(b, next);
      ScanClearsFullRows(next);
  }

  /** Rasterization<Passive> during the scan: the playfield without the current row. */
  function RasterizeRowsPassive(b: Board<ProcessesRows>): (g: Grid)
    requires b.state.current < BOARD_ROWS
    ensures forall p :: p in g <==> InGrid(p) && p.y != b.state.current && Point(p.x + 1, p.y + 1) in b.grid
  {
    Center(b.grid) - Row(b.state.current)
  }

  /** Rasterization<Active> during the scan: the current row alone. */
  function RasterizeRowsActive(b: Board<ProcessesRows>): (g: Grid)
    requires b.state.current < BOARD_ROWS
    ensures forall p :: p in g <==> InGrid(p) && p.y == b.state.current && Point(p.x + 1, p.y + 1) in b.grid
  {
    Center(b.grid) * Row(b.state.current)
  }

  /**
   * The active and passive layers of a scanning board are disjoint, together
   * make up the playfield, and the active one lies in the current row.
   */
  lemma RowsRastersSplit(b: Board<ProcessesRows>)
    requires b.state.current < BOARD_ROWS
    ensures RasterizeRowsActive(b) * RasterizeRowsPassive(b) == {}
    ensures RasterizeRowsActive(b) + RasterizeRowsPassive(b) == Center(b.grid)
    ensures forall p :: p in RasterizeRowsActive(b) ==> p.y == b.state.current
  {
  }
}

module BoardScenarios {
  import opened Tiles
  import opened Wrappers
  import opened CellGrid
  import opened Boards

  /** Two framed grids are equal when their playfields agree. */
  lemma FramedEqual(a: ExtGrid, b: ExtGrid)
    requires Framed(a) && Framed(b)
    requires forall p :: InPlayfield(p) ==> (p in a <==> p in b)
    ensures a == b
  {
    forall p ensures p in a <==> p in b {
      if !InPlayfield(p) && InWindow(p) {
        assert p in Rim();
      }
    }
  }

  /**
   * A shift of `grid` at row `k` equals a framed grid `e` whose playfield
   * keeps the rows of `grid` up to `k`, holds the rows above `k` one lower
   * and leaves the top row empty.
   */
  lemma ShiftEquals(g: ExtGrid, grid: ExtGrid, k: nat, e: ExtGrid)
    requires Framed(g) && Framed(e) && IsShiftOf(g, grid, k) && IsShiftOf(e, grid, k)
    ensures g == e
  {
    FramedEqual(g, e);
  }

  /** Inside the playfield, a grid made of the rim and some cells holds exactly those cells. */
  lemma PlayfieldCell(cells: set<Point>, p: Point)
    requires InPlayfield(p)
    ensures p in Rim() + cells <==> p in cells
  {
  }

  /**
   * The settled cells at the start of the row-processing scenario, row by
   * row from the bottom: columns 2 and 4, a full row, the odd columns, a
   * full row, nothing.
   */
  predicate StartAt(x: int, y: int)
  {
    (y == 1 && (x == 2 || x == 4)) || y == 2 || (y == 3 && x % 2 == 1) || y == 4
  }

  /** The settled cells after the first full row was removed. */
  predicate MiddleAt(x: int, y: int)
  {
    (y == 1 && (x == 2 || x == 4)) || (y == 2 && x % 2 == 1) || y == 3
  }

  /** The settled cells at the end: both full rows removed, the partial rows stacked at the bottom. */
  predicate EndAt(x: int, y: int)
  {
    (y == 1 && (x == 2 || x == 4)) || (y == 2 && x % 2 == 1)
  }

  /** The settled cells of the start grid. */
  function StartCells(): (c: set<Point>)
    ensures forall p :: p in c <==> InPlayfield(p) && StartAt(p.x, p.y)
  {
    set x: int, y: int | 1 <= x <= BOARD_COLS && 1 <= y <= BOARD_ROWS && StartAt(x, y) :: Point(x, y)
  }

  /** The settled cells of the middle grid. */
  function MiddleCells(): (c: set<Point>)
    ensures forall p :: p in c <==> InPlayfield(p) && MiddleAt(p.x, p.y)
  {
    set x: int, y: int | 1 <= x <= BOARD_COLS && 1 <= y <= BOARD_ROWS && MiddleAt(x, y) :: Point(x, y)
  }

  /** The settled cells of the end grid. */
  function EndCells(): (c: set<Point>)
    ensures forall p :: p in c <==> InPlayfield(p) && EndAt(p.x, p.y)
  {
    set x: int, y: int | 1 <= x <= BOARD_COLS && 1 <= y <= BOARD_ROWS && EndAt(x, y) :: Point(x, y)
  }

  /** The start of the row-processing scenario. */
  function ScenarioStart(): ExtGrid
  {
    Rim() + StartCells()
  }

  /** The scenario after the first full row was removed. */
  function ScenarioMiddle(): ExtGrid
  {
    Rim() + MiddleCells()
  }

  /** The end of the scenario. */
  function ScenarioEnd(): ExtGrid
  {
    Rim() + EndCells()
  }

  /** The middle grid keeps the start's lowest playfield row. */
  lemma MiddleKeepsRowsBelow()
    ensures forall p :: InPlayfield(p) && p.y <= 1 ==> (p in ScenarioMiddle() <==> p in ScenarioStart())
  {
    forall p | InPlayfield(p) && p.y <= 1 ensures p in ScenarioMiddle() <==> p in ScenarioStart() {
      PlayfieldCell(MiddleCells(), p);
      PlayfieldCell(StartCells(), p);
    }
  }

  /** The middle grid holds the start's rows above the second, one lower. */
  lemma MiddleMovesRowsAbove()
    ensures forall p :: InPlayfield(p) && 1 < p.y < BOARD_ROWS ==> (p in ScenarioMiddle() <==> Point(p.x, p.y + 1) in ScenarioStart())
  {
    forall p | InPlayfield(p) && 1 < p.y < BOARD_ROWS ensures p in ScenarioMiddle() <==> Point(p.x, p.y + 1) in ScenarioStart() {
      PlayfieldCell(MiddleCells(), p);
      PlayfieldCell(StartCells(), Point(p.x, p.y + 1));
    }
  }

  /** The middle grid is framed and its top row is empty. */
  lemma MiddleFramed()
    ensures Framed(ScenarioMiddle())
    ensures forall p :: p in ScenarioMiddle() && InPlayfield(p) ==> p.y < BOARD_ROWS
  {
  }

  /** Removing row 1 of the start grid gives the middle grid. */
  lemma ShiftStart()
    ensures ShiftedGrid(ScenarioStart(), 1) == ScenarioMiddle()
  {
    MiddleKeepsRowsBelow();
    MiddleMovesRowsAbove();
    MiddleFramed();
    assert IsShiftOf(ScenarioMiddle(), ScenarioStart(), 1);
    ShiftedGridIsShift(ScenarioStart(), 1);
    ShiftEquals(ShiftedGrid(ScenarioStart(), 1), ScenarioStart(), 1, ScenarioMiddle());
  }

  /** The end grid keeps the middle's two lowest playfield rows. */
  lemma EndKeepsRowsBelow()
    ensures forall p :: InPlayfield(p) && p.y <= 2 ==> (p in ScenarioEnd() <==> p in ScenarioMiddle())
  {
    forall p | InPlayfield(p) && p.y <= 2 ensures p in ScenarioEnd() <==> p in ScenarioMiddle() {
      PlayfieldCell(EndCells(), p);
      PlayfieldCell(MiddleCells(), p);
    }
  }

  /** The end grid holds the middle's rows above the third, one lower. */
  lemma EndMovesRowsAbove()
    ensures forall p :: InPlayfield(p) && 2 < p.y < BOARD_ROWS ==> (p in ScenarioEnd() <==> Point(p.x, p.y + 1) in ScenarioMiddle())
  {
    forall p | InPlayfield(p) && 2 < p.y < BOARD_ROWS ensures p in ScenarioEnd() <==> Point(p.x, p.y + 1) in ScenarioMiddle() {
      PlayfieldCell(EndCells(), p);
      PlayfieldCell(MiddleCells(), Point(p.x, p.y + 1));
    }
  }

  /** The end grid is framed and its top row is empty. */
  lemma EndFramed()
    ensures Framed(ScenarioEnd())
    ensures forall p :: p in ScenarioEnd() && InPlayfield(p) ==> p.y < BOARD_ROWS
  {
  }

  /** Removing row 2 of the middle grid gives the end grid. */
  lemma ShiftMiddle()
    ensures ShiftedGrid(ScenarioMiddle(), 2) == ScenarioEnd()
  {
    EndKeepsRowsBelow();
    EndMovesRowsAbove();
    EndFramed();
    assert IsShiftOf(ScenarioEnd(), ScenarioMiddle(), 2);
    ShiftedGridIsShift(ScenarioMiddle(), 2);
    ShiftEquals(ShiftedGrid(ScenarioMiddle(), 2), ScenarioMiddle(), 2, ScenarioEnd());
  }

  /** Row 1 of the start grid is full. */
  lemma StartRowComplete()
    ensures RowComplete(ScenarioStart(), 1)
  {
  }

  /** Row 2 of the middle grid is full. */
  lemma MiddleRowComplete()
    ensures RowComplete(ScenarioMiddle(), 2)
  {
  }

  /** Rows 1 and 2 of the middle grid are not empty. */
  lemma MiddleRowsNotEmpty()
    ensures !RowEmpty(ScenarioMiddle(), 1) && !RowEmpty(ScenarioMiddle(), 2)
  {
    assert Point(1, 2) in ScenarioMiddle() * FromGrid(Row(1));
    assert Point(1, 3) in ScenarioMiddle() * FromGrid(Row(2));
  }

  /** First call: row 0 is not full, row 1 is not empty, so the scan moves on to row 1. */
  lemma ScenarioStep1()
    ensures ProcessRow(Board(ProcessesRows(0), ScenarioStart())) == Left(Board(ProcessesRows(1), ScenarioStart()))
  {
    var g := ScenarioStart();
    assert Point(1, 1) !in g;
    assert Point(1, 2) in g * FromGrid(Row(1));
    ProcessRowAdvances(Board(ProcessesRows(0), g));
  }

  /** Second call: row 1 is full and removed; the new row 1 is not empty, so it is examined again. */
  lemma ScenarioStep2()
    ensures ProcessRow(Board(ProcessesRows(1), ScenarioStart())) == Left(Board(ProcessesRows(1), ScenarioMiddle()))
  {
    ShiftStart();
    StartRowComplete();
    MiddleRowsNotEmpty();
    ProcessRowRemoves(Board(ProcessesRows(1), ScenarioStart()));
  }

  /** Third call: row 1 is not full, row 2 is not empty, so the scan moves on to row 2. */
  lemma ScenarioStep3()
    ensures ProcessRow(Board(ProcessesRows(1), ScenarioMiddle())) == Left(Board(ProcessesRows(2), ScenarioMiddle()))
  {
    var g := ScenarioMiddle();
    assert Point(2, 2) !in g;
    MiddleRowsNotEmpty();
    ProcessRowAdvances(Board(ProcessesRows(1), g));
  }

  /** Fourth call: row 2 is full and removed; the new row 2 is empty, so the scan ends. */
  lemma ScenarioStep4()
    ensures ProcessRow(Board(ProcessesRows(2), ScenarioMiddle())) == Right(Board(TakesTile, ScenarioEnd()))
  {
    ShiftMiddle();
    MiddleRowComplete();
    RowEmptyScenarioEnd();
    ProcessRowRemoves(Board(ProcessesRows(2), ScenarioMiddle()));
  }

  /** Row 2 of the scenario's final grid is empty. */
  lemma RowEmptyScenarioEnd()
    ensures RowEmpty(ScenarioEnd(), 2)
  {
  }

  /** The last call of the scenario's scan. */
  lemma ScanFromStep4()
    ensures Scan(Board(ProcessesRows(2), ScenarioMiddle())) == (Board(TakesTile, ScenarioEnd()), 1)
  {
    ScenarioStep4();
    ScanEnds(Board(ProcessesRows(2), ScenarioMiddle()), Board(TakesTile, ScenarioEnd()));
  }

  /** The last two calls of the scenario's scan. */
  lemma ScanFromStep3()
    ensures Scan(Board(ProcessesRows(1), ScenarioMiddle())) == (Board(TakesTile, ScenarioEnd()), 2)
  {
    ScenarioStep3();
    ScanFromStep4();
    ScanContinues(Board(ProcessesRows(1), ScenarioMiddle()), Board(ProcessesRows(2), ScenarioMiddle()));
  }

  /** The last three calls of the scenario's scan. */
  lemma ScanFromStep2()
    ensures Scan(Board(ProcessesRows(1), ScenarioStart())) == (Board(TakesTile, ScenarioEnd()), 3)
  {
    ScenarioStep2();
    ScanFromStep3();
    ScanContinues(Board(ProcessesRows(1), ScenarioStart()), Board(ProcessesRows(1), ScenarioMiddle()));
  }

  /**
   * The row-processing scenario of the board tests: scanning from row 0
   * removes both full rows and stops on the fourth call of process_row,
   * leaving the two partial rows at the bottom.
   */
  lemma ProcessRowsScenario()
    ensures Scan(Board(ProcessesRows(0), ScenarioStart())) == (Board(TakesTile, ScenarioEnd()), 4)
  {
    ScenarioStep1();
    ScanFromStep2();
    ScanContinues(Board(ProcessesRows(0), ScenarioStart()), Board(ProcessesRows(1), ScenarioStart()));
  }

  /** Settled cells with a gap: one cell in row 0, nothing in row 1, a full row 2. */
  predicate GapAt(x: int, y: int)
  {
    (y == 1 && x == 1) || y == 3
  }

  /** The settled cells of the grid with a gap. */
  function GapCells(): (c: set<Point>)
    ensures forall p :: p in c <==> InPlayfield(p) && GapAt(p.x, p.y)
  {
    set x: int, y: int | 1 <= x <= BOARD_COLS && 1 <= y <= BOARD_ROWS && GapAt(x, y) :: Point(x, y)
  }

  /** A board whose settled cells leave an empty row under a full one. */
  function ScenarioGap(): ExtGrid
  {
    Rim() + GapCells()
  }

  /** Row 1 of the grid with a gap is clear. */
  lemma GapRowClear()
    ensures RowClear(ScenarioGap(), 1)
  {
    forall p | InPlayfield(p) && p.y == 2 ensures p !in ScenarioGap() {
      PlayfieldCell(GapCells(), p);
    }
  }

  /** Row 2 of the grid with a gap is full. */
  lemma GapRowComplete()
    ensures RowComplete(ScenarioGap(), 2)
  {
  }

  /** The first call of the scan: row 0 is not full and row 1 is empty, so the scan ends. */
  lemma GapStep()
    ensures ProcessRow(Board(ProcessesRows(0), ScenarioGap())) == Right(Board(TakesTile, ScenarioGap()))
  {
    var g := ScenarioGap();
    assert Point(2, 1) !in g by {
      PlayfieldCell(GapCells(), Point(2, 1));
    }
    RowFullIff(g, 0);
    GapRowClear();
    RowEmptyIff(g, 1);
  }

  /**
   * Why the scan needs a stack without gaps: below an empty row 1, the full
   * row 2 is never examined; the scan stops after its first call and the full
   * row stays.
   */
  lemma GapHidesFullRow()
    ensures !NoGaps(ScenarioGap()) && RowComplete(ScenarioGap(), 2)
    ensures Scan(Board(ProcessesRows(0), ScenarioGap())) == (Board(TakesTile, ScenarioGap()), 1)
  {
    var g := ScenarioGap();
    GapRowClear();
    GapRowComplete();
    CompleteNotClear(g, 2);
    GapStep();
    ScanEnds(Board(ProcessesRows(0), g), Board(TakesTile, g));
  }
}
