# microtile-engine rules engine in Dafny

This project models the rules engine of microtile-engine. The game is a small
falling-tile puzzle played on a 5 by 5 playfield. Tiles are one of three basic
shapes: a square, a diagonal or a line. A tile appears at the top of the
playfield, where it can be moved sideways, rotated and pushed down. When it can
go no further it freezes into the board. The board then scans its rows bottom
to top and removes every full row, moving the rows above it down.

The model has four layers, leaf first.

- **Tiles** (`tiles.dfy`, src/geometry/tile.rs).
  - A basic shape is given by its occupancy predicate.
  - The rotated and displaced wrappers become one recursive datatype, `Tile`, which allows any nesting.
  - `Contains` answers the occupancy question the same way the code does. `Cells` lists the occupied points explicitly, and the two are proved to agree.
  - The floating tile of the game, a displaced rotated basic tile, is the subset type `FloatingTile`.
- **Grids.**
  - `bit_grid.dfy` models the `u32` bit grid of src/geometry/grid.rs on `bv32`.
  - `rim_array.dfy` models the 7 by 7 array board of src/geometry/board.rs.
  - `cell_grid.dfy` models the 5 by 5 `Grid` / 7 by 7 `ExtGrid` interface that the gameplay board is written against. It is stated on sets of points:
    - x is the column and y is the row, with row 0 at the bottom;
    - the `ExtGrid` playfield is x, y in 1..5, inside a one-cell rim.
- **Board** (`boards.dfy`, src/gameplay/board.rs).
  - The board is a value in one of two phases, `TakesTile` and `ProcessesRows(current)`.
  - On a framed board, `IsPositionValid` is proved equivalent to "every cell of the tile is in the playfield and free".
  - `FreezeTile` and `ProcessRow` are the transitions.
  - `Scan` iterates `ProcessRow` to the end of the row scan. Its termination measure is "rows left to look at, plus full rows".
  - `NoGaps` states the design assumption behind the early end of the scan: no empty playfield row lies below a row that holds a cell. A new board meets it, freezing a tile that cannot descend keeps it, removing a row keeps it, moving and turning a tile leave the board alone, and on such a board the scan leaves no full row (`Boards.ScanClearsFullRows`, `Games.SettleClearsFullRows`). Without it the scan can miss a full row (`BoardScenarios.GapHidesFullRow`).
- **Game** (`games.dfy`, src/gameplay/game.rs).
  - The phases `TileNeeded`, `TileFloating`, `ProcessRows` and `Over` are datatypes over their payloads.
  - The consuming transitions `place_tile`, `descend_tile` and `process_row` are functions returning `Either`.
  - `Game<S, O>` is a class holding the phase and the observer slot.
  - The in-place operations are methods on it: `set_observer`, `clear_observer`, `move_tile_up_to` (a loop proved against the recursive function `MoveUpTo`) and `rotate_tile`.

Points where the model follows the code rather than its comments or tests:

- **Rotation direction.** The wrappers answer a quarter turn by querying the inner shape at (-y, x). This turns the occupancy clockwise, although `rotate_ccw` is documented as counter-clockwise. The model follows the code: one turn lays an upright line (0, 0), (0, 1) down onto (0, 0), (1, 0) (`GameScenarios.SpawnLineRotates`). The test at tests/games.rs:514 expects the sixteenth tile, a line at column 1, to refuse a rotation, which only the counter-clockwise reading gives; under the code's rotation the line lies down on two free cells (`GameScenarios.SixteenthTileTurns`).
- **Row cursor.** The cursor of `ProcessesRows` is 0-indexed over the 5 rows of the playfield, as src/gameplay/board.rs:31 says.
- **Early exit.** `process_row` ends the scan at the first empty row. So in the board unit test the scan ends on the 4th call, not after the 7 calls the test's loop expects. The final grid is the test's (`BoardScenarios.ProcessRowsScenario`). The per-tile call counts in tests/games.rs:74-91 are not modelled for the same reason.
- **Missing definitions.** The `ExtGrid` conversion from a tile is not in the modelled files. It is taken to be the tile's cells inside the 7 by 7 window, and to fail exactly when there are none. The default `ExtGrid` is taken to be empty. The `dimensions()` of a basic tile is taken from the doc comments of the enum: the square is 1 wide and 1 high, the diagonal 2 wide and 2 high, the line 1 wide and 2 high.

## Model

| member | source | states |
|---|---|---|
| Tiles.Angle.RotateCcw | src/geometry/tile.rs:92-103 | one step advances the angle by one quarter, modulo four |
| Tiles.AngleFullTurn | src/geometry/tile.rs:95-102 | four steps give the angle back; one, two or three steps never do |
| Tiles.BasicTile.Cells | src/geometry/tile.rs:52-60 | the listed cells are exactly the points the shape contains, without repeats, and start at the origin |
| Tiles.BasicTile.Contains | src/geometry/tile.rs:52-60 | the square occupies only the origin, the diagonal the origin and (1, 1), the line the origin and (0, 1) |
| Tiles.BasicTile.Dimensions | src/geometry/tile.rs:12-19 | width and height are the smallest box from the origin that holds every cell: the square 1 wide and 1 high, the diagonal 2 wide and 2 high, the line 1 wide and 2 high |
| Tiles.BasicOccupancy | src/geometry/tile.rs:52-60 | Square occupies {(0,0)}, Diagonal {(0,0),(1,1)}, Line {(0,0),(0,1)} |
| Tiles.Turn | src/geometry/tile.rs:66-73 | the image of a cell under a quarter turn is the point whose query is that cell |
| Tiles.RotatedQuery | src/geometry/tile.rs:66-73 | a rotated shape contains (x, y) iff its inner shape contains the query point (x,y), (-y,x), (-x,-y) or (y,-x) |
| Tiles.Contains | src/geometry/tile.rs:48-83 | a rotated shape answers for (x, y) what its inner shape answers at the point turned back by the angle; a displaced one answers at the point minus its offsets |
| Tiles.ContainsIffCells | src/geometry/tile.rs:48-83 | for every nesting of wrappers, containment agrees with the explicit cell list |
| Tiles.OccupancyIsCells | src/geometry/tile.rs:48-83 | the occupied set is exactly the set of points the shape contains |
| Tiles.OccupiedCount | src/geometry/tile.rs:66-82 | rotation and displacement keep the number of occupied cells: 1 for a square, 2 otherwise |
| Tiles.CellsClose | src/geometry/tile.rs:48-83 | any two cells of any shape are at most one step apart in each direction |
| Tiles.Anchor | src/geometry/tile.rs:48-83 | every shape occupies the image of the basic tile's origin |
| Tiles.NewRotated | src/geometry/tile.rs:26-30 | a new rotated tile has angle zero and contains exactly what the wrapped shape contains |
| Tiles.NewDisplaced | src/geometry/tile.rs:38-46 | a new displaced tile has zero offsets and contains exactly what the wrapped shape contains |
| Tiles.RotateCcw | src/geometry/tile.rs:105-137 | rotation keeps the basic tile, makes a rotated tile of an undisplaced one, and keeps a displaced tile's offsets |
| Tiles.RotateCcwQuarterTurn | src/geometry/tile.rs:105-122 | rotating an undisplaced shape answers (x, y) with the old answer at (-y, x) |
| Tiles.RotateCcwAboutOffset | src/geometry/tile.rs:124-137 | rotating a displaced shape rotates the inner shape about the offset point |
| Tiles.RotateFourTimes | src/geometry/tile.rs:113-137 | four rotations give the same occupancy everywhere, and give a rotated tile (or a displaced rotated tile) back unchanged |
| Tiles.DisplaceBy | src/geometry/tile.rs:139-171 | the result is displaced, keeps the basic tile, and contains (x, y) iff the input contains (x - dx, y - dy) |
| Tiles.DisplaceByAdds | src/geometry/tile.rs:164-170 | displacing by (a, b) then (c, d) equals displacing by (a + c, b + d) |
| Tiles.DisplaceByZero | src/geometry/tile.rs:164-170 | displacing by (0, 0) keeps the occupancy, and keeps a displaced tile unchanged |
| Tiles.FloatingAnchor | src/geometry/tile.rs:76-83 | a floating tile occupies its offset point |
| BitGrid.New | src/geometry/grid.rs:10-12 | wraps the given word as the grid's bits, unchanged |
| BitGrid.Overlaps | src/geometry/grid.rs:14-16 | two grids overlap when the AND of their words is non-zero |
| BitGrid.Default | src/geometry/grid.rs:27-31 | the default grid overlaps no grid |
| BitGrid.DefaultOverlapsNothing | src/geometry/grid.rs:27-31 | the default grid is the word 0 and overlaps nothing in either order |
| BitGrid.OverlapsSymmetric | src/geometry/grid.rs:14-16 | a overlaps b iff b overlaps a |
| BitGrid.SelfOverlap | src/geometry/grid.rs:14-16 | a grid overlaps itself iff it is non-zero |
| BitGrid.OverlapsMonotone | src/geometry/grid.rs:14-16 | if a overlaps b and b's bits are among c's, a overlaps c |
| BitGrid.CommonBitOverlaps | src/geometry/grid.rs:14-16 | a bit set in both grids makes them overlap |
| BitGrid.OverlapsIffCommonBit | src/geometry/grid.rs:14-16 | two grids overlap iff some bit is set in both |
| RimArray.New | src/geometry/board.rs:14-25 | a 7 by 7 array whose cell (r, c) is set iff r or c is on the outer border |
| RimArray.Default | src/geometry/board.rs:28-33 | the default board is the new board: 7 by 7 with exactly the border set |
| RimArray.Rasterize | src/geometry/board.rs:35-39 | the raster is the stored 7 by 7 array itself |
| RimArray.NewInteriorEmpty | src/geometry/board.rs:17-23 | no playfield cell of a new board is set |
| RimArray.NewMatchesRim | src/geometry/board.rs:35-39 | the raster of a new board is 7 by 7 and agrees cell by cell with the rim of the set grid |
| CellGrid.Rim | src/gameplay/board.rs:61-68 | the rim is exactly the border cells of the 7 by 7 window |
| CellGrid.Row | src/gameplay/board.rs:141-143 | row r is the five cells of the 5 by 5 grid at height r |
| CellGrid.FromGrid | src/gameplay/board.rs:160 | embedding puts cell (x, y) of the 5 by 5 grid at (x + 1, y + 1) of the playfield |
| CellGrid.Center | src/gameplay/board.rs:122-126 | the interior of a 7 by 7 grid read back as a 5 by 5 grid |
| CellGrid.Covers | src/gameplay/board.rs:141-143 | `contains`, used by the full-row test: the second grid is a subset of the first |
| CellGrid.CoversIffEveryCell | src/gameplay/board.rs:141-143 | `contains` holds iff every cell of the second grid is a cell of the first |
| CellGrid.Overlaps | src/gameplay/board.rs:70-80 | `overlaps`, used by the validity test and the empty-row look-ahead: the two grids share a cell |
| CellGrid.OverlapsIffCommonCell | src/gameplay/board.rs:174-176 | `overlaps` holds iff some cell lies in both grids |
| CellGrid.CenterFromGrid | src/gameplay/board.rs:150-160 | reading back an embedded grid, with or without the rim, gives it back |
| CellGrid.FromGridCenter | src/gameplay/board.rs:150-160 | a framed grid is its rim plus its embedded interior |
| CellGrid.DiscardAndShift | src/gameplay/board.rs:150-155 | fails iff the row is outside the grid; otherwise keeps the rows below, moves the rows above down by one and leaves the top row empty |
| CellGrid.TryFromTile | src/gameplay/board.rs:70-80 | the raster is exactly the tile's cells in the 7 by 7 window; it fails iff there are none |
| Boards.New | src/gameplay/board.rs:61-68 | a new board holds the rim and nothing in the playfield |
| Boards.DefaultProcessesRows | src/gameplay/board.rs:44-48 | the default scan phase has its cursor on row 0 |
| Boards.IsPositionValid | src/gameplay/board.rs:70-80 | a position is valid when the tile converts to a 7 by 7 grid and that grid shares no cell with the board, the rim included |
| Boards.ValidIffInPlayfield | src/gameplay/board.rs:70-80 | on a framed board a position is valid iff every cell of the tile is in the playfield and not set |
| Boards.ValidIffContained | src/gameplay/board.rs:70-80 | the same, stated on the tile's occupancy predicate |
| Boards.FreezeTileAssumeValid | src/gameplay/board.rs:98-112 | the scan starts at row 0 and the grid becomes the old grid plus the tile's cells in the window; the rim is kept |
| Boards.FreezeTile | src/gameplay/board.rs:82-96 | fails iff the position is invalid; otherwise the cursor is 0, no cell is cleared and exactly the tile's cells are added |
| Boards.FreezeAddsTileCells | src/gameplay/board.rs:86-112 | freezing a valid tile adds its cells, none of which was set before |
| Boards.RasterizePassive | src/gameplay/board.rs:122-126 | the passive layer of a board that takes a tile holds exactly the set playfield cells, in 5 by 5 coordinates |
| Boards.RowFullIff | src/gameplay/board.rs:140-143 | the row mask test holds iff every playfield cell of the row is set |
| Boards.ShiftedGrid | src/gameplay/board.rs:150-160 | the grid after removing a row keeps the rim and stays in the window |
| Boards.ShiftKeepsRowsBelow | src/gameplay/board.rs:150-160 | the removal keeps every playfield row below the removed one |
| Boards.ShiftMovesRowsAbove | src/gameplay/board.rs:150-160 | each row above the removed one holds the row that was one higher |
| Boards.ShiftClearsTopRow | src/gameplay/board.rs:150-160 | the top row of the playfield ends up empty |
| Boards.ProcessRow | src/gameplay/board.rs:128-188 | the grid is pruned iff the current row is full; the scan continues iff the next row is in range and not empty, and then at the next row |
| Boards.ProcessRowAdvances | src/gameplay/board.rs:161-187 | when the current row is not full and the next row is on the board and not empty, the grid is kept and the cursor moves up by one |
| Boards.ProcessRowRemoves | src/gameplay/board.rs:149-187 | a full row is removed and the same row is looked at again unless it is now empty |
| Boards.ProcessRowKeepsRim | src/gameplay/board.rs:149-172 | the rim survives every call, and a framed grid stays framed |
| Boards.FullRowsShift | src/gameplay/board.rs:149-160 | removing a full row lowers the number of full rows by exactly one |
| Boards.ProcessRowProgress | src/gameplay/board.rs:141-187 | each call that continues the scan lowers "rows left plus full rows" by one |
| Boards.Scan | src/gameplay/board.rs:128-188 | the scan ends within "rows left plus full rows" calls and keeps the rim |
| Boards.RowEmptyIff | src/gameplay/board.rs:174-176 | the look-ahead test holds iff every playfield cell of the row is clear |
| Boards.NewBoardNoGaps | src/gameplay/board.rs:61-68 | a new board has no empty row below a non-empty one: every playfield row is clear |
| Boards.ShiftedRowClear | src/gameplay/board.rs:150-160 | after removing row k, rows below k are clear as before, each row from k up is clear as the row above it was, and the top row is clear |
| Boards.ShiftKeepsNoGaps | src/gameplay/board.rs:150-160 | removing a row keeps "no empty row below a non-empty one" |
| Boards.SettleKeepsNoGaps | src/gameplay/board.rs:134-135 | adding cells at most one row apart, one of which rests on the floor or on a set cell, keeps "no empty row below a non-empty one" |
| Boards.FreezeKeepsNoGaps | src/gameplay/board.rs:86-112 | freezing a valid tile with a cell resting on the floor or on a set cell keeps "no empty row below a non-empty one" |
| Boards.FullRowsBelowZero | src/gameplay/board.rs:140-143 | no full row is counted among the lowest n rows iff none of them is full |
| Boards.ScanClearsFullRows | src/gameplay/board.rs:156-187 | on a board without gaps and with no full row below the cursor, the scan leaves no full row and no gap: stacked full rows collapse in one pass and the early end at an empty row misses none |
| Boards.RasterizeRowsPassive | src/gameplay/board.rs:191-199 | the passive layer of a scanning board holds the set playfield cells outside the current row |
| Boards.RasterizeRowsActive | src/gameplay/board.rs:201-209 | the active layer of a scanning board holds the set playfield cells of the current row |
| Boards.RowsRastersSplit | src/gameplay/board.rs:191-209 | the active and passive layers are disjoint, together make up the playfield, and the active one lies in the current row |
| BoardScenarios.ScenarioStep1 | src/gameplay/board.rs:222-263 | first call of the board test: row 0 is not full, so the scan moves on to row 1 |
| BoardScenarios.ScenarioStep2 | src/gameplay/board.rs:222-263 | second call: full row 1 is removed and row 1 is looked at again |
| BoardScenarios.ScenarioStep3 | src/gameplay/board.rs:222-263 | third call: row 1 is not full, the scan moves on to row 2 |
| BoardScenarios.ScenarioStep4 | src/gameplay/board.rs:222-263 | fourth call: full row 2 is removed, the new row 2 is empty and the scan ends |
| BoardScenarios.ProcessRowsScenario | src/gameplay/board.rs:222-263 | the scan of the test grid ends on the 4th call with the test's final grid |
| BoardScenarios.GapHidesFullRow | src/gameplay/board.rs:174-187 | on a board with a cell in row 0, an empty row 1 and a full row 2, the scan ends after one call and the full row stays |
| Games.DefaultTileNeeded | src/gameplay/game.rs:35-39 | a new game's board holds the rim and an empty playfield |
| Games.Game.constructor | src/gameplay/game.rs:101-105 | a game holds the given phase and observer slot |
| Games.Game.SetObserver | src/gameplay/game.rs:219-226 | fails with ObserverFull iff the slot is taken, and otherwise fills it; the phase is unchanged |
| Games.Game.ClearObserver | src/gameplay/game.rs:228-230 | empties the slot and returns its observer, or fails with ObserverEmpty |
| Games.NewGame | src/gameplay/game.rs:107-115 | a new game needs a tile, on the default board, with no observer |
| Games.SpawnTile | src/gameplay/game.rs:192-196 | the new tile is the basic tile at angle zero, displaced to column BOARD_COLS / 2 + 1 and to row BOARD_ROWS - height + 1 |
| Games.SpawnCell | src/gameplay/game.rs:192-196 | the new tile occupies the cells of its basic shape moved to the spawn point |
| Games.SpawnAtTop | src/gameplay/game.rs:191-196 | a new tile is unrotated, sits in column 3, lies in the playfield and reaches its top row |
| Games.PlaceTile | src/gameplay/game.rs:190-208 | the tile floats iff its spawn position is valid, otherwise the game is over on the same board; valid boards give valid floating tiles |
| Games.Lowered | src/gameplay/game.rs:239 | the lowered tile is one row down and contains what the tile contained one row higher |
| Games.DescendTile | src/gameplay/game.rs:237-253 | the tile moves down iff that is valid; otherwise it is frozen: the cursor starts at row 0 and the grid gains exactly its cells |
| Games.FloatingInPlayfield | src/gameplay/game.rs:255-259 | a valid floating tile's offset point lies in the playfield |
| Games.DescendKeepsNoGaps | src/gameplay/game.rs:237-253 | a tile is frozen only where one of its cells rests on the floor or on a set cell, so freezing keeps "no empty row below a non-empty one" |
| Games.SettleClearsFullRows | src/gameplay/game.rs:237-253 | after a tile settles on a board without gaps, the whole row scan leaves no full row and no gap |
| Games.DescentsBounded | src/gameplay/game.rs:238-253 | each descent lowers the tile and keeps it at row 1 or above |
| Games.TileColumn | src/gameplay/game.rs:255-259 | the column is the tile's x offset minus one and fits in a u8 |
| Games.TileColumnInRange | src/gameplay/game.rs:255-259 | for a valid floating tile the column is in 0..4, so the conversion never fails |
| Games.Sign | src/gameplay/game.rs:273 | the sign is -1, 0 or 1 and has the sign of its argument |
| Games.Walk | src/gameplay/game.rs:271-283 | the stepped tile keeps shape, angle and row and ends between its start and the target column |
| Games.WalkPathFits | src/gameplay/game.rs:277-283 | every column the tile steps through satisfies the step test |
| Games.WalkStops | src/gameplay/game.rs:277-283 | stepping stops at the target or in front of a column that fails the step test |
| Games.WalkIdempotent | src/gameplay/game.rs:271-287 | stepping towards the same column again changes nothing |
| Games.MoveUpTo | src/gameplay/game.rs:261-287 | the moved tile keeps shape, angle and row and ends between its start column and the target |
| Games.MoveUpToPathValid | src/gameplay/game.rs:271-283 | every column the tile passes through is a valid position |
| Games.MoveUpToStops | src/gameplay/game.rs:271-283 | the move stops at the target or in front of the first invalid column |
| Games.MoveUpToKeepsValid | src/gameplay/game.rs:271-283 | a valid tile stays valid |
| Games.MoveUpToIdempotent | src/gameplay/game.rs:271-287 | moving to the same column twice leaves the tile where the first move put it |
| Games.MoveTileUpTo | src/gameplay/game.rs:261-287 | the loop leaves the tile where MoveUpTo puts it; the board and observer are unchanged and validity is kept |
| Games.RotateTile | src/gameplay/game.rs:289-299 | commits the rotated tile and returns Ok iff it is valid, else returns InvalidMove with nothing changed |
| Games.FourRotationsRestore | src/geometry/tile.rs:113-137 | four rotations of a floating tile give it back |
| Games.ProcessRow | src/gameplay/game.rs:302-317 | the game follows the board's scan step and keeps the board framed with the cursor in range |
| Games.FloatingActive | src/gameplay/game.rs:332-339 | the active layer of a floating tile is its 7 by 7 raster read back as a 5 by 5 grid, or empty when the tile has no cell in the window |
| Games.FloatingPassive | src/gameplay/game.rs:326-330 | the passive layer of a floating tile's game holds exactly the set playfield cells of its board |
| Games.FloatingRasters | src/gameplay/game.rs:326-339 | the active layer is the tile's cells moved to 5 by 5 coordinates, disjoint from the passive layer |
| GameScenarios.EmptyBoardAcceptsSpawn | src/gameplay/game.rs:190-208 | every kind of tile can be placed on a new game's board |
| GameScenarios.SetCellBlocks | src/gameplay/board.rs:70-80 | a tile covering a set cell is not in a valid position |
| GameScenarios.SpawnLineBlocked | tests/games.rs:620-624 | the 21st line's spawn cell is already set |
| GameScenarios.GameOverScenario | tests/games.rs:597-624 | placing a line on the board with the middle column filled to row 4 ends the game |
| GameScenarios.LyingLineValid | tests/games.rs:116-141 | on an empty board a lying line fits iff both its cells are in the playfield |
| GameScenarios.SpawnLineRotates | tests/games.rs:138 | rotating the spawned line lays it down at the spawn point, validly |
| GameScenarios.MoveToFirstColumn | tests/games.rs:139 | moving the lying line to column 1 takes it there |
| GameScenarios.LyingLineDescends | tests/games.rs:140 | a lying line above row 1 of the empty board descends by one row |
| GameScenarios.FreezeFirstTile | src/gameplay/game.rs:247 | freezing the line on row 1 of the empty board sets its two cells |
| GameScenarios.LyingLineFreezes | tests/games.rs:140 | on row 1 the line cannot descend and is frozen into the board |
| GameScenarios.FirstTileRasters | tests/games.rs:119-141 | after the first tile the active layer is the two left cells of row 0 and the passive layer is empty |
| GameScenarios.FirstTileScenario | tests/games.rs:116-141 | place, a successful rotation, move to column 1, three descents and a freeze give the test's snapshots |
| GameScenarios.SixteenthTileTurns | tests/games.rs:512-514 | the sixteenth tile, a line moved to column 1 over a board with columns 1 to 4 of row 1 and column 1 of row 2 set, turns onto the free cells (1, 4) and (2, 4), a valid position |

## Left out

- Observer notifications (`signal_board_changed`, `new_with_signal`, the `changed` flag of `move_tile_up_to`): these are calls into caller-supplied code, so the model keeps only the observer slot.
- src/gameplay/raster.rs, src/geometry/raster.rs, src/rendering.rs, src/bin/minimal.rs, src/lib.rs and src/gameplay.rs are not part of this model. They are trait plumbing, console output, or code that no longer matches the board.
- `Grid::set_element` and `Grid::is_element_set` have no body (`todo!()`), so they are not modelled.
- The packed encoding of `ExtGrid` and of the 5 by 5 `Grid` in the gameplay layer is not modelled. Those grids are sets of points, and only the `u32` grid of src/geometry/grid.rs is modelled bit for bit.
- `i32` overflow in `displace_by` and the other integer conversions are not modelled: integers are unbounded.
- The sealed typestate traits and ownership moves are represented by separate datatypes per phase.
- Games.TileColumn: the panic of the `u8` conversion is a precondition (offset in 1..256), not an error result.
- Games.MoveTileUpTo: the panic of the `i32` conversion is a precondition (column below 2^31).
- Games.DescendTile: the `unwrap` of `freeze_tile` is a precondition (the tile is valid), which every floating tile meets (Games.PlaceTile, Games.MoveUpToKeepsValid, Games.RotateTile).
- Boards.ProcessRow: two panics become the precondition that the cursor is in range: the index into `Grid::ROWS[current]` and the `expect` on `discard_and_shift`. Every scanning board meets it (Boards.ProcessRow, Games.DescendTile).
