/**
 * The game state machine of src/gameplay/game.rs. A game is in one of four
 * phases: it needs a tile, a tile is floating, rows are being processed, or
 * it is over. The transitions that consume the game (place_tile,
 * descend_tile, process_row) are functions from one phase to the next; the
 * operations that change a game in place (set_observer, clear_observer,
 * move_tile_up_to, rotate_tile) are methods on the class Game.
 */
module Games {
  import opened Tiles
  import opened Wrappers
  import opened CellGrid
  import opened Boards

  /** The phase in which the next tile is awaited. */
  datatype TileNeeded = TileNeeded(board: Board<TakesTile>)

  /** A tile floats above the board. */
  datatype TileFloating = TileFloating(tile: FloatingTile, board: Board<TakesTile>)

  /** The board scans its rows after a tile was frozen. */
  datatype ProcessRows = ProcessRows(board: Board<ProcessesRows>)

  /** No further tile fits. */
  datatype Over = Over(board: Board<TakesTile>)

  datatype GameError = ObserverFull | ObserverEmpty | InvalidMove

  /** NoopObserver: an observer that ignores every signal. */
  datatype NoopObserver = NoopObserver

  /** TileNeeded::default: an empty board (Board::default is Board::new). */
  function DefaultTileNeeded(): (s: TileNeeded)
    ensures Framed(s.board.grid) && Center(s.board.grid) == {}
  {
    TileNeeded(Boards.New())
  }

  /** Game<S, O>: the phase and an optional observer. */
  class Game<S, O> {
    var s: S
    var observer: Option<O>

    constructor (s: S, observer: Option<O>)
      ensures this.s == s && this.observer == observer
    {
      this.s := s;
      this.observer := observer;
    }

    /** set_observer: fails with ObserverFull if an observer is already set. */
    method SetObserver(o: O) returns (r: Result<(), GameError>)
      modifies this
      ensures s == old(s)
      ensures old(observer).Some? ==> r == Err(ObserverFull) && observer == old(observer)
      ensures old(observer).None? ==> r == Ok(()) && observer == Some(o)
    {
      if observer.Some? {
        r := Err(ObserverFull);
      } else {
        observer := Some(o);
        r := Ok(());
      }
    }

    /** clear_observer: hands back the observer, or fails with ObserverEmpty. */
    method ClearObserver() returns (r: Result<O, GameError>)
      modifies this
      ensures s == old(s) && observer == None
      ensures old(observer).None? ==> r == Err(ObserverEmpty)
      ensures old(observer).Some? ==> r == Ok(old(observer).value)
    {
      match observer
      case None =>
        r := Err(ObserverEmpty);
      case Some(o) =>
        r := Ok(o);
      observer := None;
    }
  }

  /** Game::new: an empty board and no observer. */
  method NewGame<O>() returns (g: Game<TileNeeded, O>)
    ensures fresh(g) && g.s == DefaultTileNeeded() && g.observer == None
  {
    g := new Game(DefaultTileNeeded(), None);
  }

  /** The phase invariant of a game that needs a tile or is over: the rim is set. */
  ghost predicate BoardOk(b: Board<TakesTile>)
  {
    Framed(b.grid)
  }

  /** The phase invariant of a floating tile: a framed board and a valid position. */
  ghost predicate FloatingOk(s: TileFloating)
  {
    Framed(s.board.grid) && IsPositionValid(s.board, s.tile)
  }

  /** The phase invariant of the row scan: a framed board and a cursor on the board. */
  ghost predicate RowsOk(s: ProcessRows)
  {
    Framed(s.board.grid) && s.board.state.current < BOARD_ROWS
  }

  /**
   * Where place_tile puts a new tile: at angle zero, displaced to column
   * BOARD_COLS / 2 + 1 and to the row BOARD_ROWS - height + 1 of the 7 by 7
   * grid, so that its top row is the top row of the playfield.
   */
  function SpawnTile(kind: BasicTile): FloatingTile
  {
    var height := kind.Dimensions().1;
    // BOARD_COLS >> 1 in the source
    DisplaceBy(NewRotated(Basic(kind)), BOARD_COLS / 2 + 1, BOARD_ROWS - height + 1)
  }

  /**
   * A new tile is unrotated, sits in the middle column of the playfield
   * and reaches exactly up to its top row.
   */
  lemma SpawnAtTop(kind: BasicTile)
    ensures SpawnTile(kind).t == Rotated(Basic(kind), Zero)
    ensures SpawnTile(kind).displX == BOARD_COLS / 2 + 1
    ensures forall x, y :: Tiles.Contains(SpawnTile(kind), x, y) ==> InPlayfield(Point(x, y))
    ensures exists x :: Tiles.Contains(SpawnTile(kind), x, BOARD_ROWS)
  {
    SpawnCell(kind, 0, 0);
    SpawnInPlayfield(kind);
    SpawnReachesTop(kind);
  }

  /** Every cell of a new tile lies in the playfield. */
  lemma SpawnInPlayfield(kind: BasicTile)
    ensures forall x, y :: Tiles.Contains(SpawnTile(kind), x, y) ==> InPlayfield(Point(x, y))
  {
    forall x, y | Tiles.Contains(SpawnTile(kind), x, y) ensures InPlayfield(Point(x, y)) {
      SpawnCellInPlayfield(kind, x, y);
    }
  }

  /** A new tile occupies a cell of the top row of the playfield. */
  lemma SpawnReachesTop(kind: BasicTile)
    ensures exists x :: Tiles.Contains(SpawnTile(kind), x, BOARD_ROWS)
  {
    match kind
    case Square => SpawnCell(kind, 3, BOARD_ROWS);
    case Diagonal => SpawnCell(kind, 4, BOARD_ROWS);
    case Line => SpawnCell(kind, 3, BOARD_ROWS);
  }

  /** One cell of a new tile lies in the playfield. */
  lemma SpawnCellInPlayfield(kind: BasicTile, x: int, y: int)
    requires Tiles.Contains(SpawnTile(kind), x, y)
    ensures InPlayfield(Point(x, y))
  {
    SpawnCell(kind, x, y);
    match kind
    case Square =>
    case Diagonal =>
    case Line =>
  }

  /** A new tile occupies the cells of its basic shape, moved to the spawn point. */
  lemma SpawnCell(kind: BasicTile, x: int, y: int)
    ensures SpawnTile(kind).t == Rotated(Basic(kind), Zero)
    ensures SpawnTile(kind).displX == BOARD_COLS / 2 + 1
    ensures SpawnTile(kind).displY == BOARD_ROWS - kind.Dimensions().1 + 1
    ensures Tiles.Contains(SpawnTile(kind), x, y) == kind.Contains(x - SpawnTile(kind).displX, y - SpawnTile(kind).displY)
  {
  }

  /**
   * place_tile: the new tile floats if its spawn position is valid, and the
   * game is over otherwise; the board is handed on unchanged either way.
   */
  function PlaceTile(s: TileNeeded, kind: BasicTile): (r: Either<TileFloating, Over>)
    ensures r.Left? <==> IsPositionValid(s.board, SpawnTile(kind))
    ensures r.Left? ==> r.left.board == s.board && r.left.tile == SpawnTile(kind)
    ensures r.Right? ==> r.right.board == s.board
    ensures BoardOk(s.board) ==> (r.Left? ==> FloatingOk(r.left)) && (r.Right? ==> BoardOk(r.right.board))
  {
    var tile := SpawnTile(kind);
    if IsPositionValid(s.board, tile) then Left(TileFloating(tile, s.board))
    else Right(Over(s.board))
  }

  /** The tile one row lower. */
  function Lowered(t: FloatingTile): (r: FloatingTile)
    ensures r.t == t.t && r.displX == t.displX && r.displY == t.displY - 1
    ensures forall x, y :: Tiles.Contains(r, x, y) == Tiles.Contains(t, x, y + 1)
  {
    DisplaceBy(t, 0, -1)
  }

  /**
   * descend_tile: the tile moves down one row if that position is valid;
   * otherwise it is frozen where it is and the row scan starts at row 0. The
   * source unwraps the freeze, so the current position must be valid.
   */
  function DescendTile(s: TileFloating): (r: Either<TileFloating, ProcessRows>)
    requires IsPositionValid(s.board, s.tile)
    ensures r.Left? <==> IsPositionValid(s.board, Lowered(s.tile))
    ensures r.Left? ==> r.left.board == s.board && r.left.tile.t == s.tile.t
    ensures r.Left? ==> r.left.tile.displX == s.tile.displX && r.left.tile.displY == s.tile.displY - 1
    ensures r.Right? ==> r.right.board.state.current == 0
    ensures r.Right? ==> forall p :: p in r.right.board.grid <==>
              p in s.board.grid || (InWindow(p) && Tiles.Contains(s.tile, p.x, p.y))
    ensures Framed(s.board.grid) ==> (r.Left? ==> FloatingOk(r.left)) && (r.Right? ==> RowsOk(r.right))
  {
    var candidate := Lowered(s.tile);
    if IsPositionValid(s.board, candidate) then Left(TileFloating(candidate, s.board))
    else Right(ProcessRows(FreezeTile(s.board, s.tile).value))
  }

  /**
   * A valid floating tile occupies its offset point, so the offset lies in
   * the playfield: columns and rows 1 to 5 of the 7 by 7 grid.
   */
  lemma FloatingInPlayfield(s: TileFloating)
    requires FloatingOk(s)
    ensures 1 <= s.tile.displX <= BOARD_COLS && 1 <= s.tile.displY <= BOARD_ROWS
  {
    FloatingAnchor(s.tile);
    ValidIffContained(s.board, s.tile);
  }

  /**
   * A tile is frozen only where one of its cells rests on the floor or on a
   * settled cell, so freezing keeps the settled cells a stack without gaps.
   */
  lemma DescendKeepsNoGaps(s: TileFloating)
    requires FloatingOk(s) && NoGaps(s.board.grid) && DescendTile(s).Right?
    ensures NoGaps(DescendTile(s).right.board.grid)
  {
    var b := s.board;
    var t := s.tile;
    ValidIffInPlayfield(b, Lowered(t));
    var p :| p in Cells(Lowered(t)) && !(InPlayfield(p) && p !in b.grid);
    var q := Point(p.x, p.y + 1);
    ContainsIffCells(Lowered(t), p.x, p.y);
    ContainsIffCells(t, q.x, q.y);
    ValidIffInPlayfield(b, t);
    assert q.y == 1 || Point(q.x, q.y - 1) in b.grid;
    FreezeKeepsNoGaps(b, t, q);
  }

  /**
   * The whole cycle keeps the stack without gaps and leaves no full row:
   * once a tile is frozen on such a stack, the row scan from row 0 removes
   * every full row and hands back a stack without gaps.
   */
  lemma SettleClearsFullRows(s: TileFloating)
    requires FloatingOk(s) && NoGaps(s.board.grid) && DescendTile(s).Right?
    ensures var rows := DescendTile(s).right.board;
            FullRows(Scan(rows).0.grid) == 0 && NoGaps(Scan(rows).0.grid)
  {
    DescendKeepsNoGaps(s);
    ScanClearsFullRows(DescendTile(s).right.board);
  }

  /**
   * A floating tile descends at most BOARD_ROWS - 1 times before it is
   * frozen: every descent lowers the offset row, which stays at least 1.
   */
  lemma DescentsBounded(s: TileFloating)
    requires FloatingOk(s)
    ensures DescendTile(s).Left? ==> 1 <= DescendTile(s).left.tile.displY < s.tile.displY <= BOARD_ROWS
  {
    FloatingInPlayfield(s);
    if DescendTile(s).Left? {
      FloatingInPlayfield(DescendTile(s).left);
    }
  }

  /**
   * tile_column: the 0-indexed column of the tile's offset, converted to u8;
   * the conversion fails (and the source panics) outside 0 to 255.
   */
  function TileColumn(s: TileFloating): (c: nat)
    requires 1 <= s.tile.displX <= 256
    ensures c < 256 && c + 1 == s.tile.displX
  {
    s.tile.displX - 1
  }

  /** On a valid position the column is one of the board's five. */
  lemma TileColumnInRange(s: TileFloating)
    requires FloatingOk(s)
    ensures 1 <= s.tile.displX <= 256 && TileColumn(s) < BOARD_COLS
  {
    FloatingInPlayfield(s);
  }

  /** i32::signum. */
  function Sign(n: int): (d: int)
    ensures -1 <= d <= 1 && (d == 0 <==> n == 0) && (d > 0 <==> n > 0)
  {
    if n > 0 then 1 else if n < 0 then -1 else 0
  }

  /** `x` lies on the way from `start` (excluded) to `stop` (included). */
  predicate OnPath(start: int, stop: int, x: int)
  {
    (start < x <= stop) || (stop <= x < start)
  }

  /** The tile moved horizontally to column `x`. */
  function AtColumn(t: FloatingTile, x: int): (r: FloatingTile)
    ensures r.t == t.t && r.displX == x && r.displY == t.displY
  {
    Displaced(t.t, x, t.displY)
  }

  /**
   * Steps of one column towards `column` while the next position `fits`.
   * The tile keeps its shape, angle and row, and ends between its start and
   * `column`.
   */
  function Walk(fits: FloatingTile -> bool, t: FloatingTile, column: int): (r: FloatingTile)
    ensures r.t == t.t && r.displY == t.displY
    ensures t.displX <= column ==> t.displX <= r.displX <= column
    ensures column <= t.displX ==> column <= r.displX <= t.displX
    decreases if column >= t.displX then column - t.displX else t.displX - column
  {
    var direction := Sign(column - t.displX);
    var candidate: FloatingTile := DisplaceBy(t, direction, 0);
    if direction != 0 && fits(candidate) then Walk(fits, candidate, column)
    else t
  }

  /** Every column the walk passes through fits. */
  lemma {:induction false} WalkPathFits(fits: FloatingTile -> bool, t: FloatingTile, column: int)
    ensures forall x :: OnPath(t.displX, Walk(fits, t, column).displX, x) ==> fits(AtColumn(t, x))
    decreases if column >= t.displX then column - t.displX else t.displX - column
  {
    var direction := Sign(column - t.displX);
    var candidate: FloatingTile := DisplaceBy(t, direction, 0);
    if direction != 0 && fits(candidate) {
      WalkPathFits(fits, candidate, column);
      var r := Walk(fits, t, column);
      assert r == Walk(fits, candidate, column);
      assert candidate == AtColumn(t, t.displX + direction);
      forall x | OnPath(t.displX, r.displX, x) ensures fits(AtColumn(t, x)) {
        if x != candidate.displX {
          assert OnPath(candidate.displX, r.displX, x);
          assert AtColumn(candidate, x) == AtColumn(t, x);
        }
      }
    }
  }

  /** The walk stops on `column`, or in front of a position that does not fit. */
  lemma {:induction false} WalkStops(fits: FloatingTile -> bool, t: FloatingTile, column: int)
    ensures var r := Walk(fits, t, column);
            r.displX == column || !fits(AtColumn(t, r.displX + Sign(column - r.displX)))
    decreases if column >= t.displX then column - t.displX else t.displX - column
  {
    var direction := Sign(column - t.displX);
    var candidate: FloatingTile := DisplaceBy(t, direction, 0);
    assert candidate == AtColumn(t, t.displX + direction);
    if direction != 0 && fits(candidate) {
      WalkStops(fits, candidate, column);
      var r := Walk(fits, t, column);
      assert r == Walk(fits, candidate, column);
      assert AtColumn(candidate, r.displX + Sign(column - r.displX)) == AtColumn(t, r.displX + Sign(column - r.displX));
    }
  }

  /**
   * The tile move_tile_up_to ends with: the walk towards `column` over the
   * positions that are valid on the board. The shape and the row stay, and
   * the tile ends between its start column and the target.
   */
  function MoveUpTo(b: Board<TakesTile>, t: FloatingTile, column: int): (r: FloatingTile)
    ensures r.t == t.t && r.displY == t.displY
    ensures t.displX <= column ==> t.displX <= r.displX <= column
    ensures column <= t.displX ==> column <= r.displX <= t.displX
  {
    Walk(c => IsPositionValid(b, c), t, column)
  }

  /**
   * Every column the tile passes through on its way is a valid position.
   */
  lemma MoveUpToPathValid(b: Board<TakesTile>, t: FloatingTile, column: int)
    ensures forall x :: OnPath(t.displX, MoveUpTo(b, t, column).displX, x) ==> IsPositionValid(b, AtColumn(t, x))
  {
    WalkPathFits(c => IsPositionValid(b, c), t, column);
  }

  /** The tile stops on `column`, or in front of a position that is not valid. */
  lemma MoveUpToStops(b: Board<TakesTile>, t: FloatingTile, column: int)
    ensures var r := MoveUpTo(b, t, column);
            r.displX == column || !IsPositionValid(b, AtColumn(t, r.displX + Sign(column - r.displX)))
  {
    WalkStops(c => IsPositionValid(b, c), t, column);
  }

  /** Moving keeps a valid tile valid. */
  lemma MoveUpToKeepsValid(b: Board<TakesTile>, t: FloatingTile, column: int)
    requires IsPositionValid(b, t)
    ensures IsPositionValid(b, MoveUpTo(b, t, column))
  {
    var r := MoveUpTo(b, t, column);
    if r.displX != t.displX {
      MoveUpToPathValid(b, t, column);
      assert OnPath(t.displX, r.displX, r.displX);
      assert AtColumn(t, r.displX) == r;
    } else {
      assert r == t;
    }
  }

  /** Walking to the same column a second time changes nothing. */
  lemma WalkIdempotent(fits: FloatingTile -> bool, t: FloatingTile, column: int)
    ensures Walk(fits, Walk(fits, t, column), column) == Walk(fits, t, column)
  {
    var r := Walk(fits, t, column);
    WalkStops(fits, t, column);
    var d := Sign(column - r.displX);
    var candidate := DisplaceBy(r, d, 0);
    assert candidate == AtColumn(t, r.displX + d);
  }

  /** Moving to the same column a second time changes nothing. */
  lemma MoveUpToIdempotent(b: Board<TakesTile>, t: FloatingTile, column: int)
    ensures MoveUpTo(b, MoveUpTo(b, t, column), column) == MoveUpTo(b, t, column)
  {
    WalkIdempotent(c => IsPositionValid(b, c), t, column);
  }


  /**
   * move_tile_up_to: moves the tile one column at a time towards the
   * 1-indexed `column` while the next position is valid. The source
   * converts `column` to i32 and panics if it does not fit.
   */
  method MoveTileUpTo<O>(g: Game<TileFloating, O>, column: nat)
    requires column < 0x8000_0000
    modifies g
    ensures g.s == TileFloating(MoveUpTo(old(g.s.board), old(g.s.tile), column), old(g.s.board))
    ensures g.observer == old(g.observer)
    ensures old(FloatingOk(g.s)) ==> FloatingOk(g.s)
  {
    var target: int := column;
    var direction := Sign(target - g.s.tile.displX);
    var candidate: FloatingTile := DisplaceBy(g.s.tile, direction, 0);
    while direction != 0 && IsPositionValid(g.s.board, candidate)
      invariant g.s.board == old(g.s.board) && g.observer == old(g.observer)
      invariant MoveUpTo(g.s.board, g.s.tile, target) == MoveUpTo(old(g.s.board), old(g.s.tile), target)
      invariant direction == Sign(target - g.s.tile.displX)
      invariant candidate == DisplaceBy(g.s.tile, direction, 0)
      decreases if target >= g.s.tile.displX then target - g.s.tile.displX else g.s.tile.displX - target
    {
      g.s := g.s.(tile := candidate);
      direction := Sign(target - g.s.tile.displX);
      candidate := DisplaceBy(g.s.tile, direction, 0);
    }
    if old(FloatingOk(g.s)) {
      MoveUpToKeepsValid(old(g.s.board), old(g.s.tile), target);
    }
  }

  /**
   * rotate_tile: rotates the tile a quarter turn about its offset if the
   * rotated position is valid, and fails with InvalidMove leaving the game
   * unchanged otherwise.
   */
  method RotateTile<O>(g: Game<TileFloating, O>) returns (r: Result<(), GameError>)
    modifies g
    ensures g.s.board == old(g.s.board) && g.observer == old(g.observer)
    ensures r.Ok? <==> IsPositionValid(old(g.s.board), RotateCcw(old(g.s.tile)))
    ensures r.Ok? ==> g.s.tile == RotateCcw(old(g.s.tile))
    ensures r.Err? ==> r.error == InvalidMove && g.s == old(g.s)
    ensures old(FloatingOk(g.s)) ==> FloatingOk(g.s)
  {
    var t := g.s.tile;
    assert RotateCcw(t) == Displaced(Rotated(t.t.t, t.t.a.RotateCcw()), t.displX, t.displY);
    var candidate: FloatingTile := RotateCcw(t);
    if IsPositionValid(g.s.board, candidate) {
      g.s := g.s.(tile := candidate);
      r := Ok(());
    } else {
      r := Err(InvalidMove);
    }
  }

  /** Four successful rotations bring the floating tile back to where it was. */
  lemma FourRotationsRestore(t: FloatingTile)
    ensures RotateCcw(RotateCcw(RotateCcw(RotateCcw(t)))) == t
  {
    RotateFourTimes(t);
  }

  /**
   * process_row of the game: one step of the board's row scan; the scan
   * goes on in the ProcessRows phase or hands the board to TileNeeded.
   */
  function ProcessRow(s: ProcessRows): (r: Either<ProcessRows, TileNeeded>)
    requires s.board.state.current < BOARD_ROWS
    ensures r.Left? <==> Boards.ProcessRow(s.board).Left?
    ensures r.Left? ==> r.left.board == Boards.ProcessRow(s.board).left
    ensures r.Right? ==> r.right.board == Boards.ProcessRow(s.board).right
    ensures RowsOk(s) ==> (r.Left? ==> RowsOk(r.left)) && (r.Right? ==> BoardOk(r.right.board))
  {
    Boards.ProcessRowKeepsRim(s.board);
    match Boards.ProcessRow(s.board)
    case Left(board) => Left(ProcessRows(board))
    case Right(board) => Right(TileNeeded(board))
  }

  /** Rasterization<Active> of a floating tile: its cells in the 5 by 5 grid. */
  function FloatingActive(s: TileFloating): Grid
  {
    match TryFromTile(s.tile)
    case Ok(grid) => Center(grid)
    case Err(_) => {}
  }

  /** Rasterization<Passive> of a floating tile's game: the settled cells. */
  function FloatingPassive(s: TileFloating): (g: Grid)
    ensures forall p :: p in g <==> InGrid(p) && Point(p.x + 1, p.y + 1) in s.board.grid
  {
    RasterizePassive(s.board)
  }

  /**
   * For a tile in a valid position the active layer is exactly the tile's
   * cells, moved into 5 by 5 coordinates, and no settled cell lies under it.
   */
  lemma FloatingRasters(s: TileFloating)
    requires FloatingOk(s)
    ensures forall p :: p in FloatingActive(s) <==> Tiles.Contains(s.tile, p.x + 1, p.y + 1)
    ensures FloatingActive(s) * FloatingPassive(s) == {}
  {
    ValidIffContained(s.board, s.tile);
  }
}

/**
 * Whole-game scenarios of tests/games.rs, stated on the model: the first
 * tile of the first game, the end of a game, and the empty board.
 */
module GameScenarios {
  import opened Tiles
  import opened Wrappers
  import opened CellGrid
  import opened Boards
  import opened Games
  import BoardScenarios

  /** Every kind of tile fits on an empty board, so a new game never ends at once. */
  lemma EmptyBoardAcceptsSpawn(kind: BasicTile)
    ensures PlaceTile(DefaultTileNeeded(), kind).Left?
  {
    var b := DefaultTileNeeded().board;
    SpawnAtTop(kind);
    ValidIffContained(b, SpawnTile(kind));
  }

  /** A board whose middle column holds settled cells in rows 1 to 4. */
  function BlockedColumn(): ExtGrid
  {
    Rim() + {Point(3, 1), Point(3, 2), Point(3, 3), Point(3, 4)}
  }

  /**
   * The last tile of the test game: on a board whose middle column is
   * filled up to row 4, a new line overlaps it and the game is over.
   */
  lemma GameOverScenario()
    ensures PlaceTile(TileNeeded(Board(TakesTile, BlockedColumn())), Line).Right?
  {
    SpawnLineBlocked();
  }

  /** The blocked board keeps its rim. */
  lemma BlockedColumnFramed()
    ensures Framed(BlockedColumn())
  {
  }

  /** The new line's lower cell is already set on the blocked board. */
  lemma SpawnLineBlocked()
    ensures !IsPositionValid(Board(TakesTile, BlockedColumn()), SpawnTile(Line))
  {
    SpawnLine();
    var t := Displaced(Rotated(Basic(Line), Zero), 3, 4);
    assert Tiles.Contains(Rotated(Basic(Line), Zero), 0, 0);
    assert Tiles.Contains(t, 3, 4);
    BlockedColumnFramed();
    BlockedCell();
    SetCellBlocks(Board(TakesTile, BlockedColumn()), t, Point(3, 4));
  }

  /** A new line stands upright in the middle column, its lower cell on row 4. */
  lemma SpawnLine()
    ensures SpawnTile(Line) == Displaced(Rotated(Basic(Line), Zero), 3, 4)
  {
  }

  /** Row 4 of the middle column is set on the blocked board. */
  lemma BlockedCell()
    ensures Point(3, 4) in BlockedColumn()
  {
  }

  /** A tile that occupies a cell already set on the board is not in a valid position. */
  lemma SetCellBlocks(b: Board<TakesTile>, t: Tile, p: Point)
    requires Framed(b.grid)
    requires Tiles.Contains(t, p.x, p.y) && p in b.grid
    ensures !IsPositionValid(b, t)
  {
    ValidIffContained(b, t);
  }

  /** A line turned a quarter: it lies horizontally on the cells (x, y) and (x + 1, y). */
  function LyingLine(x: int, y: int): FloatingTile
  {
    Displaced(Rotated(Basic(Line), Ninety), x, y)
  }

  /** The cells a lying line occupies. */
  lemma LyingLineCells(x: int, y: int, a: int, b: int)
    ensures Tiles.Contains(LyingLine(x, y), a, b) <==> b == y && (a == x || a == x + 1)
  {
    assert Tiles.Contains(LyingLine(x, y), a, b) == Tiles.Contains(Rotated(Basic(Line), Ninety), a - x, b - y);
    assert Tiles.Contains(Rotated(Basic(Line), Ninety), a - x, b - y) == Tiles.Contains(Basic(Line), y - b, a - x);
  }

  /** On an empty board a lying line fits exactly when both its cells are in the playfield. */
  lemma LyingLineValid(x: int, y: int)
    ensures IsPositionValid(Boards.New(), LyingLine(x, y)) <==> 1 <= x <= BOARD_COLS - 1 && 1 <= y <= BOARD_ROWS
  {
    ValidIffContained(Boards.New(), LyingLine(x, y));
    LyingLineCells(x, y, x, y);
    LyingLineCells(x, y, x + 1, y);
    forall a, b ensures Tiles.Contains(LyingLine(x, y), a, b) <==> b == y && (a == x || a == x + 1) {
      LyingLineCells(x, y, a, b);
    }
  }

  /** Rotating the new line gives a lying line at the spawn point, which fits. */
  lemma SpawnLineRotates()
    ensures RotateCcw(SpawnTile(Line)) == LyingLine(3, 4)
    ensures IsPositionValid(Boards.New(), LyingLine(3, 4))
  {
    SpawnLine();
    TurnSpawnedLine();
    LyingLineValid(3, 4);
  }

  /** A quarter turn lays the upright line down, its offsets unchanged. */
  lemma TurnSpawnedLine()
    ensures RotateCcw(Displaced(Rotated(Basic(Line), Zero), 3, 4)) == LyingLine(3, 4)
  {
  }

  /** Moving the lying line to column 1 takes it there in two valid steps. */
  lemma MoveToFirstColumn()
    ensures MoveUpTo(Boards.New(), LyingLine(3, 4), 1) == LyingLine(1, 4)
  {
    var b := Boards.New();
    LyingLineValid(2, 4);
    LyingLineValid(1, 4);
    assert DisplaceBy(LyingLine(3, 4), -1, 0) == LyingLine(2, 4);
    assert DisplaceBy(LyingLine(2, 4), -1, 0) == LyingLine(1, 4);
    assert MoveUpTo(b, LyingLine(1, 4), 1) == LyingLine(1, 4);
    assert MoveUpTo(b, LyingLine(2, 4), 1) == LyingLine(1, 4);
  }

  /** A lying line above row 1 of an empty board descends by one row. */
  lemma LyingLineDescends(x: int, y: int)
    requires 1 <= x <= BOARD_COLS - 1 && 2 <= y <= BOARD_ROWS
    ensures IsPositionValid(Boards.New(), LyingLine(x, y))
    ensures DescendTile(TileFloating(LyingLine(x, y), Boards.New())) == Left(TileFloating(LyingLine(x, y - 1), Boards.New()))
  {
    LyingLineValid(x, y);
    LyingLineValid(x, y - 1);
    assert Lowered(LyingLine(x, y)) == LyingLine(x, y - 1);
  }

  /** The board after the first tile settled: the rim and the two left cells of row 1. */
  function FirstTileGrid(): ExtGrid
  {
    Rim() + {Point(1, 1), Point(2, 1)}
  }

  /** The board after the first tile keeps its rim. */
  lemma FirstTileGridFramed()
    ensures Framed(FirstTileGrid())
  {
  }

  /** Freezing the lying line on row 1 of an empty board sets its two cells. */
  lemma FreezeFirstTile()
    ensures IsPositionValid(Boards.New(), LyingLine(1, 1))
    ensures FreezeTile(Boards.New(), LyingLine(1, 1)) == Ok(Board(ProcessesRows(0), FirstTileGrid()))
  {
    LyingLineValid(1, 1);
    var g := FreezeTile(Boards.New(), LyingLine(1, 1)).value.grid;
    forall p | InPlayfield(p) ensures p in g <==> p in FirstTileGrid() {
      LyingLineCells(1, 1, p.x, p.y);
    }
    FirstTileGridFramed();
    BoardScenarios.FramedEqual(g, FirstTileGrid());
  }

  /** On row 1 the lying line cannot descend and is frozen into the board. */
  lemma LyingLineFreezes()
    ensures IsPositionValid(Boards.New(), LyingLine(1, 1))
    ensures DescendTile(TileFloating(LyingLine(1, 1), Boards.New())) ==
            Right(ProcessRows(Board(ProcessesRows(0), FirstTileGrid())))
  {
    LyingLineValid(1, 0);
    assert Lowered(LyingLine(1, 1)) == LyingLine(1, 0);
    FreezeFirstTile();
  }

  /** The snapshot of the settled first tile: the two left cells of the bottom row are active. */
  lemma FirstTileRasters()
    ensures RasterizeRowsActive(Board(ProcessesRows(0), FirstTileGrid())) == {Point(0, 0), Point(1, 0)}
    ensures RasterizeRowsPassive(Board(ProcessesRows(0), FirstTileGrid())) == {}
  {
    FirstTileCenter();
    assert Point(0, 0) in Row(0) && Point(1, 0) in Row(0);
  }

  /** The playfield after the first tile holds the two left cells of the bottom row. */
  lemma FirstTileCenter()
    ensures Center(FirstTileGrid()) == {Point(0, 0), Point(1, 0)}
  {
    var c := Center(FirstTileGrid());
    forall p ensures p in c <==> p == Point(0, 0) || p == Point(1, 0) {
      if InGrid(p) {
        CenterOfFramed({Point(1, 1), Point(2, 1)}, p);
      }
    }
  }

  /** The playfield of a grid made of the rim and some cells reads those cells back. */
  lemma CenterOfFramed(cells: set<Point>, p: Point)
    requires InGrid(p)
    ensures p in Center(Rim() + cells) <==> Point(p.x + 1, p.y + 1) in cells
  {
    BoardScenarios.PlayfieldCell(cells, Point(p.x + 1, p.y + 1));
  }

  /**
   * The board when the sixteenth tile of the test game, a line, arrives:
   * columns 1 to 4 of row 1 and column 1 of row 2 are settled.
   */
  function SixteenthTileGrid(): ExtGrid
  {
    Rim() + {Point(1, 1), Point(2, 1), Point(3, 1), Point(4, 1), Point(1, 2)}
  }

  /** The board of the sixteenth tile keeps its rim. */
  lemma SixteenthTileGridFramed()
    ensures Framed(SixteenthTileGrid())
  {
  }

  /**
   * The sixteenth tile, moved to column 1 and turned, lies on the free cells
   * (1, 4) and (2, 4), so the turn is valid; the test at this point expects
   * it to be refused, which only a counter-clockwise turn onto the rim gives.
   */
  lemma SixteenthTileTurns()
    ensures RotateCcw(Displaced(Rotated(Basic(Line), Zero), 1, 4)) == LyingLine(1, 4)
    ensures IsPositionValid(Board(TakesTile, SixteenthTileGrid()), LyingLine(1, 4))
  {
    var b := Board(TakesTile, SixteenthTileGrid());
    SixteenthTileGridFramed();
    ValidIffContained(b, LyingLine(1, 4));
    forall x, y | Tiles.Contains(LyingLine(1, 4), x, y)
      ensures InPlayfield(Point(x, y)) && Point(x, y) !in b.grid
    {
      LyingLineCells(1, 4, x, y);
      BoardScenarios.PlayfieldCell({Point(1, 1), Point(2, 1), Point(3, 1), Point(4, 1), Point(1, 2)}, Point(x, y));
    }
  }

  /**
   * The first tile of the test game: a line is placed, rotated, moved to
   * column 1 and pushed down until it freezes on the bottom row; the
   * snapshots taken then show it as the active row and nothing passive.
   */
  method FirstTileScenario() returns (rotated: Result<(), GameError>, active: Grid, passive: Grid)
    ensures rotated.Ok?
    ensures active == {Point(0, 0), Point(1, 0)} && passive == {}
  {
    EmptyBoardAcceptsSpawn(Line);
    var placed := PlaceTile(DefaultTileNeeded(), Line);
    var g := new Game<TileFloating, NoopObserver>(placed.left, None);
    SpawnLineRotates();
    rotated := RotateTile(g);
    assert rotated.Ok?;
    MoveToFirstColumn();
    MoveTileUpTo(g, 1);
    var s := g.s;
    LyingLineDescends(1, 4);
    s := DescendTile(s).left;
    LyingLineDescends(1, 3);
    s := DescendTile(s).left;
    LyingLineDescends(1, 2);
    s := DescendTile(s).left;
    LyingLineFreezes();
    var rows := DescendTile(s).right;
    FirstTileRasters();
    active := RasterizeRowsActive(rows.board);
    passive := RasterizeRowsPassive(rows.board);
  }
}
