/**
 * The grid API the gameplay board is written against: a 5 by 5 `Grid`
 * (x = column 0..4, y = row 0..4, row 0 at the bottom) and the 7 by 7
 * `ExtGrid` that frames it with a permanent one-cell rim (x, y in 0..6,
 * playfield at 1..5). The packed-word encoding is abstracted into sets of
 * points; union, intersection and difference are the set operators.
 */
module CellGrid {
  import opened Tiles
  import opened Wrappers
  import BitGrid

  const GRID_ROWS: nat := 5
  const GRID_COLS: nat := 5

  /** A 5 by 5 grid: the set of its occupied cells. */
  type Grid = set<Point>

  /** A 7 by 7 grid: the playfield and its rim. */
  type ExtGrid = set<Point>

  /** A cell of a 5 by 5 grid. */
  predicate InGrid(p: Point)
  {
    0 <= p.x < GRID_COLS && 0 <= p.y < GRID_ROWS
  }

  /** A cell of a 7 by 7 grid. */
  predicate InWindow(p: Point)
  {
    0 <= p.x <= GRID_COLS + 1 && 0 <= p.y <= GRID_ROWS + 1
  }

  /** A cell of the playfield inside a 7 by 7 grid. */
  predicate InPlayfield(p: Point)
  {
    1 <= p.x <= GRID_COLS && 1 <= p.y <= GRID_ROWS
  }

  /** A cell of the border of a 7 by 7 grid. */
  predicate OnRim(p: Point)
  {
    InWindow(p) && !InPlayfield(p)
  }

  /** ExtGrid::RIM: the border cells, always set on a board. */
  function Rim(): (e: ExtGrid)
    ensures forall p :: p in e <==> OnRim(p)
  {
    set x: int, y: int | 0 <= x <= GRID_COLS + 1 && 0 <= y <= GRID_ROWS + 1
                         && (x == 0 || x == GRID_COLS + 1 || y == 0 || y == GRID_ROWS + 1) :: Point(x, y)
  }

  /** Grid::ROWS[r]: the mask of row `r`. */
  function Row(r: nat): (g: Grid)
    requires r < GRID_ROWS
    ensures forall p :: p in g <==> InGrid(p) && p.y == r
  {
    set x: int | 0 <= x < GRID_COLS :: Point(x, r)
  }

  /** ExtGrid::from(Grid): embed a 5 by 5 grid in the interior of a 7 by 7 one. */
  function FromGrid(g: Grid): (e: ExtGrid)
    ensures forall p :: p in e <==> InPlayfield(p) && Point(p.x - 1, p.y - 1) in g
  {
    set p | p in g && InGrid(p) :: Point(p.x + 1, p.y + 1)
  }

  /** ExtGrid::center: read back the interior, discarding the rim. */
  function Center(e: ExtGrid): (g: Grid)
    ensures forall p :: p in g <==> InGrid(p) && Point(p.x + 1, p.y + 1) in e
  {
    set p | p in e && InPlayfield(p) :: Point(p.x - 1, p.y - 1)
  }

  /** contains: every cell of `b` is a cell of `a`. */
  predicate Covers(a: set<Point>, b: set<Point>)
  {
    b <= a
  }

  /** overlaps: some cell is in both grids. */
  predicate Overlaps(a: set<Point>, b: set<Point>)
  {
    a * b != {}
  }

  /** `contains` holds exactly when every cell of `b` is a cell of `a`. */
  lemma CoversIffEveryCell(a: set<Point>, b: set<Point>)
    ensures Covers(a, b) <==> forall p :: p in b ==> p in a
  {
  }

  /** `overlaps` holds exactly when some cell lies in both grids. */
  lemma OverlapsIffCommonCell(a: set<Point>, b: set<Point>)
    ensures Overlaps(a, b) <==> exists p :: p in a && p in b
  {
    if Overlaps(a, b) {
      var p :| p in a * b;
      assert p in a && p in b;
    }
    if p :| p in a && p in b {
      assert p in a * b;
    }
  }

  /** Every cell lies in the 5 by 5 grid. */
  predicate IsGrid(g: Grid)
  {
    forall p :: p in g ==> InGrid(p)
  }

  /** A 7 by 7 grid whose rim is fully set. */
  predicate Framed(e: ExtGrid)
  {
    Rim() <= e && forall p :: p in e ==> InWindow(p)
  }

  /** Embedding then reading back the interior gives the grid back, rim or not. */
  lemma CenterFromGrid(g: Grid)
    requires IsGrid(g)
    ensures Center(FromGrid(g)) == g
    ensures Center(FromGrid(g) + Rim()) == g
  {
  }

  /** A framed grid is its rim plus its embedded interior. */
  lemma FromGridCenter(e: ExtGrid)
    requires Framed(e)
    ensures FromGrid(Center(e)) + Rim() == e
  {
    assert forall p :: p in e ==> p in FromGrid(Center(e)) + Rim() by {
      forall p | p in e ensures p in FromGrid(Center(e)) + Rim() {
        if InPlayfield(p) {
          assert Point(p.x - 1, p.y - 1) in Center(e);
        }
      }
    }
  }

  /**
   * Grid::discard_and_shift: drop row `row`, move every row above it down
   * by one and leave the top row empty. Fails for a row outside the grid.
   */
  function DiscardAndShift(g: Grid, row: nat): (r: Result<Grid, BitGrid.GridError>)
    ensures r.Err? <==> row >= GRID_ROWS
    ensures r.Ok? ==> IsGrid(r.value)
    ensures r.Ok? ==> forall x, y :: 0 <= y < row ==>
              (Point(x, y) in r.value <==> InGrid(Point(x, y)) && Point(x, y) in g)
    ensures r.Ok? ==> forall x, y :: row <= y < GRID_ROWS - 1 ==>
              (Point(x, y) in r.value <==> 0 <= x < GRID_COLS && Point(x, y + 1) in g)
    ensures r.Ok? && IsGrid(g) ==> forall p :: p in r.value ==> p.y < GRID_ROWS - 1
  {
    if row >= GRID_ROWS then Err(BitGrid.InvalidIndex)
    else
      Ok(set p | p in g && InGrid(p) && p.y != row :: if p.y < row then p else Point(p.x, p.y - 1))
  }

  /** The occupied cells of a tile that fall inside the 7 by 7 window. */
  function Raster(t: Tile): set<Point>
  {
    set p | p in Cells(t) && InWindow(p)
  }

  /**
   * ExtGrid::try_from(&tile): the cells of the 7 by 7 window the tile
   * occupies; fails when the tile occupies none of them.
   */
  function TryFromTile(t: Tile): (r: Result<ExtGrid, BitGrid.GridError>)
    ensures r.Ok? ==> r.value != {}
    ensures r.Ok? ==> forall p :: p in r.value <==> InWindow(p) && Tiles.Contains(t, p.x, p.y)
    ensures r.Err? <==> forall p :: InWindow(p) ==> !Tiles.Contains(t, p.x, p.y)
  {
    OccupancyIsCells(t);
    var raster := Raster(t);
    assert forall p :: p in raster <==> InWindow(p) && Tiles.Contains(t, p.x, p.y);
    if raster == {} then Err(BitGrid.InvalidIndex) else Ok(raster)
  }
}
