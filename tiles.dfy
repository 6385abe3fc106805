/**
 * Tile geometry (src/geometry/tile.rs): the three basic shapes, given as
 * membership predicates, and the two wrappers that rotate or displace a
 * shape by transforming the query point instead of listing its cells.
 * Coordinates are unbounded integers; x grows to the right, y upwards.
 */
module Tiles {

  /** An integer point; on a board x is the column and y the row. */
  datatype Point = Point(x: int, y: int)

  /** A multiple of 90 degrees in counter-clockwise order. */
  datatype Angle = Zero | Ninety | OneEighty | TwoSeventy {

    /** The number of quarter turns the angle stands for. */
    function Quarters(): (q: nat)
      ensures q < 4
    {
      match this
      case Zero => 0
      case Ninety => 1
      case OneEighty => 2
      case TwoSeventy => 3
    }

    /** Rotate by a further 90 degrees: the successor on the 4-cycle. */
    function RotateCcw(): (r: Angle)
      ensures r.Quarters() == (Quarters() + 1) % 4
    {
      match this
      case Zero => Ninety
      case Ninety => OneEighty
      case OneEighty => TwoSeventy
      case TwoSeventy => Zero
    }
  }

  /** Two angles standing for the same number of quarter turns are equal. */
  lemma QuartersInjective(a: Angle, b: Angle)
    ensures a.Quarters() == b.Quarters() ==> a == b
  {
  }

  /** Four successive rotations of an angle give the angle back, and fewer do not. */
  lemma {:induction false} AngleFullTurn(a: Angle)
    ensures a.RotateCcw().RotateCcw().RotateCcw().RotateCcw() == a
    ensures a.RotateCcw() != a && a.RotateCcw().RotateCcw() != a
    ensures a.RotateCcw().RotateCcw().RotateCcw() != a
  {
    var a4 := a.RotateCcw().RotateCcw().RotateCcw().RotateCcw();
    QuartersInjective(a4, a);
    QuartersInjective(a.RotateCcw(), a);
    QuartersInjective(a.RotateCcw().RotateCcw(), a);
    QuartersInjective(a.RotateCcw().RotateCcw().RotateCcw(), a);
  }

  /** No point is listed twice. */
  predicate Distinct(s: seq<Point>)
  {
    forall i, j :: 0 <= i < j < |s| ==> s[i] != s[j]
  }

  /** The three micro-tile shapes. */
  datatype BasicTile = Square | Diagonal | Line {

    /** Whether the unrotated shape occupies (x, y). */
    predicate Contains(x: int, y: int)
    {
      match this
      case Square => x == 0 && y == 0
      case Diagonal => (x == 0 && y == 0) || (x == 1 && y == 1)
      case Line => x == 0 && (y == 0 || y == 1)
    }

    /** The occupied points, each listed once. */
    function Cells(): (s: seq<Point>)
      ensures forall p :: p in s <==> Contains(p.x, p.y)
      ensures Distinct(s) && |s| > 0 && s[0] == Point(0, 0)
    {
      match this
      case Square => [Point(0, 0)]
      case Diagonal => [Point(0, 0), Point(1, 1)]
      case Line => [Point(0, 0), Point(0, 1)]
    }

    /** The number of occupied cells. */
    function Size(): nat
    {
      match this
      case Square => 1
      case Diagonal => 2
      case Line => 2
    }

    /**
     * The (width, height) of the unrotated bounding box, as documented on
     * the enum: the square 1 wide and 1 high, the diagonal 2 wide and 2 high,
     * the vertical line 1 wide and 2 high. The result is
     * the smallest box from the origin that holds every occupied cell.
     */
    function Dimensions(): (wh: (nat, nat))
      ensures forall p :: p in Cells() ==> 0 <= p.x < wh.0 && 0 <= p.y < wh.1
      ensures exists p :: p in Cells() && p.x == wh.0 - 1
      ensures exists p :: p in Cells() && p.y == wh.1 - 1
    {
      match this
      case Square => (1, 1)
      case Diagonal => (2, 2)
      case Line => (1, 2)
    }
  }

  /**
   * A shape: a basic tile, or a wrapper around another shape.
   * `Rotated` is RotatedTile<T> (the shape and an angle), `Displaced` is
   * DisplacedTile<T> (the shape and integer offsets).
   */
  datatype Tile =
    | Basic(kind: BasicTile)
    | Rotated(t: Tile, a: Angle)
    | Displaced(t: Tile, displX: int, displY: int)

  /** RotatedTile::new: the shape at angle zero, which occupies what the shape occupies. */
  function NewRotated(t: Tile): (r: Tile)
    ensures r.Rotated? && r.a == Zero
    ensures forall x, y :: Contains(r, x, y) == Contains(t, x, y)
  {
    Rotated(t, Zero)
  }

  /** DisplacedTile::new: the shape with zero offsets, which occupies what the shape occupies. */
  function NewDisplaced(t: Tile): (r: Tile)
    ensures r.Displaced? && r.displX == 0 && r.displY == 0
    ensures forall x, y :: Contains(r, x, y) == Contains(t, x, y)
  {
    Displaced(t, 0, 0)
  }

  /** Set::contains: whether the shape occupies (x, y). */
  predicate Contains(t: Tile, x: int, y: int)
  {
    match t
    case Basic(k) => k.Contains(x, y)
    case Rotated(inner, a) =>
      (match a
       case Zero => Contains(inner, x, y)
       case Ninety => Contains(inner, -y, x)
       case OneEighty => Contains(inner, -x, -y)
       case TwoSeventy => Contains(inner, y, -x))
    case Displaced(inner, dx, dy) => Contains(inner, x - dx, y - dy)
  }

  /** The point at which a shape rotated by `a` asks its inner shape about (x, y). */
  function Query(a: Angle, x: int, y: int): Point
  {
    match a
    case Zero => Point(x, y)
    case Ninety => Point(-y, x)
    case OneEighty => Point(-x, -y)
    case TwoSeventy => Point(y, -x)
  }

  /** Where an occupied point of the inner shape ends up once wrapped at angle `a`. */
  function Turn(a: Angle, p: Point): (q: Point)
    ensures Query(a, q.x, q.y) == p
  {
    match a
    case Zero => p
    case Ninety => Point(p.y, -p.x)
    case OneEighty => Point(-p.x, -p.y)
    case TwoSeventy => Point(-p.y, p.x)
  }

  /** The basic tile at the heart of a shape. */
  function Base(t: Tile): BasicTile
  {
    match t
    case Basic(k) => k
    case Rotated(inner, _) => Base(inner)
    case Displaced(inner, _, _) => Base(inner)
  }

  /**
   * The occupied points of a shape, listed explicitly: the cells of its basic
   * tile carried forward through every rotation and displacement.
   */
  function Cells(t: Tile): (s: seq<Point>)
    ensures |s| == Base(t).Size()
  {
    match t
    case Basic(k) => k.Cells()
    case Rotated(inner, a) =>
      var c := Cells(inner);
      seq(|c|, i requires 0 <= i < |c| => Turn(a, c[i]))
    case Displaced(inner, dx, dy) =>
      var c := Cells(inner);
      seq(|c|, i requires 0 <= i < |c| => Point(c[i].x + dx, c[i].y + dy))
  }

  /** The set of occupied points. */
  function Occupied(t: Tile): set<Point>
  {
    set p | p in Cells(t)
  }

  /** A rotated shape answers for (x, y) what its inner shape answers at the query point. */
  lemma RotatedQuery(inner: Tile, a: Angle, x: int, y: int)
    ensures Contains(Rotated(inner, a), x, y) == Contains(inner, Query(a, x, y).x, Query(a, x, y).y)
  {
  }

  /** A point is the turn of the inner cell at `i` exactly when that cell is its query point. */
  lemma TurnedCellAt(c: seq<Point>, a: Angle, i: int, x: int, y: int)
    requires 0 <= i < |c|
    ensures Turn(a, c[i]) == Point(x, y) <==> c[i] == Query(a, x, y)
  {
  }

  /** A point is a cell of a rotated shape exactly when its query point is a cell of the inner shape. */
  lemma RotatedCellsQuery(inner: Tile, a: Angle, x: int, y: int)
    ensures Point(x, y) in Cells(Rotated(inner, a)) <==> Query(a, x, y) in Cells(inner)
  {
    var c := Cells(inner);
    var s := Cells(Rotated(inner, a));
    if Point(x, y) in s {
      var i :| 0 <= i < |s| && s[i] == Point(x, y);
      TurnedCellAt(c, a, i, x, y);
    }
    if Query(a, x, y) in c {
      var i :| 0 <= i < |c| && c[i] == Query(a, x, y);
      TurnedCellAt(c, a, i, x, y);
      assert s[i] == Point(x, y);
    }
  }

  /** The rotation step of ContainsIffCells. */
  lemma RotatedCells(inner: Tile, a: Angle, x: int, y: int)
    requires Contains(inner, Query(a, x, y).x, Query(a, x, y).y) <==> Query(a, x, y) in Cells(inner)
    ensures Contains(Rotated(inner, a), x, y) <==> Point(x, y) in Cells(Rotated(inner, a))
  {
    RotatedQuery(inner, a, x, y);
    RotatedCellsQuery(inner, a, x, y);
  }

  /** The displacement step of ContainsIffCells. */
  lemma DisplacedCells(inner: Tile, dx: int, dy: int, x: int, y: int)
    requires Contains(inner, x - dx, y - dy) <==> Point(x - dx, y - dy) in Cells(inner)
    ensures Contains(Displaced(inner, dx, dy), x, y) <==> Point(x, y) in Cells(Displaced(inner, dx, dy))
  {
    var c := Cells(inner);
    var s := Cells(Displaced(inner, dx, dy));
    if Point(x, y) in s {
      var i :| 0 <= i < |s| && s[i] == Point(x, y);
      assert c[i] == Point(x - dx, y - dy);
    }
    if Point(x - dx, y - dy) in c {
      var i :| 0 <= i < |c| && c[i] == Point(x - dx, y - dy);
      assert s[i] == Point(x, y);
    }
  }

  /** The membership predicate and the explicit cell list agree at every point. */
  lemma {:induction false} ContainsIffCells(t: Tile, x: int, y: int)
    ensures Contains(t, x, y) <==> Point(x, y) in Cells(t)
    decreases t
  {
    match t
    case Basic(k) =>
    case Rotated(inner, a) =>
      var q := Query(a, x, y);
      ContainsIffCells(inner, q.x, q.y);
      RotatedCells(inner, a, x, y);
    case Displaced(inner, dx, dy) =>
      ContainsIffCells(inner, x - dx, y - dy);
      DisplacedCells(inner, dx, dy, x, y);
  }

  /** Every point occupied by a shape lies in its cell list, and conversely. */
  lemma OccupancyIsCells(t: Tile)
    ensures forall x, y :: Contains(t, x, y) <==> Point(x, y) in Occupied(t)
  {
    forall x, y ensures Contains(t, x, y) <==> Point(x, y) in Occupied(t) {
      ContainsIffCells(t, x, y);
    }
  }

  /** Rotation and displacement are injective, so no cell is listed twice. */
  lemma {:induction false} CellsDistinct(t: Tile)
    ensures Distinct(Cells(t))
  {
    match t
    case Basic(k) =>
    case Rotated(inner, a) =>
      CellsDistinct(inner);
      var c := Cells(inner);
      forall i, j | 0 <= i < j < |c| ensures Cells(t)[i] != Cells(t)[j] {
        assert Query(a, Cells(t)[i].x, Cells(t)[i].y) == c[i];
        assert Query(a, Cells(t)[j].x, Cells(t)[j].y) == c[j];
      }
    case Displaced(inner, dx, dy) =>
      CellsDistinct(inner);
  }

  /** A list without repetitions has as many distinct elements as entries. */
  lemma {:induction false} DistinctCard(s: seq<Point>)
    requires Distinct(s)
    ensures |set p | p in s| == |s|
  {
    if s != [] {
      var rest := s[1..];
      assert Distinct(rest) by {
        forall i, j | 0 <= i < j < |rest| ensures rest[i] != rest[j] {
          assert rest[i] == s[i + 1] && rest[j] == s[j + 1];
        }
      }
      DistinctCard(rest);
      assert (set p | p in s) == (set p | p in rest) + {s[0]};
      assert s[0] !in (set p | p in rest) by {
        forall k | 0 <= k < |rest| ensures rest[k] != s[0] {
          assert rest[k] == s[k + 1];
        }
      }
    }
  }

  /**
   * Rotation and displacement are bijections on integer points, so every
   * shape occupies exactly as many points as its basic tile: 1, 2 or 2.
   */
  lemma OccupiedCount(t: Tile)
    ensures |Occupied(t)| == Base(t).Size()
    ensures Base(t) == Square ==> |Occupied(t)| == 1
    ensures Base(t) != Square ==> |Occupied(t)| == 2
  {
    CellsDistinct(t);
    DistinctCard(Cells(t));
  }

  /** The occupancy of the basic tiles, point by point. */
  lemma BasicOccupancy()
    ensures Occupied(Basic(Square)) == {Point(0, 0)}
    ensures Occupied(Basic(Diagonal)) == {Point(0, 0), Point(1, 1)}
    ensures Occupied(Basic(Line)) == {Point(0, 0), Point(0, 1)}
  {
  }

  /** Two points at most one step apart in each direction. */
  predicate Adjacent(p: Point, q: Point)
  {
    -1 <= p.x - q.x <= 1 && -1 <= p.y - q.y <= 1
  }

  /**
   * The cells of any shape lie within one step of each other in both
   * directions; this is what lets a one-cell rim catch every shape that
   * leaves the playfield.
   */
  lemma {:induction false} CellsClose(t: Tile)
    ensures forall p, q :: p in Cells(t) && q in Cells(t) ==> Adjacent(p, q)
  {
    match t
    case Basic(k) =>
    case Rotated(inner, a) =>
      CellsClose(inner);
      RotatedCellsClose(inner, a);
    case Displaced(inner, dx, dy) =>
      CellsClose(inner);
      DisplacedCellsClose(inner, dx, dy);
  }

  /** The occupied points of a shape lie within one step of each other. */
  lemma OccupiedClose(t: Tile)
    ensures forall p, q :: p in Occupied(t) && q in Occupied(t) ==> Adjacent(p, q)
  {
    CellsClose(t);
    forall p, q | p in Occupied(t) && q in Occupied(t) ensures Adjacent(p, q) {
      assert p in Cells(t) && q in Cells(t);
    }
  }

  /** A quarter turn keeps neighbouring points neighbours. */
  lemma TurnAdjacent(a: Angle, p: Point, q: Point)
    requires Adjacent(p, q)
    ensures Adjacent(Turn(a, p), Turn(a, q))
  {
  }

  /** Rotation keeps the cells of a shape close together. */
  lemma RotatedCellsClose(inner: Tile, a: Angle)
    requires forall p, q :: p in Cells(inner) && q in Cells(inner) ==> Adjacent(p, q)
    ensures forall p, q :: p in Cells(Rotated(inner, a)) && q in Cells(Rotated(inner, a)) ==> Adjacent(p, q)
  {
    var s := Cells(Rotated(inner, a));
    forall i, j | 0 <= i < |s| && 0 <= j < |s| ensures Adjacent(s[i], s[j]) {
      TurnedPairClose(inner, a, i, j);
    }
    IndexedClose(s);
  }

  /** Points that are pairwise neighbours by index are pairwise neighbours by membership. */
  lemma IndexedClose(s: seq<Point>)
    requires forall i, j :: 0 <= i < |s| && 0 <= j < |s| ==> Adjacent(s[i], s[j])
    ensures forall p, q :: p in s && q in s ==> Adjacent(p, q)
  {
    forall p, q | p in s && q in s ensures Adjacent(p, q) {
      var i :| 0 <= i < |s| && s[i] == p;
      var j :| 0 <= j < |s| && s[j] == q;
    }
  }

  /** Two cells of a rotated shape are neighbours when the cells they came from are. */
  lemma TurnedPairClose(inner: Tile, a: Angle, i: nat, j: nat)
    requires i < |Cells(inner)| && j < |Cells(inner)|
    requires Adjacent(Cells(inner)[i], Cells(inner)[j])
    ensures Adjacent(Cells(Rotated(inner, a))[i], Cells(Rotated(inner, a))[j])
  {
    TurnAdjacent(a, Cells(inner)[i], Cells(inner)[j]);
  }

  /** Displacement keeps the cells of a shape close together. */
  lemma DisplacedCellsClose(inner: Tile, dx: int, dy: int)
    requires forall p, q :: p in Cells(inner) && q in Cells(inner) ==> Adjacent(p, q)
    ensures forall p, q :: p in Cells(Displaced(inner, dx, dy)) && q in Cells(Displaced(inner, dx, dy)) ==> Adjacent(p, q)
  {
    var c := Cells(inner);
    var s := Cells(Displaced(inner, dx, dy));
    forall i, j | 0 <= i < |s| && 0 <= j < |s| ensures Adjacent(s[i], s[j]) {
      assert Adjacent(c[i], c[j]);
    }
    IndexedClose(s);
  }

  /**
   * The image of the basic tile's origin: every basic tile occupies (0, 0),
   * so every shape occupies its anchor.
   */
  function Anchor(t: Tile): (p: Point)
    ensures p in Cells(t)
  {
    match t
    case Basic(k) => Point(0, 0)
    case Rotated(inner, a) =>
      var c := Cells(inner);
      var i :| 0 <= i < |c| && c[i] == Anchor(inner);
      assert Cells(t)[i] == Turn(a, c[i]);
      Turn(a, Anchor(inner))
    case Displaced(inner, dx, dy) =>
      var c := Cells(inner);
      var i :| 0 <= i < |c| && c[i] == Anchor(inner);
      assert Cells(t)[i] == Point(c[i].x + dx, c[i].y + dy);
      Point(Anchor(inner).x + dx, Anchor(inner).y + dy)
  }

  /**
   * Rotatee::rotate_ccw. A basic tile is wrapped at angle zero and rotated,
   * a rotated tile advances its angle, and a displaced tile rotates its
   * inner shape and keeps its offsets.
   */
  function RotateCcw(t: Tile): (r: Tile)
    ensures Base(r) == Base(t)
    ensures !t.Displaced? ==> r.Rotated?
    ensures t.Displaced? ==> r.Displaced? && r.displX == t.displX && r.displY == t.displY
  {
    match t
    case Basic(_) =>
      var n := NewRotated(t);
      Rotated(n.t, n.a.RotateCcw())
    case Rotated(inner, a) => Rotated(inner, a.RotateCcw())
    case Displaced(inner, dx, dy) => Displaced(RotateCcw(inner), dx, dy)
  }

  /**
   * One rotation of a shape that is not displaced moves each occupied point
   * (u, v) to (v, -u): the query point is mapped to (-y, x).
   */
  lemma RotateCcwQuarterTurn(t: Tile, x: int, y: int)
    requires !t.Displaced?
    ensures Contains(RotateCcw(t), x, y) == Contains(t, -y, x)
  {
  }

  /** Rotating a displaced shape turns it about its offset point. */
  lemma RotateCcwAboutOffset(t: Tile, x: int, y: int)
    requires t.Displaced?
    ensures Contains(RotateCcw(t), x, y) == Contains(RotateCcw(t.t), x - t.displX, y - t.displY)
  {
  }

  /** Four rotations, applied by rotate_ccw. */
  function RotateFour(t: Tile): Tile
  {
    RotateCcw(RotateCcw(RotateCcw(RotateCcw(t))))
  }

  /**
   * Four rotations give a shape with the same occupancy at every point; a
   * rotated tile, or a displaced one of it, comes back unchanged.
   */
  lemma {:induction false} RotateFourTimes(t: Tile)
    ensures forall x, y :: Contains(RotateFour(t), x, y) == Contains(t, x, y)
    ensures t.Rotated? ==> RotateFour(t) == t
    ensures t.Displaced? && t.t.Rotated? ==> RotateFour(t) == t
  {
    match t
    case Basic(k) =>
      AngleFullTurn(Zero);
    case Rotated(inner, a) =>
      AngleFullTurn(a);
    case Displaced(inner, dx, dy) =>
      RotateFourTimes(inner);
      assert RotateFour(t) == Displaced(RotateFour(inner), dx, dy);
  }

  /**
   * Displacee::displace_by. A displaced tile adds to its offsets; any other
   * shape is first wrapped with zero offsets. The result occupies exactly
   * the points of the shape moved by (x, y).
   */
  function DisplaceBy(t: Tile, x: int, y: int): (r: Tile)
    ensures r.Displaced? && Base(r) == Base(t)
    ensures forall px, py :: Contains(r, px, py) == Contains(t, px - x, py - y)
  {
    match t
    case Displaced(inner, dx, dy) => Displaced(inner, dx + x, dy + y)
    case _ =>
      var n := NewDisplaced(t);
      Displaced(n.t, n.displX + x, n.displY + y)
  }

  /** Displacing by (a, b) and then by (c, d) is displacing by (a + c, b + d). */
  lemma DisplaceByAdds(t: Tile, a: int, b: int, c: int, d: int)
    ensures DisplaceBy(DisplaceBy(t, a, b), c, d) == DisplaceBy(t, a + c, b + d)
  {
  }

  /** Displacing by (0, 0) keeps the occupancy, and keeps a displaced tile as it is. */
  lemma DisplaceByZero(t: Tile)
    ensures forall x, y :: Contains(DisplaceBy(t, 0, 0), x, y) == Contains(t, x, y)
    ensures t.Displaced? ==> DisplaceBy(t, 0, 0) == t
  {
  }

  /** The shape a falling tile has: DisplacedTile<RotatedTile<BasicTile>>. */
  type FloatingTile = t: Tile | t.Displaced? && t.t.Rotated? && t.t.t.Basic?
    witness Displaced(Rotated(Basic(Square), Zero), 0, 0)

  /** A falling tile occupies its offset point. */
  lemma FloatingAnchor(t: FloatingTile)
    ensures Anchor(t) == Point(t.displX, t.displY)
    ensures Contains(t, t.displX, t.displY)
  {
    ContainsIffCells(t, t.displX, t.displY);
  }
}
