/**
 * The 5 by 5 bit grid of src/geometry/grid.rs: a set of cells packed into
 * a 32-bit word, one bit per cell. Collision is a bitwise AND.
 */
module BitGrid {

  /** The error of the (unimplemented) element accessors. */
  datatype GridError = InvalidIndex

  /** A 5 by 5 grid encoded in a u32. */
  datatype Grid = Grid(bits: bv32)

  /** Grid::new: wrap a word. */
  function New(grid: bv32): Grid
  {
    Grid(grid)
  }

  /** Grid::overlaps: some bit is set in both grids. */
  predicate Overlaps(a: Grid, b: Grid)
  {
    (a.bits & b.bits) != 0
  }

  /** Bit `i` of the grid is set. */
  predicate IsSet(g: Grid, i: bv32)
    requires i < 32
  {
    (g.bits >> i) & 1 == 1
  }

  /** Every bit set in `a` is set in `b`. */
  predicate SubsetOf(a: Grid, b: Grid)
  {
    a.bits & b.bits == a.bits
  }

  /** Default::default: the empty grid. */
  function Default(): (g: Grid)
    ensures forall h :: !Overlaps(g, h)
  {
    New(0)
  }

  /** Overlapping is symmetric. */
  lemma OverlapsSymmetric(a: Grid, b: Grid)
    ensures Overlaps(a, b) == Overlaps(b, a)
  {
  }

  /** The default grid overlaps no grid. */
  lemma DefaultOverlapsNothing(g: Grid)
    ensures Default().bits == 0
    ensures !Overlaps(Default(), g) && !Overlaps(g, Default())
  {
  }

  /** A grid overlaps itself exactly when it is not empty. */
  lemma SelfOverlap(g: Grid)
    ensures Overlaps(g, g) <==> g.bits != 0
  {
  }

  /** Overlapping a grid means overlapping every grid that holds it. */
  lemma OverlapsMonotone(a: Grid, b: Grid, c: Grid)
    requires Overlaps(a, b) && SubsetOf(b, c)
    ensures Overlaps(a, c)
  {
  }

  /** A bit set in both grids makes them overlap. */
  lemma CommonBitOverlaps(a: Grid, b: Grid, i: bv32)
    requires i < 32 && IsSet(a, i) && IsSet(b, i)
    ensures Overlaps(a, b)
  {
  }

  /** The bits of `w` below position `i` are clear. */
  predicate ClearBelow(w: bv32, i: bv32)
    requires i < 32
  {
    w << (32 - i) == 0
  }

  /** A non-zero word whose bits below `i` are clear has a set bit at `i` or above. */
  lemma {:induction false} SetBitFrom(w: bv32, i: bv32)
    requires i < 32 && w != 0 && ClearBelow(w, i)
    ensures exists j: bv32 :: i <= j < 32 && IsSet(Grid(w), j)
    decreases 32 - i
  {
    if !IsSet(Grid(w), i) {
      if i == 31 {
        assert false;
      } else {
        assert ClearBelow(w, i + 1);
        SetBitFrom(w, i + 1);
      }
    }
  }

  /** A bit of the intersection is a bit of both grids. */
  lemma BitOfAnd(a: Grid, b: Grid, j: bv32)
    requires j < 32 && IsSet(Grid(a.bits & b.bits), j)
    ensures IsSet(a, j) && IsSet(b, j)
  {
  }

  /** Overlapping grids share a set bit. */
  lemma OverlapsHasCommonBit(a: Grid, b: Grid) returns (j: bv32)
    requires Overlaps(a, b)
    ensures j < 32 && IsSet(a, j) && IsSet(b, j)
  {
    var w := a.bits & b.bits;
    assert ClearBelow(w, 0);
    SetBitFrom(w, 0);
    j :| j < 32 && IsSet(Grid(w), j);
    BitOfAnd(a, b, j);
  }

  /** Two grids overlap exactly when some bit is set in both. */
  lemma OverlapsIffCommonBit(a: Grid, b: Grid)
    ensures Overlaps(a, b) <==> exists i: bv32 :: i < 32 && IsSet(a, i) && IsSet(b, i)
  {
    if Overlaps(a, b) {
      var j := OverlapsHasCommonBit(a, b);
      assert j < 32 && IsSet(a, j) && IsSet(b, j);
    } else {
      forall i: bv32 | i < 32 ensures !(IsSet(a, i) && IsSet(b, i)) {
        if IsSet(a, i) && IsSet(b, i) {
          CommonBitOverlaps(a, b, i);
        }
      }
    }
  }
}
