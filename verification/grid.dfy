/**
 * The uniform spatial grid (UGrid) that indexes entity handles by cell.
 *
 * The grid is two nested maps: column X to a map from row Y to the cell's
 * handle list (UGridCellY and UGridCell own these maps; the objects are
 * always created together, so the null checks of the source never fire and
 * are not modelled). The pure functions below describe the grid's value;
 * the class `Grid` changes it in place and is specified by them.
 */
module SmbGrid {
  import opened SmbCommon

  type Cells = map<int, map<int, seq<Handle>>>

  /** CellSize: the side of a grid cell in world units. */
  const CellSize: real := 500.0

  /**
   * VectorToCell: the cell of a world position, each coordinate divided by
   * the cell size and truncated toward zero. Cell 0 therefore spans
   * (-CellSize, CellSize) on each axis, twice the width of every other cell.
   */
  function VectorToCell(location: Vec3): (cell: (int, int))
    ensures cell.0 as real * CellSize - CellSize < location.x < cell.0 as real * CellSize + CellSize
    ensures cell.1 as real * CellSize - CellSize < location.y < cell.1 as real * CellSize + CellSize
    ensures 0.0 <= location.x ==> 0 <= cell.0 && cell.0 as real * CellSize <= location.x
    ensures location.x < 0.0 ==> cell.0 <= 0 && location.x <= cell.0 as real * CellSize
    ensures 0.0 <= location.y ==> 0 <= cell.1 && cell.1 as real * CellSize <= location.y
    ensures location.y < 0.0 ==> cell.1 <= 0 && location.y <= cell.1 as real * CellSize
  {
    (TruncToInt(location.x / CellSize), TruncToInt(location.y / CellSize))
  }

  /** Positions just either side of zero share cell 0. */
  lemma CellZeroStraddlesOrigin()
    ensures VectorToCell(Vec3(-499.0, -499.0, 0.0)) == (0, 0)
    ensures VectorToCell(Vec3(499.0, 499.0, 0.0)) == (0, 0)
    ensures VectorToCell(Vec3(-500.0, 500.0, 0.0)) == (-1, 1)
  {
    assert (-499.0 / CellSize) == -0.998;
    assert (-500.0 / CellSize) == -1.0;
  }

  /** GetAt: the handles stored in cell (x, y); an absent cell is empty. */
  function At(cells: Cells, x: int, y: int): seq<Handle>
  {
    if x in cells && y in cells[x] then cells[x][y] else []
  }

  /** TArray::Remove: every occurrence of `h` is dropped, the rest keep their order. */
  function Without(s: seq<Handle>, h: Handle): (r: seq<Handle>)
    ensures h !in r
    ensures forall e :: e != h ==> multiset(r)[e] == multiset(s)[e]
    ensures |r| == |s| - multiset(s)[h]
  {
    if s == [] then []
    else
      assert s == [s[0]] + s[1..];
      if s[0] == h then Without(s[1..], h) else [s[0]] + Without(s[1..], h)
  }

  /** Removing an absent handle changes nothing. */
  lemma {:induction false} WithoutAbsent(s: seq<Handle>, h: Handle)
    requires h !in s
    ensures Without(s, h) == s
  {
    if s != [] {
      WithoutAbsent(s[1..], h);
      assert s == [s[0]] + s[1..];
    }
  }

  /** The grid after RemoveAt(x, y, h): only cell (x, y) changes, and only if it exists. */
  function Removed(cells: Cells, x: int, y: int, h: Handle): (r: Cells)
    ensures forall a, b :: At(r, a, b) == if a == x && b == y then Without(At(cells, x, y), h)
                                          else At(cells, a, b)
    ensures r.Keys == cells.Keys
  {
    if x in cells && y in cells[x] then cells[x := cells[x][y := Without(cells[x][y], h)]]
    else cells
  }

  /** The grid after AddToGrid(x, y, h): the handle is appended to cell (x, y), created if absent. */
  function Added(cells: Cells, x: int, y: int, h: Handle): (r: Cells)
    ensures forall a, b :: At(r, a, b) == if a == x && b == y then At(cells, x, y) + [h]
                                          else At(cells, a, b)
    ensures r.Keys == cells.Keys + {x}
  {
    var column := if x in cells then cells[x] else map[];
    cells[x := column[y := At(cells, x, y) + [h]]]
  }

  /** Cells (x, y + j) for j in [-r, j1), concatenated in order. */
  function RowUpTo(cells: Cells, x: int, y: int, r: int, j1: int): seq<Handle>
    decreases j1 + r
  {
    if j1 <= -r then [] else RowUpTo(cells, x, y, r, j1 - 1) + At(cells, x, y + j1 - 1)
  }

  /** The whole row x of a window of radius r: offsets [-r, r). */
  function Row(cells: Cells, x: int, y: int, r: int): seq<Handle>
  {
    RowUpTo(cells, x, y, r, r)
  }

  /** Rows x + i for i in [-r, i1), each over offsets [-r, r), concatenated in order. */
  function BlockUpTo(cells: Cells, x: int, y: int, r: int, i1: int): seq<Handle>
    decreases i1 + r
  {
    if i1 <= -r then [] else BlockUpTo(cells, x, y, r, i1 - 1) + Row(cells, x + i1 - 1, y, r)
  }

  /**
   * GetAround(x, y, r): the handles of every cell (x + i, y + j) with i and
   * j in [-r, r), row by row. The window is 2r cells wide and extends r
   * cells below the centre but only r - 1 above it.
   */
  function Around(cells: Cells, x: int, y: int, r: int): seq<Handle>
  {
    BlockUpTo(cells, x, y, r, r)
  }

  lemma {:induction false} RowMembership(cells: Cells, x: int, y: int, r: int, j1: int, h: Handle)
    ensures h in RowUpTo(cells, x, y, r, j1) <==> exists b :: y - r <= b < y + j1 && h in At(cells, x, b)
    decreases j1 + r
  {
    if -r < j1 {
      RowMembership(cells, x, y, r, j1 - 1, h);
      var b1 := y + j1 - 1;
      if exists b :: y - r <= b < y + j1 && h in At(cells, x, b) {
        var b :| y - r <= b < y + j1 && h in At(cells, x, b);
        if b != b1 {
          assert y - r <= b < y + (j1 - 1);
        }
      }
    }
  }

  lemma {:induction false} BlockMembership(cells: Cells, x: int, y: int, r: int, i1: int, h: Handle)
    ensures h in BlockUpTo(cells, x, y, r, i1)
        <==> exists a :: x - r <= a < x + i1 && h in Row(cells, a, y, r)
    decreases i1 + r
  {
    if -r < i1 {
      BlockMembership(cells, x, y, r, i1 - 1, h);
      var a1 := x + i1 - 1;
      if exists a :: x - r <= a < x + i1 && h in Row(cells, a, y, r) {
        var a :| x - r <= a < x + i1 && h in Row(cells, a, y, r);
        if a != a1 {
          assert x - r <= a < x + (i1 - 1);
        }
      }
    }
  }

  /** A handle is returned by GetAround exactly when some cell of the window holds it. */
  lemma AroundMembership(cells: Cells, x: int, y: int, r: int, h: Handle)
    ensures h in Around(cells, x, y, r)
        <==> exists a, b :: x - r <= a < x + r && y - r <= b < y + r && h in At(cells, a, b)
  {
    BlockMembership(cells, x, y, r, r, h);
    if h in Around(cells, x, y, r) {
      var a :| x - r <= a < x + r && h in Row(cells, a, y, r);
      RowMembership(cells, a, y, r, r, h);
      var b :| y - r <= b < y + r && h in At(cells, a, b);
      assert x - r <= a < x + r && y - r <= b < y + r && h in At(cells, a, b);
    }
    if exists a, b :: x - r <= a < x + r && y - r <= b < y + r && h in At(cells, a, b) {
      var a, b :| x - r <= a < x + r && y - r <= b < y + r && h in At(cells, a, b);
      RowMembership(cells, a, y, r, r, h);
      assert x - r <= a < x + r && h in Row(cells, a, y, r);
    }
  }

  /** A radius of zero or less returns nothing. */
  lemma AroundEmpty(cells: Cells, x: int, y: int, r: int)
    requires r <= 0
    ensures Around(cells, x, y, r) == []
  {
  }

  /**
   * The grid's round trip: a handle added to the cell of a position is
   * found by a query of radius 1 or more centred on that cell.
   */
  lemma InsertThenQuery(cells: Cells, p: Vec3, h: Handle, r: int)
    requires 1 <= r
    ensures var c := VectorToCell(p);
            h in Around(Added(cells, c.0, c.1, h), c.0, c.1, r)
  {
    var c := VectorToCell(p);
    var g := Added(cells, c.0, c.1, h);
    assert h in At(g, c.0, c.1);
    assert c.0 - r <= c.0 < c.0 + r && c.1 - r <= c.1 < c.1 + r;
    AroundMembership(g, c.0, c.1, r, h);
  }

  /**
   * The window is one-sided: with radius 1 the cells at offset +1 are
   * never searched, so a handle stored only in the neighbouring cell to the
   * right is not found.
   */
  lemma AroundMissesPositiveNeighbour(h: Handle)
    ensures var g := Added(map[], 1, 0, h);
            h in At(g, 1, 0) && h !in Around(g, 0, 0, 1)
  {
    var g := Added(map[], 1, 0, h);
    AroundMembership(g, 0, 0, 1, h);
  }

  /**
   * RegisterToGrid's grid change: every occurrence of `h` leaves the old
   * cell, one occurrence joins the new cell, and no other cell changes.
   */
  lemma Relocation(cells: Cells, oldCell: (int, int), newCell: (int, int), h: Handle)
    ensures var g := Added(Removed(cells, oldCell.0, oldCell.1, h), newCell.0, newCell.1, h);
            && multiset(At(g, newCell.0, newCell.1))[h]
               == (if oldCell == newCell then 1 else multiset(At(cells, newCell.0, newCell.1))[h] + 1)
            && (oldCell != newCell ==> h !in At(g, oldCell.0, oldCell.1))
            && (forall a, b :: (a, b) != oldCell && (a, b) != newCell ==> At(g, a, b) == At(cells, a, b))
  {
    var rem := Removed(cells, oldCell.0, oldCell.1, h);
    var g := Added(rem, newCell.0, newCell.1, h);
    assert At(g, newCell.0, newCell.1) == At(rem, newCell.0, newCell.1) + [h];
    if oldCell == newCell {
      assert h !in At(rem, newCell.0, newCell.1);
    }
  }

  /**
   * If `h` was in no cell other than the old one, after RegisterToGrid's
   * change it is in the new cell exactly once and nowhere else: the
   * one-cell-per-entity invariant is preserved.
   */
  lemma RelocationKeepsOneCell(cells: Cells, oldCell: (int, int), newCell: (int, int), h: Handle)
    requires forall a, b :: (a, b) != oldCell ==> h !in At(cells, a, b)
    ensures var g := Added(Removed(cells, oldCell.0, oldCell.1, h), newCell.0, newCell.1, h);
            && multiset(At(g, newCell.0, newCell.1))[h] == 1
            && forall a, b :: (a, b) != newCell ==> h !in At(g, a, b)
  {
    Relocation(cells, oldCell, newCell, h);
    if oldCell != newCell {
      assert h !in At(cells, newCell.0, newCell.1);
    }
  }

  /** UGrid. */
  class Grid {
    var xCells: Cells

    constructor ()
      ensures xCells == map[]
    {
      xCells := map[];
    }

    function GetAt(x: int, y: int): seq<Handle>
      reads this
    {
      At(xCells, x, y)
    }

    /** RemoveAt: drops every occurrence of the handle from an existing cell and returns that cell. */
    method RemoveAt(x: int, y: int, toRemove: Handle) returns (handles: seq<Handle>)
      modifies this
      ensures xCells == Removed(old(xCells), x, y, toRemove)
      ensures handles == At(xCells, x, y)
    {
      if x !in xCells || y !in xCells[x] {
        return [];
      }
      var column := xCells[x];
      column := column[y := Without(column[y], toRemove)];
      xCells := xCells[x := column];
      handles := column[y];
    }

    /** AddToGrid: creates the column and cell on first use and appends the handle. */
    method AddToGrid(x: int, y: int, h: Handle)
      modifies this
      ensures xCells == Added(old(xCells), x, y, h)
    {
      var column := if x in xCells then xCells[x] else map[];
      var cell := if y in column then column[y] else [];
      xCells := xCells[x := column[y := cell + [h]]];
    }

    /** GetAround: appends the cells of the window row by row. */
    method GetAround(x: int, y: int, radius: int) returns (handles: seq<Handle>)
      ensures handles == Around(xCells, x, y, radius)
    {
      handles := [];
      var i := -radius;
      while i < radius
        invariant 0 < radius ==> -radius <= i <= radius
        invariant radius <= 0 ==> i == -radius
        invariant handles == BlockUpTo(xCells, x, y, radius, i)
        decreases radius - i
      {
        var j := -radius;
        while j < radius
          invariant -radius <= j <= radius
          invariant handles == BlockUpTo(xCells, x, y, radius, i) + RowUpTo(xCells, x + i, y, radius, j)
          decreases radius - j
        {
          assert BlockUpTo(xCells, x, y, radius, i) + RowUpTo(xCells, x + i, y, radius, j) + GetAt(x + i, y + j)
              == BlockUpTo(xCells, x, y, radius, i) + (RowUpTo(xCells, x + i, y, radius, j) + GetAt(x + i, y + j));
          handles := handles + GetAt(x + i, y + j);
          j := j + 1;
        }
        i := i + 1;
      }
    }

    /** EmptySelf: every cell's handle list is emptied. */
    method EmptySelf()
      modifies this
      ensures xCells.Keys == old(xCells).Keys
      ensures forall a, b :: At(xCells, a, b) == []
      ensures forall a :: a in xCells ==> xCells[a].Keys == old(xCells)[a].Keys
    {
      xCells := map a | a in xCells :: map b | b in xCells[a] :: [];
    }
  }
}
