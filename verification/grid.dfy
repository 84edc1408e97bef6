/** Row-by-row, cell-by-cell walks over a two-dimensional grid, indexed first
    by `y` (the row) and then by `x` (the column), as the map's nested loops
    do. */
module Grid {
  import opened Geometry

  /** Applies `f` to every cell of one row, telling it where the cell is:
      the row is `y` and its first cell sits in column `x`. */
  function MapRow<T>(row: seq<T>, y: int, x: int, f: (Coordinate, T) -> T): (r: seq<T>)
    ensures |r| == |row|
    ensures forall i :: 0 <= i < |row| ==> r[i] == f(Coordinate(x + i, y), row[i])
    decreases |row|
  {
    if row == [] then []
    else [f(Coordinate(x, y), row[0])] + MapRow(row[1..], y, x + 1, f)
  }

  /** Applies `f` to every cell of every row, the first row being row `y`. */
  function MapRows<T>(rows: seq<seq<T>>, y: int, f: (Coordinate, T) -> T): (r: seq<seq<T>>)
    ensures |r| == |rows|
    ensures forall j :: 0 <= j < |rows| ==> |r[j]| == |rows[j]|
    ensures forall j, i :: 0 <= j < |rows| && 0 <= i < |rows[j]| ==>
      r[j][i] == f(Coordinate(i, y + j), rows[j][i])
    decreases |rows|
  {
    if rows == [] then []
    else [MapRow(rows[0], y, 0, f)] + MapRows(rows[1..], y + 1, f)
  }

  /** Applies `f` to every cell of a grid whose top row is row 0. */
  function MapGrid<T>(grid: seq<seq<T>>, f: (Coordinate, T) -> T): (r: seq<seq<T>>)
    ensures |r| == |grid|
    ensures forall y :: 0 <= y < |grid| ==> |r[y]| == |grid[y]|
    ensures forall y, x :: 0 <= y < |grid| && 0 <= x < |grid[y]| ==>
      r[y][x] == f(Coordinate(x, y), grid[y][x])
  {
    MapRows(grid, 0, f)
  }

  /** Two grids with the same shape and the same cells are the same grid. */
  lemma GridExtensionality<T>(a: seq<seq<T>>, b: seq<seq<T>>)
    requires |a| == |b|
    requires forall y :: 0 <= y < |a| ==> |a[y]| == |b[y]|
    requires forall y, x :: 0 <= y < |a| && 0 <= x < |a[y]| ==> a[y][x] == b[y][x]
    ensures a == b
  {
    forall y | 0 <= y < |a|
      ensures a[y] == b[y]
    {
    }
  }
}
