/** The brush stamp of the main loop: a discretised disk of radius `brushSize`
    around the cell under the mouse, clipped (not wrapped) at the grid's edges, that
    either forces cells to 1 (save mode) or flips them (`1 - v`, in uint8). */
module Brush {
  import opened Grids

  /** Offset (dx, dy) from the centre is stamped: inside the loop ranges
      `range(-b + 1, b)` and strictly inside the circle of radius b. */
  predicate InBrush(dx: int, dy: int, b: int)
  {
    -b < dx < b && -b < dy < b && dx * dx + dy * dy < b * b
  }

  /** `1 - v` in numpy uint8 arithmetic, which wraps modulo 256. */
  function Flip(v: Byte): (r: Byte)
    ensures r != v
    ensures v <= 1 ==> r == 1 - v
  {
    (1 - v) % 256
  }

  /** Flipping twice gives the value back. */
  lemma FlipFlip(v: Byte)
    ensures Flip(Flip(v)) == v
  {
  }

  /** The new value of a stamped cell. */
  function Painted(v: Byte, saveMode: bool): Byte
  {
    if saveMode then 1 else Flip(v)
  }

  /** The grid after one stamp centred on cell (row, col). */
  function Stamped(G: Grid, row: int, col: int, b: int, saveMode: bool): (r: Grid)
    requires Rectangular(G)
    ensures IsShape(r, |G|, Width(G))
    ensures forall x, y :: 0 <= x < |G| && 0 <= y < Width(G) && !InBrush(x - row, y - col, b) ==>
      r[x][y] == G[x][y]
    ensures forall x, y :: 0 <= x < |G| && 0 <= y < Width(G) && InBrush(x - row, y - col, b) ==>
      r[x][y] == Painted(G[x][y], saveMode)
  {
    seq(|G|, x requires 0 <= x < |G| =>
      seq(Width(G), y requires 0 <= y < Width(G) =>
        if InBrush(x - row, y - col, b) then Painted(G[x][y], saveMode) else G[x][y]))
  }

  /** A toggle stamp changes exactly the cells of the disk that lie on the grid: no
      cell outside the disk, and no wrapped-around cell, is touched. */
  lemma ToggleChangesExactlyDisk(G: Grid, row: int, col: int, b: int, x: int, y: int)
    requires Rectangular(G) && 0 <= x < |G| && 0 <= y < Width(G)
    ensures Stamped(G, row, col, b, false)[x][y] != G[x][y] <==>
      (x - row) * (x - row) + (y - col) * (y - col) < b * b && -b < x - row < b && -b < y - col < b
  {
  }

  /** A set stamp changes exactly the cells of the disk that were not already 1. */
  lemma SetChangesDeadDiskCells(G: Grid, row: int, col: int, b: int, x: int, y: int)
    requires Rectangular(G) && 0 <= x < |G| && 0 <= y < Width(G)
    ensures Stamped(G, row, col, b, true)[x][y] != G[x][y] <==>
      InBrush(x - row, y - col, b) && G[x][y] != 1
  {
  }

  /** Stamping the same toggle twice restores the grid (on any uint8 grid, since
      `1 - (1 - v)` is v modulo 256). */
  lemma ToggleTwiceRestores(G: Grid, row: int, col: int, b: int)
    requires Rectangular(G)
    ensures Stamped(Stamped(G, row, col, b, false), row, col, b, false) == G
  {
    var once := Stamped(G, row, col, b, false);
    var twice := Stamped(once, row, col, b, false);
    forall x | 0 <= x < |G|
      ensures twice[x] == G[x]
    {
      forall y | 0 <= y < Width(G)
        ensures twice[x][y] == G[x][y]
      {
        if InBrush(x - row, y - col, b) {
          FlipFlip(G[x][y]);
        }
      }
    }
  }

  /** Stamping the same set stamp twice is the same as stamping it once. */
  lemma SetIsIdempotent(G: Grid, row: int, col: int, b: int)
    requires Rectangular(G)
    ensures Stamped(Stamped(G, row, col, b, true), row, col, b, true) == Stamped(G, row, col, b, true)
  {
    var once := Stamped(G, row, col, b, true);
    var twice := Stamped(once, row, col, b, true);
    forall x | 0 <= x < |G|
      ensures twice[x] == once[x]
    {
    }
  }

  /** Either mode keeps a 0/1 grid a 0/1 grid. */
  lemma StampKeepsBinary(G: Grid, row: int, col: int, b: int, saveMode: bool)
    requires Rectangular(G) && Binary(G)
    ensures Binary(Stamped(G, row, col, b, saveMode))
  {
  }

  /** The nested brush loops of the main loop: for dx, then dy, in `range(-b + 1, b)`,
      stamp cell (row + dx, col + dy) if it lies on the grid and inside the circle.
      Every offset names a different cell, so each cell is stamped at most once. */
  method Stamp(grid: array2<Byte>, row: int, col: int, b: int, saveMode: bool)
    modifies grid
    ensures Cells(grid) == Stamped(old(Cells(grid)), row, col, b, saveMode)
  {
    ghost var G := Cells(grid);
    var rows, cols := grid.Length0, grid.Length1;
    var dx := -b + 1;
    while dx < b
      invariant dx >= -b + 1 || b <= 0
      invariant forall x, y :: 0 <= x < rows && 0 <= y < cols ==>
        grid[x, y] == if InBrush(x - row, y - col, b) && x - row < dx then Painted(G[x][y], saveMode) else G[x][y]
    {
      var dy := -b + 1;
      while dy < b
        invariant dy >= -b + 1
        invariant forall x, y :: 0 <= x < rows && 0 <= y < cols ==>
          grid[x, y] ==
            if InBrush(x - row, y - col, b) && (x - row < dx || (x - row == dx && y - col < dy))
            then Painted(G[x][y], saveMode) else G[x][y]
      {
        var nx := row + dx;
        var ny := col + dy;
        if 0 <= nx < rows && 0 <= ny < cols {
          if dx * dx + dy * dy < b * b {
            if saveMode {
              grid[nx, ny] := 1;
            } else {
              grid[nx, ny] := (1 - grid[nx, ny]) % 256;
            }
          }
        }
        dy := dy + 1;
      }
      dx := dx + 1;
    }
    CellsAre(grid, Stamped(G, row, col, b, saveMode));
  }
}
