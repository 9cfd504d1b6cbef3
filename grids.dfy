/** The grid buffer: an H x W array of uint8 cells, the value it holds, and its
    live-cell sum (`np.sum(grid)`). */
module Grids {

  /** One cell of a host or device grid (numpy's uint8). */
  type Byte = b: int | 0 <= b < 256

  /** The value of a grid: its rows, top to bottom. */
  type Grid = seq<seq<Byte>>

  predicate IsShape(G: Grid, h: int, w: int)
  {
    |G| == h && forall i :: 0 <= i < |G| ==> |G[i]| == w
  }

  predicate Rectangular(G: Grid)
  {
    forall i :: 0 <= i < |G| ==> |G[i]| == |G[0]|
  }

  function Width(G: Grid): nat
  {
    if |G| == 0 then 0 else |G[0]|
  }

  /** Every cell is dead (0) or alive (1). */
  predicate Binary(G: Grid)
  {
    forall i, j :: 0 <= i < |G| && 0 <= j < |G[i]| ==> G[i][j] == 0 || G[i][j] == 1
  }

  /** The all-dead grid that `np.zeros((h, w), dtype=np.uint8)` builds. */
  function Zeros(h: nat, w: nat): (G: Grid)
    ensures IsShape(G, h, w) && Binary(G)
    ensures forall i, j :: 0 <= i < h && 0 <= j < w ==> G[i][j] == 0
  {
    seq(h, _ => seq(w, _ => 0))
  }

  /** The grid with cell (i, j) replaced by v. */
  function SetCell(G: Grid, i: int, j: int, v: Byte): Grid
    requires 0 <= i < |G| && 0 <= j < |G[i]|
  {
    var row: seq<Byte> := G[i][j := v];
    G[i := row]
  }

  /** The value an array currently holds. */
  ghost function Cells(a: array2<Byte>): (G: Grid)
    reads a
    ensures IsShape(G, a.Length0, a.Length1)
    ensures forall i, j :: 0 <= i < a.Length0 && 0 <= j < a.Length1 ==> G[i][j] == a[i, j]
  {
    seq(a.Length0, i requires 0 <= i < a.Length0 reads a =>
      seq(a.Length1, j requires 0 <= j < a.Length1 reads a => a[i, j]))
  }

  /** `a` holds exactly the value `G`. */
  ghost predicate Holds(a: array2<Byte>, G: Grid)
    reads a
  {
    IsShape(G, a.Length0, a.Length1) &&
    forall i, j :: 0 <= i < a.Length0 && 0 <= j < a.Length1 ==> a[i, j] == G[i][j]
  }

  lemma CellsAre(a: array2<Byte>, G: Grid)
    requires Holds(a, G)
    ensures Cells(a) == G
  {
    var C := Cells(a);
    forall i | 0 <= i < |G|
      ensures C[i] == G[i]
    {
      assert |C[i]| == |G[i]|;
    }
  }

  /** Sum of one row's cells. */
  function RowSum(row: seq<Byte>): nat
  {
    if row == [] then 0 else RowSum(row[..|row| - 1]) + row[|row| - 1]
  }

  /** Sum of all cells, `np.sum(grid)`: on a 0/1 grid, the number of live cells. */
  function Sum(G: Grid): nat
  {
    if G == [] then 0 else Sum(G[..|G| - 1]) + RowSum(G[|G| - 1])
  }

  lemma {:induction false} RowSumUpdate(row: seq<Byte>, j: nat, v: Byte)
    requires j < |row|
    ensures RowSum(row[j := v]) == RowSum(row) - row[j] + v
  {
    var n := |row|;
    var row' := row[j := v];
    if j == n - 1 {
      assert row'[..n - 1] == row[..n - 1];
    } else {
      assert row'[..n - 1] == row[..n - 1][j := v];
      RowSumUpdate(row[..n - 1], j, v);
    }
  }

  lemma {:induction false} SumUpdate(G: Grid, i: nat, row: seq<Byte>)
    requires i < |G|
    ensures Sum(G[i := row]) == Sum(G) - RowSum(G[i]) + RowSum(row)
  {
    var n := |G|;
    var G' := G[i := row];
    if i == n - 1 {
      assert G'[..n - 1] == G[..n - 1];
    } else {
      assert G'[..n - 1] == G[..n - 1][i := row];
      SumUpdate(G[..n - 1], i, row);
    }
  }

  /** Writing v over cell (i, j) changes the sum by v minus the old value: making a dead
      cell live adds exactly one, writing 1 over any 0/1 cell adds at most one. */
  lemma SetCellSum(G: Grid, i: nat, j: nat, v: Byte)
    requires i < |G| && j < |G[i]|
    ensures Sum(SetCell(G, i, j, v)) == Sum(G) - G[i][j] + v
  {
    RowSumUpdate(G[i], j, v);
    SumUpdate(G, i, G[i][j := v]);
  }

  lemma {:induction false} RowSumZeros(n: nat)
    ensures RowSum(seq(n, _ => 0)) == 0
  {
    if n > 0 {
      assert seq(n, _ => 0)[..n - 1] == seq(n - 1, _ => 0);
      RowSumZeros(n - 1);
    }
  }

  /** The all-dead grid has no live cell. */
  lemma {:induction false} SumZeros(h: nat, w: nat)
    ensures Sum(Zeros(h, w)) == 0
  {
    if h > 0 {
      assert Zeros(h, w)[..h - 1] == Zeros(h - 1, w);
      SumZeros(h - 1, w);
      RowSumZeros(w);
    }
  }

  lemma {:induction false} RowSumAtMost(row: seq<Byte>)
    requires forall j :: 0 <= j < |row| ==> row[j] <= 1
    ensures RowSum(row) <= |row|
  {
    if row != [] {
      RowSumAtMost(row[..|row| - 1]);
    }
  }

  /** A 0/1 grid has at most one live cell per cell: the count the UI shows never
      exceeds h * w (the alive percentage stays at most 100). */
  lemma {:induction false} SumAtMost(G: Grid, h: nat, w: nat)
    requires IsShape(G, h, w) && Binary(G)
    ensures Sum(G) <= h * w
  {
    if h > 0 {
      SumAtMost(G[..h - 1], h - 1, w);
      RowSumAtMost(G[h - 1]);
      assert (h - 1) * w + w == h * w;
    }
  }

  /** The live-cell count the UI shows (`np.sum(grid)`), row by row. */
  method AliveCount(g: array2<Byte>) returns (n: nat)
    ensures n == Sum(Cells(g))
  {
    ghost var G := Cells(g);
    n := 0;
    for i := 0 to g.Length0
      invariant n == Sum(G[..i])
    {
      var rowSum := 0;
      for j := 0 to g.Length1
        invariant rowSum == RowSum(G[i][..j])
      {
        assert G[i][..j + 1][..j] == G[i][..j];
        rowSum := rowSum + g[i, j];
      }
      assert G[i][..g.Length1] == G[i];
      assert G[..i + 1][..i] == G[..i];
      n := n + rowSum;
    }
    assert G[..g.Length0] == G;
  }
}
