/** Conway's B3/S23 rule on a toroidal grid: the neighbour count and the next
    generation, as update_grid_cpu computes them cell by cell. */
module Rule {
  import opened Grids

  /** The eight cells around (i, j), each index wrapped with Python's `%`; for a
      positive modulus that is Dafny's `%`, so row -1 is the last row. */
  function Neighbours(G: Grid, i: int, j: int): (n: int)
    requires Rectangular(G) && 0 <= i < |G| && 0 <= j < Width(G)
    ensures 0 <= n <= 8 * 255
    ensures Binary(G) ==> n <= 8
  {
    var rows, cols := |G|, Width(G);
    var up, down := (i - 1) % rows, (i + 1) % rows;
    var left, right := (j - 1) % cols, (j + 1) % cols;
    G[up][left] as int + G[up][j] + G[up][right] +
    G[i][left] + G[i][right] +
    G[down][left] + G[down][j] + G[down][right]
  }

  /** The value a cell takes next, given its value and its neighbour count. A cell
      equal to 1 survives on 2 or 3; any other value is treated as dead and is born on 3. */
  function NextCell(v: Byte, n: int): Byte
  {
    if v == 1 then
      (if n == 2 || n == 3 then 1 else 0)
    else
      (if n == 3 then 1 else 0)
  }

  /** The value cell (i, j) takes in the next generation. */
  function NextAt(G: Grid, i: int, j: int): Byte
    requires Rectangular(G) && 0 <= i < |G| && 0 <= j < Width(G)
  {
    NextCell(G[i][j], Neighbours(G, i, j))
  }

  /** One generation of the whole grid. */
  function Step(G: Grid): (r: Grid)
    requires Rectangular(G)
    ensures IsShape(r, |G|, Width(G)) && Binary(r)
    ensures forall i, j :: 0 <= i < |G| && 0 <= j < Width(G) ==>
      (r[i][j] == 1 <==>
        (G[i][j] == 1 && (Neighbours(G, i, j) == 2 || Neighbours(G, i, j) == 3)) ||
        (G[i][j] != 1 && Neighbours(G, i, j) == 3))
  {
    seq(|G|, i requires 0 <= i < |G| =>
      seq(Width(G), j requires 0 <= j < Width(G) => NextAt(G, i, j)))
  }

  /** A live corner cell whose only live neighbours are the three cells across the
      wrapped edges survives: the count reaches round the torus. */
  lemma WrappedCornerSurvives(G: Grid)
    requires Rectangular(G) && |G| >= 3 && Width(G) >= 3
    requires var h, w := |G|, Width(G);
      G[0][0] == 1 && G[h - 1][w - 1] == 1 && G[h - 1][0] == 1 && G[0][w - 1] == 1 &&
      G[h - 1][1] == 0 && G[0][1] == 0 && G[1][w - 1] == 0 && G[1][0] == 0 && G[1][1] == 0
    ensures Neighbours(G, 0, 0) == 3 && Step(G)[0][0] == 1
  {
    var h: int, w: int := |G|, Width(G);
    assert (-1) % h == h - 1 && 1 % h == 1;
    assert (-1) % w == w - 1 && 1 % w == 1;
  }

  /** On a 3 x 3 torus every cell neighbours every other: around a lone live cell the
      dead cells count one neighbour each and the live one counts none. */
  lemma LoneCellNeighbours(G: Grid)
    requires G == [[0, 0, 0], [0, 1, 0], [0, 0, 0]]
    ensures forall i, j :: 0 <= i < 3 && 0 <= j < 3 ==>
      Neighbours(G, i, j) == if i == 1 && j == 1 then 0 else 1
  {
    assert (-1) % 3 == 2 && 3 % 3 == 0 && 4 % 3 == 1;
    assert Neighbours(G, 0, 0) == 1 && Neighbours(G, 0, 1) == 1 && Neighbours(G, 0, 2) == 1;
    assert Neighbours(G, 1, 0) == 1 && Neighbours(G, 1, 1) == 0 && Neighbours(G, 1, 2) == 1;
    assert Neighbours(G, 2, 0) == 1 && Neighbours(G, 2, 1) == 1 && Neighbours(G, 2, 2) == 1;
  }

  /** So a lone live cell dies of isolation and no dead cell is born. */
  lemma LoneCellDies()
    ensures Step([[0, 0, 0], [0, 1, 0], [0, 0, 0]]) == Zeros(3, 3)
  {
    var r := Step([[0, 0, 0], [0, 1, 0], [0, 0, 0]]);
    LoneCellNextIsDead([[0, 0, 0], [0, 1, 0], [0, 0, 0]]);
    forall i | 0 <= i < 3
      ensures r[i] == Zeros(3, 3)[i]
    {
    }
  }

  lemma LoneCellNextIsDead(G: Grid)
    requires G == [[0, 0, 0], [0, 1, 0], [0, 0, 0]]
    ensures forall i, j :: 0 <= i < 3 && 0 <= j < 3 ==> Step(G)[i][j] == 0
  {
    LoneCellNeighbours(G);
    forall i, j | 0 <= i < 3 && 0 <= j < 3
      ensures Step(G)[i][j] == 0
    {
      assert Step(G)[i][j] == NextCell(G[i][j], Neighbours(G, i, j));
    }
  }
}
