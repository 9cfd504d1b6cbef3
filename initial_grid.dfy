/** create_initial_grid: live cells scattered around a few cluster centres, then a
    fallback fill from flat cell indices. The random draws arrive as inputs: the
    centres (randint), one `Attempt` per loop iteration (choice and the two
    truncated normal offsets) and the fallback indices (choice without replacement),
    together with the target count `num_alive`. */
module InitialGrid {
  import opened Grids
  import opened Arith

  /** The draws of one placement attempt: which centre, and the offsets from it. */
  datatype Attempt = Attempt(centre: nat, dx: int, dy: int)

  /** Everything create_initial_grid draws at random, and the target `num_alive`. */
  datatype Draws = Draws(numAlive: nat, centres: seq<(int, int)>, attempts: seq<Attempt>, pool: seq<int>)

  /** What the random sources guarantee: `num_alive` fits the grid, there are draws for
      every permitted attempt, each picks an existing centre, and the fallback indices
      are distinct flat indices of the grid (choice without replacement). */
  predicate Fits(d: Draws, h: nat, w: nat)
  {
    d.numAlive <= h * w &&
    |d.attempts| >= MaxAttempts(d.numAlive) &&
    (forall t :: 0 <= t < |d.attempts| ==> d.attempts[t].centre < |d.centres|) &&
    |d.pool| >= d.numAlive && Distinct(d.pool) &&
    (forall k :: 0 <= k < |d.pool| ==> 0 <= d.pool[k] < h * w)
  }

  /** The cap on placement attempts, `max_attempts = num_alive * 10`. */
  function MaxAttempts(numAlive: nat): nat
  {
    numAlive * 10
  }

  /** `[n // 4, 3 * n // 4)`, the range randint draws one centre coordinate from: the
      middle half of an edge of n cells. It is non-empty exactly when n >= 2 (randint
      raises otherwise) and then lies inside the grid. */
  function CentreRange(n: nat): (r: (int, int))
    ensures r.0 < r.1 <==> n >= 2
    ensures 0 <= r.0 && r.1 <= n
    ensures n >= 4 ==> r.0 > 0 && r.1 < n
  {
    (n / 4, 3 * n / 4)
  }

  /** The cell a flat index names: `(idx // width, idx % width)`. */
  function FlatCell(idx: int, w: int): (int, int)
    requires w > 0
  {
    (idx / w, idx % w)
  }

  /** A flat index below h * w names a cell of the h x w grid. */
  lemma FlatCellInGrid(idx: int, h: nat, w: nat)
    requires w > 0 && 0 <= idx < h * w
    ensures 0 <= FlatCell(idx, w).0 < h && 0 <= FlatCell(idx, w).1 < w
  {
    var q := idx / w;
    assert q * w + idx % w == idx;
    MulMonotone(h, q, w);
  }

  /** Different flat indices name different cells. */
  lemma FlatCellInjective(a: int, b: int, w: int)
    requires w > 0 && FlatCell(a, w) == FlatCell(b, w)
    ensures a == b
  {
    assert a == (a / w) * w + a % w;
    assert b == (b / w) * w + b % w;
  }

  predicate Distinct(s: seq<int>)
  {
    forall a, b :: 0 <= a < b < |s| ==> s[a] != s[b]
  }

  /** The cells the fallback fill sets from the first n drawn indices. */
  function FallbackCells(pool: seq<int>, n: nat, w: int): set<(int, int)>
    requires n <= |pool| && w > 0
  {
    if n == 0 then {} else FallbackCells(pool, n - 1, w) + {FlatCell(pool[n - 1], w)}
  }

  lemma {:induction false} InFallbackCells(pool: seq<int>, n: nat, w: int, c: (int, int))
    requires n <= |pool| && w > 0
    ensures c in FallbackCells(pool, n, w) <==> exists k :: 0 <= k < n && FlatCell(pool[k], w) == c
  {
    if n > 0 {
      InFallbackCells(pool, n - 1, w, c);
    }
  }

  /** Distinct indices name distinct cells, so the fallback sets exactly n cells
      (some of which may already be live). */
  lemma {:induction false} FallbackCellCount(pool: seq<int>, n: nat, w: int)
    requires n <= |pool| && w > 0 && Distinct(pool)
    ensures |FallbackCells(pool, n, w)| == n
  {
    if n > 0 {
      FallbackCellCount(pool, n - 1, w);
      var c := FlatCell(pool[n - 1], w);
      forall k | 0 <= k < n - 1
        ensures FlatCell(pool[k], w) != c
      {
        if FlatCell(pool[k], w) == c {
          FlatCellInjective(pool[k], pool[n - 1], w);
        }
      }
      InFallbackCells(pool, n - 1, w, c);
    }
  }

  /** The cell one attempt lands on: its centre plus the offsets, each wrapped with
      Python's `%` (Dafny's for a positive modulus), so always a cell of the grid. */
  function Target(centres: seq<(int, int)>, a: Attempt, h: nat, w: nat): (c: (int, int))
    requires a.centre < |centres| && h > 0 && w > 0
    ensures 0 <= c.0 < h && 0 <= c.1 < w
  {
    ((centres[a.centre].0 + a.dx) % h, (centres[a.centre].1 + a.dy) % w)
  }

  /** The cells the first n attempts land on. */
  function ClusterCells(centres: seq<(int, int)>, attempts: seq<Attempt>, n: nat, h: nat, w: nat): set<(int, int)>
    requires n <= |attempts| && (n == 0 || (h > 0 && w > 0))
    requires forall t :: 0 <= t < |attempts| ==> attempts[t].centre < |centres|
  {
    if n == 0 then {} else ClusterCells(centres, attempts, n - 1, h, w) + {Target(centres, attempts[n - 1], h, w)}
  }

  lemma {:induction false} InClusterCells(centres: seq<(int, int)>, attempts: seq<Attempt>, n: nat, h: nat, w: nat, c: (int, int))
    requires n <= |attempts| && (n == 0 || (h > 0 && w > 0))
    requires forall t :: 0 <= t < |attempts| ==> attempts[t].centre < |centres|
    ensures c in ClusterCells(centres, attempts, n, h, w) <==>
      exists t :: 0 <= t < n && Target(centres, attempts[t], h, w) == c
  {
    if n > 0 {
      InClusterCells(centres, attempts, n - 1, h, w, c);
    }
  }

  /** Each attempt makes at most one cell live. */
  lemma {:induction false} ClusterCellCount(centres: seq<(int, int)>, attempts: seq<Attempt>, n: nat, h: nat, w: nat)
    requires n <= |attempts| && (n == 0 || (h > 0 && w > 0))
    requires forall t :: 0 <= t < |attempts| ==> attempts[t].centre < |centres|
    ensures |ClusterCells(centres, attempts, n, h, w)| <= n
  {
    if n > 0 {
      ClusterCellCount(centres, attempts, n - 1, h, w);
    }
  }

  /** G is what create_initial_grid builds from the draws when the clustering loop made
      `tries` attempts: the loop stopped only on reaching `num_alive` or on running out
      of attempts; the clustered cells are exactly the attempts' targets; when they fall
      short, the cells named by the first `num_alive - placed` drawn indices are added.
      The live count lies between the clustered count and `num_alive`. */
  ghost predicate GeneratedWith(G: Grid, d: Draws, h: nat, w: nat, tries: nat)
    requires Fits(d, h, w)
  {
    tries <= MaxAttempts(d.numAlive) && (tries == 0 || (h > 0 && w > 0)) &&
    var clustered := ClusterCells(d.centres, d.attempts, tries, h, w);
    var placed := |clustered|;
    placed <= d.numAlive &&
    (placed < d.numAlive ==> tries == MaxAttempts(d.numAlive) && w > 0) &&
    IsShape(G, h, w) && Binary(G) && placed <= Sum(G) <= d.numAlive &&
    forall x, y :: 0 <= x < h && 0 <= y < w ==>
      (G[x][y] == 1 <==>
        (x, y) in clustered || (placed < d.numAlive && (x, y) in FallbackCells(d.pool, d.numAlive - placed, w)))
  }

  /** G is what create_initial_grid builds from the draws. */
  ghost predicate Generated(G: Grid, d: Draws, h: nat, w: nat)
    requires Fits(d, h, w)
  {
    exists tries :: GeneratedWith(G, d, h, w, tries)
  }

  /** The generator: the clustering loop, then (if it fell short) the fallback fill.
      `clusterTries` (ghost) is the number of attempts the loop made. */
  method CreateInitialGrid(h: nat, w: nat, d: Draws) returns (grid: array2<Byte>, ghost clusterTries: nat)
    requires Fits(d, h, w)
    ensures fresh(grid) && grid.Length0 == h && grid.Length1 == w
    ensures GeneratedWith(Cells(grid), d, h, w, clusterTries)
  {
    grid := new Byte[h, w]((_, _) => 0);
    ghost var G := Zeros(h, w);
    SumZeros(h, w);
    var placed, tries;
    placed, tries, G := PlaceClusters(grid, d.numAlive, d.centres, d.attempts, G);
    clusterTries := tries;
    G := Complete(grid, d, placed, tries, G);
    CellsAre(grid, G);
  }

  /** What follows the clustering loop: the fallback fill if the loop fell short. */
  method Complete(grid: array2<Byte>, d: Draws, placed: nat, tries: nat, ghost G: Grid) returns (ghost G': Grid)
    requires Fits(d, grid.Length0, grid.Length1)
    requires tries <= MaxAttempts(d.numAlive) && (tries == 0 || (grid.Length0 > 0 && grid.Length1 > 0))
    requires placed <= d.numAlive && (placed < d.numAlive ==> tries == MaxAttempts(d.numAlive))
    requires Clustered(grid, G, d.centres, d.attempts, tries, placed)
    modifies grid
    ensures Holds(grid, G') && GeneratedWith(G', d, grid.Length0, grid.Length1, tries)
  {
    var h, w := grid.Length0, grid.Length1;
    ghost var clustered := ClusterCells(d.centres, d.attempts, tries, h, w);
    G' := G;
    if placed < d.numAlive {
      PositiveProduct(h, w);
      G' := FillShortfall(grid, d, placed, clustered, G);
    }
    GeneratedWithIntro(G', d, h, w, tries, placed);
  }

  /** The fallback branch of the generator: the clustering loop placed `placed` cells,
      the set S, short of `num_alive`; the first `num_alive - placed` drawn indices are
      made live on top of them. */
  method FillShortfall(grid: array2<Byte>, d: Draws, placed: nat, ghost S: set<(int, int)>, ghost G: Grid)
    returns (ghost G': Grid)
    requires Fits(d, grid.Length0, grid.Length1) && grid.Length1 > 0 && placed < d.numAlive
    requires Holds(grid, G) && Binary(G) && Sum(G) == placed
    requires forall x, y :: 0 <= x < grid.Length0 && 0 <= y < grid.Length1 ==> (G[x][y] == 1 <==> (x, y) in S)
    modifies grid
    ensures Holds(grid, G') && Binary(G') && placed <= Sum(G') <= d.numAlive
    ensures forall x, y :: 0 <= x < grid.Length0 && 0 <= y < grid.Length1 ==>
      (G'[x][y] == 1 <==> (x, y) in S || (x, y) in FallbackCells(d.pool, d.numAlive - placed, grid.Length1))
  {
    G' := FillFallback(grid, d.pool, d.numAlive - placed, G);
    forall x, y | 0 <= x < grid.Length0 && 0 <= y < grid.Length1
      ensures G'[x][y] == 1 <==> (x, y) in S || (x, y) in FallbackCells(d.pool, d.numAlive - placed, grid.Length1)
    {
      assert G[x][y] == 1 <==> (x, y) in S;
    }
  }

  /** The conditions of GeneratedWith, taken one at a time. */
  lemma GeneratedWithIntro(G: Grid, d: Draws, h: nat, w: nat, tries: nat, placed: nat)
    requires Fits(d, h, w)
    requires tries <= MaxAttempts(d.numAlive) && (tries == 0 || (h > 0 && w > 0))
    requires placed == |ClusterCells(d.centres, d.attempts, tries, h, w)| && placed <= d.numAlive
    requires placed < d.numAlive ==> tries == MaxAttempts(d.numAlive) && w > 0
    requires IsShape(G, h, w) && Binary(G) && placed <= Sum(G) <= d.numAlive
    requires forall x, y :: 0 <= x < h && 0 <= y < w ==>
      (G[x][y] == 1 <==> (x, y) in ClusterCells(d.centres, d.attempts, tries, h, w) ||
                         (placed < d.numAlive && (x, y) in FallbackCells(d.pool, d.numAlive - placed, w)))
    ensures GeneratedWith(G, d, h, w, tries)
  {
  }

  /** The state of the clustering loop after n attempts: the grid holds G, whose live
      cells are exactly the attempts' targets, `placed` of them. */
  ghost predicate Clustered(grid: array2<Byte>, G: Grid, centres: seq<(int, int)>,
                            attempts: seq<Attempt>, n: nat, placed: nat)
    reads grid
    requires n <= |attempts| && (n == 0 || (grid.Length0 > 0 && grid.Length1 > 0))
    requires forall t :: 0 <= t < |attempts| ==> attempts[t].centre < |centres|
  {
    var S := ClusterCells(centres, attempts, n, grid.Length0, grid.Length1);
    Holds(grid, G) && Binary(G) && Sum(G) == placed && placed == |S| &&
    forall x, y :: 0 <= x < grid.Length0 && 0 <= y < grid.Length1 ==> (G[x][y] == 1 <==> (x, y) in S)
  }

  /** The clustering loop: up to `max_attempts` draws, each a centre plus rounded
      normal offsets wrapped onto the torus; a draw landing on a dead cell makes it
      live. It ends with the targets of the attempts made live, `placed` of them, and
      stops early only when `num_alive` cells are placed. */
  method PlaceClusters(grid: array2<Byte>, numAlive: nat, centres: seq<(int, int)>,
                       attempts: seq<Attempt>, ghost G: Grid)
    returns (placed: nat, tries: nat, ghost G': Grid)
    requires numAlive <= grid.Length0 * grid.Length1
    requires |attempts| >= MaxAttempts(numAlive)
    requires forall t :: 0 <= t < |attempts| ==> attempts[t].centre < |centres|
    requires Holds(grid, G) && G == Zeros(grid.Length0, grid.Length1)
    modifies grid
    ensures tries <= MaxAttempts(numAlive) && (tries == 0 || (grid.Length0 > 0 && grid.Length1 > 0))
    ensures placed <= numAlive && (placed < numAlive ==> tries == MaxAttempts(numAlive))
    ensures Clustered(grid, G', centres, attempts, tries, placed)
  {
    var h, w := grid.Length0, grid.Length1;
    SumZeros(h, w);
    G' := G;
    placed := 0;
    var maxAttempts := MaxAttempts(numAlive);
    tries := 0;
    while placed < numAlive && tries < maxAttempts
      invariant placed <= numAlive && tries <= maxAttempts && (tries == 0 || (h > 0 && w > 0))
      invariant Clustered(grid, G', centres, attempts, tries, placed)
    {
      PositiveProduct(h, w);
      var landed;
      landed, G' := TryAttempt(grid, centres, attempts, tries, placed, G');
      if landed {
        placed := placed + 1;
      }
      tries := tries + 1;
    }
  }

  /** One pass of the clustering loop: attempt `tries` is drawn, and its target is made
      live if it was dead (`landed`). */
  method TryAttempt(grid: array2<Byte>, centres: seq<(int, int)>, attempts: seq<Attempt>,
                    tries: nat, placed: nat, ghost G: Grid)
    returns (landed: bool, ghost G': Grid)
    requires grid.Length0 > 0 && grid.Length1 > 0 && tries < |attempts|
    requires forall t :: 0 <= t < |attempts| ==> attempts[t].centre < |centres|
    requires Clustered(grid, G, centres, attempts, tries, placed)
    modifies grid
    ensures Clustered(grid, G', centres, attempts, tries + 1, placed + if landed then 1 else 0)
  {
    var h, w := grid.Length0, grid.Length1;
    var attempt := attempts[tries];
    var (cx, cy) := centres[attempt.centre];
    var x := (cx + attempt.dx) % h;
    var y := (cy + attempt.dy) % w;
    ghost var before := ClusterCells(centres, attempts, tries, h, w);
    assert (x, y) == Target(centres, attempts[tries], h, w);
    landed, G' := Land(grid, x, y, G, before);
  }

  /** One attempt landing on (x, y): a dead cell is made live (`landed`), a live one is
      left alone. S is the set of live cells. */
  method Land(grid: array2<Byte>, x: int, y: int, ghost G: Grid, ghost S: set<(int, int)>)
    returns (landed: bool, ghost G': Grid)
    requires 0 <= x < grid.Length0 && 0 <= y < grid.Length1
    requires Holds(grid, G) && Binary(G) && Sum(G) == |S|
    requires forall a, b :: 0 <= a < grid.Length0 && 0 <= b < grid.Length1 ==> (G[a][b] == 1 <==> (a, b) in S)
    modifies grid
    ensures landed <==> (x, y) !in S
    ensures Holds(grid, G') && Binary(G') && Sum(G') == |S + {(x, y)}|
    ensures |S + {(x, y)}| == |S| + (if landed then 1 else 0)
    ensures forall a, b :: 0 <= a < grid.Length0 && 0 <= b < grid.Length1 ==>
      (G'[a][b] == 1 <==> (a, b) in S + {(x, y)})
  {
    landed := grid[x, y] == 0;
    assert G[x][y] == grid[x, y];
    if landed {
      G' := SetLive(grid, x, y, G);
      forall a, b | 0 <= a < grid.Length0 && 0 <= b < grid.Length1
        ensures G'[a][b] == 1 <==> (a, b) in S + {(x, y)}
      {
        assert G'[a][b] == if (a, b) == (x, y) then 1 else G[a][b];
      }
    } else {
      G' := G;
      assert S + {(x, y)} == S;
    }
  }

  /** The fallback fill: every drawn flat index makes its cell live, whether or not it
      already was, so the live count grows by at most the number of indices. */
  method FillFallback(grid: array2<Byte>, pool: seq<int>, remaining: nat, ghost G: Grid)
    returns (ghost G': Grid)
    requires grid.Length1 > 0 && remaining <= |pool|
    requires forall k :: 0 <= k < |pool| ==> 0 <= pool[k] < grid.Length0 * grid.Length1
    requires Holds(grid, G) && Binary(G)
    modifies grid
    ensures Holds(grid, G') && Binary(G') && Sum(G) <= Sum(G') <= Sum(G) + remaining
    ensures forall x, y :: 0 <= x < grid.Length0 && 0 <= y < grid.Length1 ==>
      (G'[x][y] == 1 <==> G[x][y] == 1 || (x, y) in FallbackCells(pool, remaining, grid.Length1))
  {
    var h, w := grid.Length0, grid.Length1;
    var indices := pool[..remaining];
    G' := G;
    for k := 0 to remaining
      invariant Holds(grid, G') && Binary(G') && Sum(G) <= Sum(G') <= Sum(G) + k
      invariant forall x, y :: 0 <= x < h && 0 <= y < w ==>
        (G'[x][y] == 1 <==> G[x][y] == 1 || (x, y) in FallbackCells(pool, k, w))
    {
      var idx := indices[k];
      FlatCellInGrid(idx, h, w);
      var x := idx / w;
      var y := idx % w;
      assert idx == pool[k] && FallbackCells(pool, k + 1, w) == FallbackCells(pool, k, w) + {(x, y)};
      G' := SetLive(grid, x, y, G');
    }
  }

  /** `grid[x, y] = 1`, with the ghost grid G kept in step. */
  method SetLive(grid: array2<Byte>, x: int, y: int, ghost G: Grid) returns (ghost G': Grid)
    requires 0 <= x < grid.Length0 && 0 <= y < grid.Length1
    requires Holds(grid, G) && Binary(G)
    modifies grid
    ensures Holds(grid, G') && Binary(G') && G' == SetCell(G, x, y, 1)
    ensures Sum(G') == Sum(G) - G[x][y] + 1
  {
    grid[x, y] := 1;
    SetCellSum(G, x, y, 1);
    G' := SetCell(G, x, y, 1);
  }
}
