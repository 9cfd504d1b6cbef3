/** The accelerator kernel, update_grid_gpu, and its launch geometry. One logical
    thread per cell: thread (i, j) counts the wrapped neighbours with two nested
    loops over the offsets -1, 0, 1 (skipping its own cell) and writes the rule's
    value into the second buffer; threads outside the grid do nothing. The launch
    runs the threads in order, which is faithful because no thread reads what
    another writes. */
module GpuKernel {
  import opened Grids
  import opened Rule
  import opened Arith

  /** Edge of a square thread block, `threads_per_block = (32, 32)`. */
  const ThreadsPerBlock: nat := 32

  /** What the kernel's inner loop adds for offset (di, dj): the wrapped cell there,
      or nothing for the thread's own cell (the `continue`). */
  function OffsetTerm(G: Grid, i: int, j: int, di: int, dj: int): int
    requires Rectangular(G) && 0 <= i < |G| && 0 <= j < Width(G)
  {
    if di == 0 && dj == 0 then 0 else G[(i + di) % |G|][(j + dj) % Width(G)]
  }

  /** The inner loop's total for row offset di once the column offsets -1 .. dj-1 are done. */
  function RowTerms(G: Grid, i: int, j: int, di: int, dj: int): int
    requires Rectangular(G) && 0 <= i < |G| && 0 <= j < Width(G)
    requires -1 <= dj <= 2
    decreases dj
  {
    if dj == -1 then 0 else RowTerms(G, i, j, di, dj - 1) + OffsetTerm(G, i, j, di, dj - 1)
  }

  /** The outer loop's total once the row offsets -1 .. di-1 are done. */
  function LoopSum(G: Grid, i: int, j: int, di: int): int
    requires Rectangular(G) && 0 <= i < |G| && 0 <= j < Width(G)
    requires -1 <= di <= 2
    decreases di
  {
    if di == -1 then 0 else LoopSum(G, i, j, di - 1) + RowTerms(G, i, j, di - 1, 2)
  }

  /** The kernel's loop visits the same eight wrapped neighbours that update_grid_cpu
      adds up explicitly, so the two counts agree on every grid. */
  lemma {:induction false} LoopSumIsNeighbours(G: Grid, i: int, j: int)
    requires Rectangular(G) && 0 <= i < |G| && 0 <= j < Width(G)
    ensures LoopSum(G, i, j, 2) == Neighbours(G, i, j)
  {
    var rows, cols := |G|, Width(G);
    var up, down, left, right := (i - 1) % rows, (i + 1) % rows, (j - 1) % cols, (j + 1) % cols;
    RowTermsUnrolled(G, i, j, -1);
    RowTermsUnrolled(G, i, j, 0);
    RowTermsUnrolled(G, i, j, 1);
    ModOfSmall(i, rows);
    ModOfSmall(j, cols);
    assert RowTerms(G, i, j, -1, 2) == G[up][left] as int + G[up][j] + G[up][right];
    assert RowTerms(G, i, j, 0, 2) == G[i][left] as int + G[i][right];
    assert RowTerms(G, i, j, 1, 2) == G[down][left] as int + G[down][j] + G[down][right];
  }

  /** One pass of the inner loop adds the three column offsets of row offset di. */
  lemma RowTermsUnrolled(G: Grid, i: int, j: int, di: int)
    requires Rectangular(G) && 0 <= i < |G| && 0 <= j < Width(G)
    ensures RowTerms(G, i, j, di, 2) ==
      OffsetTerm(G, i, j, di, -1) + OffsetTerm(G, i, j, di, 0) + OffsetTerm(G, i, j, di, 1)
    ensures LoopSum(G, i, j, 2) ==
      RowTerms(G, i, j, -1, 2) + RowTerms(G, i, j, 0, 2) + RowTerms(G, i, j, 1, 2)
  {
  }

  /** The neighbour count of thread (i, j): the kernel's nested loops over the offsets. */
  method KernelNeighbours(grid: array2<Byte>, i: int, j: int) returns (neighbours: int)
    requires 0 <= i < grid.Length0 && 0 <= j < grid.Length1
    ensures neighbours == Neighbours(Cells(grid), i, j)
  {
    var rows, cols := grid.Length0, grid.Length1;
    ghost var G := Cells(grid);
    neighbours := 0;
    for di := -1 to 2
      invariant neighbours == LoopSum(G, i, j, di)
    {
      for dj := -1 to 2
        invariant neighbours == LoopSum(G, i, j, di) + RowTerms(G, i, j, di, dj)
      {
        if di == 0 && dj == 0 {
          continue;
        }
        var ni := (i + di) % rows;
        var nj := (j + dj) % cols;
        neighbours := neighbours + grid[ni, nj];
      }
    }
    LoopSumIsNeighbours(G, i, j);
  }

  /** Thread (i, j) of update_grid_gpu. `cuda.grid(2)` never yields a negative index,
      and an index past either edge writes nothing. */
  method UpdateGridGpu(grid: array2<Byte>, newGrid: array2<Byte>, i: nat, j: nat)
    requires newGrid != grid
    requires newGrid.Length0 == grid.Length0 && newGrid.Length1 == grid.Length1
    modifies newGrid
    ensures i < grid.Length0 && j < grid.Length1 ==> newGrid[i, j] == NextAt(Cells(grid), i, j)
    ensures forall i', j' :: 0 <= i' < grid.Length0 && 0 <= j' < grid.Length1 && (i' != i || j' != j) ==>
      newGrid[i', j'] == old(newGrid[i', j'])
  {
    var rows, cols := grid.Length0, grid.Length1;
    if i < rows && j < cols {
      var neighbours := KernelNeighbours(grid, i, j);
      if grid[i, j] == 1 {
        if neighbours == 2 || neighbours == 3 {
          newGrid[i, j] := 1;
        } else {
          newGrid[i, j] := 0;
        }
      } else {
        if neighbours == 3 {
          newGrid[i, j] := 1;
        } else {
          newGrid[i, j] := 0;
        }
      }
    }
  }

  /** `(n + t - 1) // t`, the number of blocks of t threads launched along an edge of
      n cells: enough blocks to reach every cell, and not one block more. */
  function BlocksPerGrid(n: nat, t: nat): (blocks: nat)
    requires t > 0
    ensures blocks * t >= n
    ensures (blocks - 1) * t < n
  {
    (n + t - 1) / t
  }

  /** Cell k of an edge of n cells is reached by thread k % t of block k / t, and that
      block is part of the launch. */
  lemma ThreadCoversCell(n: nat, t: nat, k: nat)
    requires t > 0 && k < n
    ensures k / t < BlocksPerGrid(n, t) && k % t < t && (k / t) * t + k % t == k
  {
    var q, blocks := k / t, BlocksPerGrid(n, t);
    assert q * t <= k < n <= blocks * t;
    MulMonotone(blocks, q, t);
  }

  /** No other (block, thread) pair reaches cell k: every cell has exactly one thread. */
  lemma ThreadIsUnique(t: nat, block: nat, thread: nat, k: nat)
    requires thread < t && block * t + thread == k
    ensures block == k / t && thread == k % t
  {
    var q, r := k / t, k % t;
    assert q * t + r == k;
    MulMonotone(block + 1, q, t);
    MulMonotone(q + 1, block, t);
    assert (block + 1) * t == block * t + t && (q + 1) * t == q * t + t;
  }



  /** One launch `update_grid_gpu[blocks, threads](grid, newGrid)`: every thread whose
      global index `block * threads + thread` lands inside the grid writes its cell,
      the rest write nothing. When the blocks cover both edges, `newGrid` then holds
      exactly the next generation. */
  method LaunchUpdateGridGpu(grid: array2<Byte>, newGrid: array2<Byte>, blocks: (nat, nat), threads: (nat, nat))
    requires newGrid != grid
    requires newGrid.Length0 == grid.Length0 && newGrid.Length1 == grid.Length1
    modifies newGrid
    ensures forall i, j :: 0 <= i < grid.Length0 && 0 <= j < grid.Length1 ==>
      newGrid[i, j] ==
        if i < blocks.0 * threads.0 && j < blocks.1 * threads.1 then NextAt(Cells(grid), i, j)
        else old(newGrid[i, j])
    ensures blocks.0 * threads.0 >= grid.Length0 && blocks.1 * threads.1 >= grid.Length1 ==>
      Cells(newGrid) == Step(Cells(grid))
  {
    var rows, cols := grid.Length0, grid.Length1;
    var spanX, spanY := blocks.0 * threads.0, blocks.1 * threads.1;
    ghost var G := Cells(grid);
    for x := 0 to spanX
      invariant forall i, j :: 0 <= i < rows && 0 <= j < cols ==>
        newGrid[i, j] == if i < x && j < spanY then NextAt(G, i, j) else old(newGrid[i, j])
    {
      for y := 0 to spanY
        invariant forall i, j :: 0 <= i < rows && 0 <= j < cols ==>
          newGrid[i, j] ==
            if (i < x && j < spanY) || (i == x && j < y) then NextAt(G, i, j) else old(newGrid[i, j])
      {
        UpdateGridGpu(grid, newGrid, x, y);
      }
    }
    if spanX >= rows && spanY >= cols {
      CellsAre(newGrid, Step(G));
    }
  }
}
