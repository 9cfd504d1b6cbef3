/** The multi-core update kernel, update_grid_cpu: read every cell's wrapped
    neighbourhood from the input grid and write the next generation into a fresh,
    zero-filled grid of the same shape. The numba `prange` loops run here in order;
    every iteration writes its own cell and only reads the input, so the order does
    not matter. */
module CpuKernel {
  import opened Grids
  import opened Rule

  method UpdateGridCpu(grid: array2<Byte>) returns (newGrid: array2<Byte>)
    ensures fresh(newGrid)
    ensures newGrid.Length0 == grid.Length0 && newGrid.Length1 == grid.Length1
    ensures Cells(newGrid) == Step(Cells(grid))
  {
    newGrid := new Byte[grid.Length0, grid.Length1]((_, _) => 0);
    var rows, cols := grid.Length0, grid.Length1;
    ghost var G := Cells(grid);
    for i := 0 to rows
      invariant forall i', j' :: 0 <= i' < i && 0 <= j' < cols ==> newGrid[i', j'] == NextAt(G, i', j')
      invariant forall i', j' :: i <= i' < rows && 0 <= j' < cols ==> newGrid[i', j'] == 0
    {
      for j := 0 to cols
        invariant forall i', j' :: 0 <= i' < i && 0 <= j' < cols ==> newGrid[i', j'] == NextAt(G, i', j')
        invariant forall j' :: 0 <= j' < j ==> newGrid[i, j'] == NextAt(G, i, j')
        invariant forall i', j' :: i <= i' < rows && 0 <= j' < cols && (i' > i || j' >= j) ==>
          newGrid[i', j'] == 0
      {
        UpdateCell(grid, newGrid, i, j);
      }
      assert forall j' :: 0 <= j' < cols ==> newGrid[i, j'] == NextAt(G, i, j');
    }
    CellsAre(newGrid, Step(G));
  }

  /** The body of update_grid_cpu's loops for cell (i, j): sum the eight wrapped
      neighbours and write 1 where the rule makes the cell live; the zero already in
      `newGrid` stands for every other outcome. */
  method UpdateCell(grid: array2<Byte>, newGrid: array2<Byte>, i: int, j: int)
    requires newGrid != grid
    requires newGrid.Length0 == grid.Length0 && newGrid.Length1 == grid.Length1
    requires 0 <= i < grid.Length0 && 0 <= j < grid.Length1 && newGrid[i, j] == 0
    modifies newGrid
    ensures newGrid[i, j] == NextAt(Cells(grid), i, j)
    ensures forall i', j' :: 0 <= i' < grid.Length0 && 0 <= j' < grid.Length1 && (i' != i || j' != j) ==>
      newGrid[i', j'] == old(newGrid[i', j'])
  {
    var rows, cols := grid.Length0, grid.Length1;
    var iUp := (i - 1) % rows;
    var iDown := (i + 1) % rows;
    var jLeft := (j - 1) % cols;
    var jRight := (j + 1) % cols;
    var neighbours :=
      grid[iUp, jLeft] as int + grid[iUp, j] + grid[iUp, jRight] +
      grid[i, jLeft] + grid[i, jRight] +
      grid[iDown, jLeft] + grid[iDown, j] + grid[iDown, jRight];
    assert neighbours == Neighbours(Cells(grid), i, j);
    if grid[i, j] == 1 {
      if neighbours == 2 || neighbours == 3 {
        newGrid[i, j] := 1;
      }
    } else {
      if neighbours == 3 {
        newGrid[i, j] := 1;
      }
    }
  }
}
