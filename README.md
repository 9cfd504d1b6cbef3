# Conway's Game of Life on a torus, with a CPU and a GPU backend

This project models the compute core of a desktop Game of Life (`main.py`): an
800 x 440 grid of `uint8` cells (0 dead, 1 alive) that wraps at its edges, updated by
Conway's B3/S23 rule either by a parallel CPU kernel (`update_grid_cpu`) or by a CUDA
kernel (`update_grid_gpu`) launched on 32 x 32 thread blocks. It also models the
start-up grid generator (`create_initial_grid`), the circular brush that paints or
toggles cells under the mouse, and the controls the main loop keeps: pause, reset, clear,
brush size, frame rate, save mode, grid lines and the CPU/GPU switch.

The modules follow the program's parts:

- `Grids` (grids.dfy): cells (`Byte`, 0..255), grid values (`seq<seq<Byte>>`), the value
  `Cells(a)` an `array2` holds, and the live-cell sum.
- `Rule` (rule.dfy): the wrapped neighbour count and one generation, `Step`. This is the
  reference definition both kernels are proved against.
- `CpuKernel` (cpu_kernel.dfy): `update_grid_cpu` as nested loops over a fresh zero grid.
- `GpuKernel` (gpu_kernel.dfy): one kernel thread, the launch over all threads, and the
  block count `(n + 31) // 32`.
- `Brush` (brush.dfy): the disk stamp, clipped at the edges, with save (set to 1) and
  toggle (`1 - v`) modes.
- `InitialGrid` (initial_grid.dfy): the clustering loop and the fallback fill. The random
  draws are inputs.
- `Session` (session.dfy): the state of `main()` as a class. It covers the button
  actions, painting, one frame's update, and the host and device buffers.
- `Arith` (arith.dfy): three small facts about `*` and `%` that the proofs use.

Arithmetic follows the source:

- Python's `%` with a positive modulus is Dafny's `%`, so row -1 wraps to the last row.
- numba adds `uint8` cells in machine integers, so neighbour sums do not wrap.
- The toggle `1 - v` on a `uint8` does wrap, and is modelled as `(1 - v) % 256`.

The two kernels are proved equal to `Step` on every byte grid, not only on 0/1 grids.

Three behaviours of the code worth knowing:

- **Initial live count.** The fallback fill writes 1 at each drawn flat index without
  checking the cell. An index can land on a cell the clustering loop already made live, so
  the live count ends up between the number placed by clustering and `num_alive`. It is not
  always exactly `num_alive`.
- **Host lag on the GPU path.** After a launch, the host receives the *pre-step* device grid
  (`d_grid.copy_to_host` runs before the swap). So the host copy is one generation behind
  the device. `Session.Valid` carries this as an invariant: the device grid equals either the
  host grid or `Step` of it.
- **Stale host on GPU.** Painting or switching to the CPU while the GPU is in use starts from
  that lagging host copy. The newest device generation is dropped, and the generation counter
  does not go back.

## Model

| member | source | states |
|---|---|---|
| Grids.Zeros | main.py:162 | `np.zeros`: the all-dead grid of the given shape, which is 0/1 |
| Grids.SetCellSum | main.py:190-192 | writing v over a cell changes the sum by v minus the old value, so turning a dead cell live adds exactly one |
| Grids.SumZeros | main.py:366 | the cleared grid has no live cell |
| Grids.SumAtMost | main.py:481 | on a 0/1 grid the live count is at most h * w |
| Grids.AliveCount | main.py:481 | `np.sum(grid)` equals the grid's live-cell sum `Sum(Cells(g))` |
| Rule.Neighbours | main.py:138-147 | the wrapped eight-neighbour count is in [0, 8 * 255], and at most 8 on a 0/1 grid |
| Rule.Step | main.py:150-155 | the next generation has the same shape and is 0/1. A cell is 1 exactly when it was 1 with 2 or 3 neighbours, or not 1 with exactly 3 |
| Rule.WrappedCornerSurvives | main.py:138-141 | a live corner whose only live neighbours lie across the wrapped edges counts 3 and survives |
| Rule.LoneCellDies | main.py:150-155 | on a 3 x 3 torus a single live cell dies and nothing is born |
| CpuKernel.UpdateGridCpu | main.py:129-157 | returns a fresh grid of the same shape holding `Step` of the input |
| CpuKernel.UpdateCell | main.py:136-155 | one loop iteration writes the rule's value into its own cell and leaves every other cell alone |
| GpuKernel.LoopSumIsNeighbours | main.py:105-113 | the kernel's offset loops with `continue` add up the same eight wrapped cells as the CPU kernel |
| GpuKernel.KernelNeighbours | main.py:105-113 | the nested offset loops compute `Neighbours` of the thread's cell |
| GpuKernel.UpdateGridGpu | main.py:99-125 | a thread inside the grid writes the rule's value into its own cell; a thread outside writes nothing; no other cell changes |
| GpuKernel.BlocksPerGrid | main.py:298-299 | `(n + t - 1) // t` blocks of t threads reach every cell (`blocks * t >= n`) with no spare block (`(blocks - 1) * t < n`) |
| GpuKernel.ThreadCoversCell | main.py:100-103 | cell k is reached by thread `k % t` of block `k // t`, and that block is launched |
| GpuKernel.ThreadIsUnique | main.py:100 | any (block, thread) pair that reaches cell k is that one, so each cell has exactly one thread |
| GpuKernel.LaunchUpdateGridGpu | main.py:415 | a launch writes `NextAt` into every cell some thread reaches and leaves the rest. When the blocks cover both edges, the output is exactly `Step` of the input |
| Brush.Flip | main.py:404 | the uint8 toggle always changes the cell and maps 0 and 1 to each other |
| Brush.FlipFlip | main.py:404 | toggling a cell twice restores it |
| Brush.Stamped | main.py:392-404 | the stamped grid keeps its shape. Cells outside the clipped disk are unchanged and cells inside are painted |
| Brush.ToggleChangesExactlyDisk | main.py:392-404 | a toggle stamp changes a cell if and only if the cell is inside the disk. Nothing wraps round the edges |
| Brush.SetChangesDeadDiskCells | main.py:401-402 | a save-mode stamp changes a cell if and only if it is in the disk and not already 1 |
| Brush.ToggleTwiceRestores | main.py:392-404 | the same toggle stamp applied twice restores the grid |
| Brush.SetIsIdempotent | main.py:401-402 | the same save-mode stamp applied twice equals it applied once |
| Brush.StampKeepsBinary | main.py:392-404 | either mode keeps a 0/1 grid a 0/1 grid |
| Brush.Stamp | main.py:392-404 | the brush loops leave the array holding `Stamped` of its old value |
| InitialGrid.CentreRange | main.py:167-171 | `[n // 4, 3 * n // 4)` is non-empty exactly when n >= 2, lies inside the edge, and stays off both borders for n >= 4 |
| InitialGrid.FlatCellInGrid | main.py:199-202 | a flat index below h * w names a cell `(idx // w, idx % w)` of the grid |
| InitialGrid.FlatCellInjective | main.py:201-202 | different flat indices name different cells |
| InitialGrid.InFallbackCells | main.py:200-203 | a cell is set by the fallback exactly when one of the first n drawn indices names it |
| InitialGrid.FallbackCellCount | main.py:199-203 | drawing without replacement gives n distinct indices, so the fallback sets exactly n distinct cells |
| InitialGrid.Target | main.py:180-187 | an attempt's centre plus its offsets, wrapped by `%`, is always a cell of the grid |
| InitialGrid.InClusterCells | main.py:178-192 | a cell is made live by the first n attempts exactly when one of them lands on it |
| InitialGrid.ClusterCellCount | main.py:189-194 | each attempt places at most one cell, so n attempts place at most n |
| InitialGrid.PlaceClusters | main.py:174-194 | the loop makes at most `max_attempts` attempts and stops early only when `num_alive` cells are placed. Its live cells are exactly the targets of the attempts made, `placed` of them, and `placed <= num_alive` |
| InitialGrid.TryAttempt | main.py:180-194 | one pass: the cells live afterwards are those before plus this attempt's target, and `placed` goes up exactly when that target was dead |
| InitialGrid.Land | main.py:189-191 | a dead cell is made live and counted, a live one is left alone |
| InitialGrid.FillShortfall | main.py:197-203 | after a short clustering loop, the live cells are the clustered ones plus the cells the first `num_alive - placed` indices name, and the count stays in [placed, num_alive] |
| InitialGrid.Complete | main.py:197-205 | after the loop, the grid is the one create_initial_grid returns (`GeneratedWith`) |
| InitialGrid.FillFallback | main.py:197-203 | the fallback makes a cell live exactly when it was live or is named by a drawn index. The live count grows by at most the number of indices |
| InitialGrid.SetLive | main.py:191 | `grid[x, y] = 1`: the array and its ghost value stay in step, and the sum changes by one minus the old cell |
| InitialGrid.CreateInitialGrid | main.py:161-205 | a fresh grid satisfying `GeneratedWith` for the number of attempts made: at most `max_attempts` attempts, fewer only when `num_alive` cells were placed; 0/1; the live cells are exactly the attempts' targets plus, when those fall short, the cells named by the first `num_alive - placed` drawn indices; the live count lies between `placed` and `num_alive` |
| Session.SmallerBrush | main.py:373 | `max(b - 1, 1)` keeps the brush in [1, 30] and lowers it by one above 1 |
| Session.LargerBrush | main.py:375 | `min(b + 1, 30)` keeps the brush in [1, 30] and raises it by one below 30 |
| Session.LowerFps | main.py:377 | `max(f - 15, 15)` keeps the frame rate a multiple of 15 in [15, 300] and lowers it by 15 when that stays in range |
| Session.HigherFps | main.py:379 | `min(f + 15, 300)` keeps the frame rate a multiple of 15 in [15, 300] and raises it by 15 when that stays in range |
| Session.Press | main.py:355-384 | a button press keeps the controls in range. Only reset and clear zero the generation; only pause toggles pause and only reset unpauses; only the device switch, with a GPU, changes the device; only "grid" and "save" flip their flags |
| Session.TogglesTwiceRestore | main.py:355-384 | pause, grid lines, save mode and the device switch pressed twice leave the controls as they were |
| Session.BrushStepsUndo | main.py:372-375 | away from its bounds, brush-up and brush-down undo each other |
| Session.FpsStepsUndo | main.py:376-379 | away from its bounds, fps-up and fps-down undo each other |
| Session.ClampsSaturate | main.py:372-379 | at a bound, the button pushing past it changes nothing |
| Session.GridGeometry | main.py:297-300 | init_cuda's 32 x 32 blocks cover the 440 x 800 grid with no spare block on either axis |
| Session.NewGrid | main.py:274 | create_initial_grid at the configured size gives a fresh 0/1 grid that is `Generated` from the draws, with at most `num_alive` live cells |
| Session.ToDevice | main.py:303 | `cuda.to_device` gives a fresh array holding the host grid's value |
| Session.CopyToHost | main.py:416 | `copy_to_host` leaves the host array holding the device array's value |
| Session.BackendsAgree | main.py:413-422 | from the same grid, the CPU kernel and a covering GPU launch produce the same grid, `Step` of the input |
| Session.Session.constructor | main.py:272-310 | start-up: a grid `Generated` from the draws (at most `num_alive` live cells), unpaused, generation 0, brush 3, grid lines on, save mode off, 60 fps, and the GPU used exactly when available, with its grid uploaded |
| Session.Session.InitCuda | main.py:292-310 | with the GPU in use: a covering launch, an uploaded grid and an output buffer. Otherwise none of the four exist |
| Session.Session.HandleButton | main.py:351-384 | the controls change as `Press` says. Clear leaves an all-dead grid, reset a grid `Generated` from the draws, and other buttons keep the host grid. After clear, reset or the device switch on the GPU path, the device grid holds the host grid; clear and reset keep the output buffer; the other buttons leave both device buffers alone |
| Session.Session.ToggleOrStep | main.py:355-379 | the scalar-only buttons change the controls as `Press` says and touch neither grid |
| Session.Session.ResetGrid | main.py:357-362 | reset installs a grid `Generated` from the draws, zeroes the generation, unpauses and re-uploads on the GPU path |
| Session.Session.Install | main.py:358-362 | a new host grid at generation 0, unpaused, uploaded on the GPU path |
| Session.Session.ClearGrid | main.py:365-369 | clear installs the all-dead grid, zeroes the generation, keeps the pause state and re-uploads on the GPU path |
| Session.Session.SwitchDeviceButton | main.py:380-384 | with a GPU the device flips and init_cuda re-runs, uploading the host grid when the GPU is now in use. Without one nothing changes |
| Session.Session.Upload | main.py:406-407 | on the GPU path the device grid becomes a fresh copy of the host grid |
| Session.Session.Paint | main.py:387-407 | above the control bar, the host grid becomes `Stamped` at row `py // 2`, column `px // 2`, and the result is uploaded on the GPU path. Elsewhere nothing changes |
| Session.Session.Tick | main.py:410-425 | unpaused: the generation goes up by one. The CPU path replaces the grid with `Step` of it. The GPU path leaves the device grid at `Step` of its old value and the host at the old device grid, one generation behind. Paused: nothing changes, neither the controls, the host grid, nor the device buffers |
| Session.Session.StepDevice | main.py:412-417 | the launch, the copy of the pre-step device grid to the host and the buffer swap |
| Session.Session.StepHost | main.py:418-421 | the CPU kernel replaces the host grid with `Step` of it |

## Left out

- Rendering, fonts, window set-up, the control bar's drawing, hover and hit-testing, and the
  button labels: these are user interface, not computation. A button press is an `Action`
  and a mouse event is a pixel position.
- The event loop itself: polling, `QUIT`, frame timing (`clock.tick`, `compute_time`) and the
  `device` label. The model gives the operations one frame can perform (`HandleButton`,
  `Paint`, `Tick`) but not their order inside a frame.
- The alive-percentage display: it is floating point. Its input, the live count, is modelled
  by `Grids.AliveCount`, and `Grids.SumAtMost` bounds it.
- CUDA detection and `cuda.is_available()`: `gpuAvailable` is a parameter of the session.
- Randomness: every draw of `randint`, `choice` and `normal`, and `num_alive` itself, is an
  input (`InitialGrid.Draws`). So are `INITIAL_DENSITY` and `CLUSTER_RADIUS`, which only
  shape those draws and involve floating point. `InitialGrid.Fits` states what the
  generators guarantee about the draws.
- InitialGrid.CreateInitialGrid: takes the grid size as parameters rather than fixing it at
  440 x 800, and does not require the centres to lie in `CentreRange`. The loop never relies
  on either.
- `prange`, `fastmath`, `cache` and the parallel execution of both kernels: the model runs
  the iterations in order. This is faithful because no iteration reads a cell that another
  one writes.
- The contents of `device_array_like` are left arbitrary. They are never read before the
  first launch overwrites every cell.
- Device errors, device synchronisation and memory exhaustion: these are not modelled.
