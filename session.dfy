/** The state main() keeps between frames, and what the buttons, the brush and one
    unpaused frame do to it. The host grid lives in `grid`; when the accelerator is
    in use the device buffers `dGrid` (the current device generation) and `dNewGrid`
    (the kernel's output buffer) exist as well. */
module Session {
  import opened Grids
  import opened Rule
  import opened Brush
  import opened CpuKernel
  import opened GpuKernel
  import opened InitialGrid

  const GridWidth: nat := 800
  const GridHeight: nat := 440
  const CellSize: nat := 2
  const MaxBrushSize: int := 30
  const InitialBrushSize: int := 3
  const MinFps: int := 15
  const MaxFps: int := 300
  const FpsStep: int := 15
  const DefaultFps: int := 60

  /** `max(brush_size - 1, 1)`: one smaller, never below 1. */
  function SmallerBrush(b: int): (r: int)
    ensures r >= 1
    ensures 1 <= b <= MaxBrushSize ==> 1 <= r <= MaxBrushSize && r <= b
    ensures b > 1 ==> r == b - 1
  {
    if b - 1 > 1 then b - 1 else 1
  }

  /** `min(brush_size + 1, max_brush_size)`: one larger, never above 30. */
  function LargerBrush(b: int): (r: int)
    ensures r <= MaxBrushSize
    ensures 1 <= b <= MaxBrushSize ==> 1 <= r <= MaxBrushSize && r >= b
    ensures b < MaxBrushSize ==> r == b + 1
  {
    if b + 1 < MaxBrushSize then b + 1 else MaxBrushSize
  }

  /** A frame rate the buttons can reach from the default: a multiple of the step
      between the two bounds. */
  predicate FpsOk(f: int)
  {
    MinFps <= f <= MaxFps && f % FpsStep == 0
  }

  /** `max(fps - FPS_STEP, MIN_FPS)`. */
  function LowerFps(f: int): (r: int)
    ensures r >= MinFps
    ensures FpsOk(f) ==> FpsOk(r)
    ensures f - FpsStep >= MinFps ==> r == f - FpsStep
  {
    if f - FpsStep > MinFps then f - FpsStep else MinFps
  }

  /** `min(fps + FPS_STEP, MAX_FPS)`. */
  function HigherFps(f: int): (r: int)
    ensures r <= MaxFps
    ensures FpsOk(f) ==> FpsOk(r)
    ensures f + FpsStep <= MaxFps ==> r == f + FpsStep
  {
    if f + FpsStep < MaxFps then f + FpsStep else MaxFps
  }

  /** The button actions of the control bar, named after the `action` strings. */
  datatype Action = Pause | Reset | GridLines | Clear | Save | BrushDown | BrushUp | FpsDown | FpsUp | SwitchDevice

  /** The scalar part of main()'s state. */
  datatype Controls = Controls(paused: bool, generation: nat, brushSize: int, showGrid: bool,
                               saveMode: bool, fps: int, useGpu: bool)

  predicate ControlsOk(c: Controls, gpuAvailable: bool)
  {
    1 <= c.brushSize <= MaxBrushSize && FpsOk(c.fps) && (c.useGpu ==> gpuAvailable)
  }

  /** What a button press does to the scalars. Reset restarts and unpauses; clear
      restarts the count but keeps the pause state; the device switch does nothing
      without an accelerator. */
  function Press(c: Controls, a: Action, gpuAvailable: bool): (r: Controls)
    ensures ControlsOk(c, gpuAvailable) ==> ControlsOk(r, gpuAvailable)
    ensures r.generation == if a == Reset || a == Clear then 0 else c.generation
    ensures r.paused == (if a == Pause then !c.paused else if a == Reset then false else c.paused)
    ensures r.useGpu != c.useGpu <==> a == SwitchDevice && gpuAvailable
    ensures r.showGrid != c.showGrid <==> a == GridLines
    ensures r.saveMode != c.saveMode <==> a == Save
  {
    match a
    case Pause => c.(paused := !c.paused)
    case Reset => c.(generation := 0, paused := false)
    case GridLines => c.(showGrid := !c.showGrid)
    case Clear => c.(generation := 0)
    case Save => c.(saveMode := !c.saveMode)
    case BrushDown => c.(brushSize := SmallerBrush(c.brushSize))
    case BrushUp => c.(brushSize := LargerBrush(c.brushSize))
    case FpsDown => c.(fps := LowerFps(c.fps))
    case FpsUp => c.(fps := HigherFps(c.fps))
    case SwitchDevice => if gpuAvailable then c.(useGpu := !c.useGpu) else c
  }

  /** The toggles are involutions: pressing pause, grid, save or (with an accelerator)
      the device switch twice restores the scalars. */
  lemma TogglesTwiceRestore(c: Controls, a: Action, gpuAvailable: bool)
    requires a == Pause || a == GridLines || a == Save || a == SwitchDevice
    ensures Press(Press(c, a, gpuAvailable), a, gpuAvailable) == c
  {
  }

  /** Below the cap, brush-up is undone by brush-down; above the floor, brush-down is
      undone by brush-up. */
  lemma BrushStepsUndo(c: Controls, gpuAvailable: bool)
    requires ControlsOk(c, gpuAvailable)
    ensures c.brushSize < MaxBrushSize ==> Press(Press(c, BrushUp, gpuAvailable), BrushDown, gpuAvailable) == c
    ensures c.brushSize > 1 ==> Press(Press(c, BrushDown, gpuAvailable), BrushUp, gpuAvailable) == c
  {
  }

  /** The same for the frame rate, whose reachable values are the multiples of the step. */
  lemma FpsStepsUndo(c: Controls, gpuAvailable: bool)
    requires ControlsOk(c, gpuAvailable)
    ensures c.fps < MaxFps ==> Press(Press(c, FpsUp, gpuAvailable), FpsDown, gpuAvailable) == c
    ensures c.fps > MinFps ==> Press(Press(c, FpsDown, gpuAvailable), FpsUp, gpuAvailable) == c
  {
  }

  /** At a bound the clamp holds the value: the buttons saturate. */
  lemma ClampsSaturate(c: Controls, gpuAvailable: bool)
    ensures c.brushSize == 1 ==> Press(c, BrushDown, gpuAvailable) == c
    ensures c.brushSize == MaxBrushSize ==> Press(c, BrushUp, gpuAvailable) == c
    ensures c.fps == MinFps ==> Press(c, FpsDown, gpuAvailable) == c
    ensures c.fps == MaxFps ==> Press(c, FpsUp, gpuAvailable) == c
  {
  }

  /** The two launch parameters set by init_cuda. */
  datatype Geometry = Geometry(blocks: (nat, nat), threads: (nat, nat))

  /** init_cuda's launch: 32 x 32 thread blocks, and enough of them to cover the grid. */
  function GridGeometry(): (g: Geometry)
    ensures g.blocks.0 * g.threads.0 >= GridHeight && g.blocks.1 * g.threads.1 >= GridWidth
    ensures (g.blocks.0 - 1) * g.threads.0 < GridHeight && (g.blocks.1 - 1) * g.threads.1 < GridWidth
  {
    Geometry((BlocksPerGrid(GridHeight, ThreadsPerBlock), BlocksPerGrid(GridWidth, ThreadsPerBlock)),
             (ThreadsPerBlock, ThreadsPerBlock))
  }

  /** create_initial_grid at the configured size: a fresh grid generated from the
      draws (so 0/1, with at most `num_alive` live cells). */
  method NewGrid(d: Draws) returns (g: array2<Byte>)
    requires Fits(d, GridHeight, GridWidth)
    ensures fresh(g) && g.Length0 == GridHeight && g.Length1 == GridWidth
    ensures Binary(Cells(g)) && Sum(Cells(g)) <= d.numAlive
    ensures Generated(Cells(g), d, GridHeight, GridWidth)
  {
    ghost var tries;
    g, tries := CreateInitialGrid(GridHeight, GridWidth, d);
  }

  /** `cuda.to_device(grid)`: a new device array holding a copy of the host grid. */
  method ToDevice(g: array2<Byte>) returns (d: array2<Byte>)
    ensures fresh(d) && d.Length0 == g.Length0 && d.Length1 == g.Length1
    ensures Cells(d) == Cells(g)
  {
    d := new Byte[g.Length0, g.Length1]((i, j) requires 0 <= i < g.Length0 && 0 <= j < g.Length1 reads g => g[i, j]);
    CellsAre(d, Cells(g));
  }

  /** `src.copy_to_host(dst)`: overwrite a host array with a device array's contents. */
  method CopyToHost(src: array2<Byte>, dst: array2<Byte>)
    requires src != dst && src.Length0 == dst.Length0 && src.Length1 == dst.Length1
    modifies dst
    ensures Cells(dst) == Cells(src)
  {
    forall i, j | 0 <= i < dst.Length0 && 0 <= j < dst.Length1 {
      dst[i, j] := src[i, j];
    }
    CellsAre(dst, Cells(src));
  }

  /** The two paths of an unpaused frame compute the same next generation from the
      same grid: update_grid_cpu's result, and the buffer a covering launch of
      update_grid_gpu writes on an uploaded copy. */
  method BackendsAgree(grid: array2<Byte>) returns (cpu: array2<Byte>, gpu: array2<Byte>)
    ensures Cells(cpu) == Cells(gpu) == Step(Cells(grid))
  {
    cpu := UpdateGridCpu(grid);
    var device := ToDevice(grid);
    gpu := new Byte[grid.Length0, grid.Length1];
    var blocks := (BlocksPerGrid(grid.Length0, ThreadsPerBlock), BlocksPerGrid(grid.Length1, ThreadsPerBlock));
    LaunchUpdateGridGpu(device, gpu, blocks, (ThreadsPerBlock, ThreadsPerBlock));
  }

  class Session {
    /** GPU_AVAILABLE, fixed at start-up. */
    const gpuAvailable: bool
    var grid: array2<Byte>
    var paused: bool
    var generation: nat
    var brushSize: int
    var showGrid: bool
    var saveMode: bool
    var fps: int
    /** USE_GPU. */
    var useGpu: bool
    var dGrid: array2?<Byte>
    var dNewGrid: array2?<Byte>
    /** `blocks_per_grid` and `threads_per_block`, or None. */
    var launch: Option<Geometry>
    /** Whether the device is one generation ahead of the host copy. */
    ghost var lagging: bool

    function Ctl(): Controls
      reads this
    {
      Controls(paused, generation, brushSize, showGrid, saveMode, fps, useGpu)
    }

    /** The host side of main()'s state: a 0/1 grid of the configured size, and
        controls in range. */
    ghost predicate HostOk()
      reads this, grid
    {
      grid.Length0 == GridHeight && grid.Length1 == GridWidth && Binary(Cells(grid)) &&
      ControlsOk(Ctl(), gpuAvailable)
    }

    /** What init_cuda allocates exists exactly while the accelerator is in use: an
        output buffer of the grid's size, apart from the host grid, and a launch that
        covers the grid. */
    predicate Allocated()
      reads this
    {
      (dGrid != null <==> useGpu) && (dNewGrid != null <==> useGpu) && (launch.Some? <==> useGpu) &&
      (useGpu ==>
        dNewGrid != grid && dNewGrid.Length0 == GridHeight && dNewGrid.Length1 == GridWidth &&
        launch.value == GridGeometry())
    }

    /** The device grid is a third array of the grid's size holding either the host
        grid or the generation after it. */
    ghost predicate Mirrored()
      reads this, grid, dGrid
    {
      useGpu && dGrid != null ==>
        dGrid != dNewGrid && dGrid != grid &&
        dGrid.Length0 == GridHeight && dGrid.Length1 == GridWidth &&
        Cells(dGrid) == if lagging then Step(Cells(grid)) else Cells(grid)
    }

    ghost predicate Valid()
      reads this, grid, dGrid, dNewGrid
    {
      HostOk() && Allocated() && Mirrored()
    }

    /** main()'s start-up: a generated grid, the default controls, the accelerator if
        there is one, and init_cuda. */
    constructor(gpuAvailable: bool, d: Draws)
      requires Fits(d, GridHeight, GridWidth)
      ensures Valid() && fresh(grid)
      ensures Ctl() == Controls(false, 0, InitialBrushSize, true, false, DefaultFps, gpuAvailable)
      ensures this.gpuAvailable == gpuAvailable
      ensures Generated(Cells(grid), d, GridHeight, GridWidth) && Sum(Cells(grid)) <= d.numAlive
      ensures useGpu ==> fresh(dGrid) && fresh(dNewGrid) && Cells(dGrid) == Cells(grid) && !lagging
    {
      this.gpuAvailable := gpuAvailable;
      var g := NewGrid(d);
      grid := g;
      paused := false;
      generation := 0;
      brushSize := InitialBrushSize;
      showGrid := true;
      saveMode := false;
      fps := DefaultFps;
      useGpu := gpuAvailable;
      new;
      InitCuda();
    }

    /** init_cuda: with the accelerator selected, compute the launch, upload the host
        grid and allocate an (uninitialised) output buffer; otherwise drop all four. */
    method InitCuda()
      requires grid.Length0 == GridHeight && grid.Length1 == GridWidth && Binary(Cells(grid))
      requires ControlsOk(Ctl(), gpuAvailable)
      modifies this
      ensures Valid() && grid == old(grid) && Ctl() == old(Ctl())
      ensures useGpu ==> fresh(dGrid) && fresh(dNewGrid) && Cells(dGrid) == Cells(grid) && !lagging
    {
      if gpuAvailable && useGpu {
        launch := Some(GridGeometry());
        dGrid := ToDevice(grid);
        dNewGrid := new Byte[GridHeight, GridWidth];
        lagging := false;
      } else {
        dGrid, dNewGrid, launch := null, null, None;
      }
    }

    /** The button dispatch: the scalars change as Press says; reset installs a newly
        generated grid and clear an empty one (each re-uploaded when the accelerator is
        in use); the device switch re-runs init_cuda. */
    method HandleButton(a: Action, d: Draws)
      requires Valid()
      requires a == Reset ==> Fits(d, GridHeight, GridWidth)
      modifies this
      ensures Valid()
      ensures Ctl() == Press(old(Ctl()), a, gpuAvailable)
      ensures a == Clear ==> Cells(grid) == Zeros(GridHeight, GridWidth)
      ensures a == Reset ==> Generated(Cells(grid), d, GridHeight, GridWidth) && Sum(Cells(grid)) <= d.numAlive
      ensures a != Clear && a != Reset ==> grid == old(grid)
      ensures (a == Clear || a == Reset || a == SwitchDevice) && useGpu ==> Cells(dGrid) == Cells(grid) && !lagging
      ensures a == Clear || a == Reset ==> dNewGrid == old(dNewGrid)
      ensures a != Clear && a != Reset && a != SwitchDevice ==>
        dGrid == old(dGrid) && dNewGrid == old(dNewGrid) && lagging == old(lagging)
    {
      if a == Reset {
        ResetGrid(d);
      } else if a == Clear {
        ClearGrid();
      } else if a == SwitchDevice {
        SwitchDeviceButton();
      } else {
        ToggleOrStep(a);
      }
    }

    /** The buttons that only change a scalar: the three toggles and the four clamped
        steps. */
    method ToggleOrStep(a: Action)
      requires Valid() && a != Reset && a != Clear && a != SwitchDevice
      modifies this
      ensures Valid() && Ctl() == Press(old(Ctl()), a, gpuAvailable)
      ensures grid == old(grid) && dGrid == old(dGrid) && dNewGrid == old(dNewGrid) && lagging == old(lagging)
    {
      match a
      case Pause =>
        paused := !paused;
      case GridLines =>
        showGrid := !showGrid;
      case Save =>
        saveMode := !saveMode;
      case BrushDown =>
        brushSize := SmallerBrush(brushSize);
      case BrushUp =>
        brushSize := LargerBrush(brushSize);
      case FpsDown =>
        fps := LowerFps(fps);
      case FpsUp =>
        fps := HigherFps(fps);
    }

    /** `if GPU_AVAILABLE and USE_GPU: d_grid = cuda.to_device(grid)`: after the host
        grid was replaced or painted, the device grid becomes a fresh copy of it. */
    method Upload()
      requires HostOk() && Allocated()
      modifies this
      ensures Valid() && grid == old(grid) && Ctl() == old(Ctl()) && dNewGrid == old(dNewGrid)
      ensures useGpu ==> Cells(dGrid) == Cells(grid) && !lagging && fresh(dGrid)
      ensures !useGpu ==> dGrid == old(dGrid)
    {
      if gpuAvailable && useGpu {
        dGrid := ToDevice(grid);
        lagging := false;
      }
    }

    /** The "reset" button: a newly generated grid, generation 0, unpaused, and the
        grid re-uploaded when the accelerator is in use. */
    method ResetGrid(d: Draws)
      requires Valid() && Fits(d, GridHeight, GridWidth)
      modifies this
      ensures Valid() && fresh(grid)
      ensures Ctl() == old(Ctl()).(generation := 0, paused := false)
      ensures Generated(Cells(grid), d, GridHeight, GridWidth) && Sum(Cells(grid)) <= d.numAlive
      ensures dNewGrid == old(dNewGrid)
      ensures useGpu ==> Cells(dGrid) == Cells(grid) && !lagging
    {
      var g := NewGrid(d);
      Install(g);
    }

    /** Puts a new host grid in place, at generation 0 and unpaused, and uploads it. */
    method Install(g: array2<Byte>)
      requires Valid() && g != dGrid && g != dNewGrid
      requires g.Length0 == GridHeight && g.Length1 == GridWidth && Binary(Cells(g))
      modifies this
      ensures Valid() && grid == g
      ensures Ctl() == old(Ctl()).(generation := 0, paused := false)
      ensures dNewGrid == old(dNewGrid)
      ensures useGpu ==> Cells(dGrid) == Cells(grid) && !lagging
    {
      grid, generation, paused := g, 0, false;
      Upload();
    }

    /** The "clear" button: an all-dead grid and generation 0 (the pause state stays),
        re-uploaded when the accelerator is in use. */
    method ClearGrid()
      requires Valid()
      modifies this
      ensures Valid() && fresh(grid)
      ensures Ctl() == old(Ctl()).(generation := 0)
      ensures Cells(grid) == Zeros(GridHeight, GridWidth)
      ensures dNewGrid == old(dNewGrid)
      ensures useGpu ==> Cells(dGrid) == Cells(grid) && !lagging
    {
      grid := new Byte[GridHeight, GridWidth]((_, _) => 0);
      CellsAre(grid, Zeros(GridHeight, GridWidth));
      generation := 0;
      Upload();
    }

    /** The "switch_device" button: with an accelerator, flip USE_GPU and re-run
        init_cuda; without one, nothing. */
    method SwitchDeviceButton()
      requires Valid()
      modifies this
      ensures Valid() && grid == old(grid)
      ensures Ctl() == if gpuAvailable then old(Ctl()).(useGpu := !old(useGpu)) else old(Ctl())
      ensures !gpuAvailable ==> dGrid == old(dGrid) && dNewGrid == old(dNewGrid)
      ensures useGpu ==> Cells(dGrid) == Cells(grid) && !lagging
    {
      if gpuAvailable {
        useGpu := !useGpu;
        InitCuda();
      }
    }

    /** A press or a drag with the left button at window pixel (px, py): above the
        control bar, stamp the brush on the host grid at row py // 2, column px // 2
        and, with the accelerator in use, upload the result. */
    method Paint(px: nat, py: nat)
      requires Valid()
      modifies this, grid
      ensures Valid() && grid == old(grid) && Ctl() == old(Ctl())
      ensures py < GridHeight * CellSize ==>
        Cells(grid) == Stamped(old(Cells(grid)), py / CellSize, px / CellSize, brushSize, saveMode)
      ensures py >= GridHeight * CellSize ==> Cells(grid) == old(Cells(grid)) && dGrid == old(dGrid)
      ensures py < GridHeight * CellSize && useGpu ==> Cells(dGrid) == Cells(grid) && !lagging
    {
      if py < GridHeight * CellSize {
        var gridX, gridY := px / CellSize, py / CellSize;
        StampKeepsBinary(Cells(grid), gridY, gridX, brushSize, saveMode);
        Stamp(grid, gridY, gridX, brushSize, saveMode);
        Upload();
      }
    }

    /** The update part of one frame. Unpaused, the accelerator path launches the
        kernel into `dNewGrid`, copies the PRE-step `dGrid` to the host and swaps the
        buffers, so the host shows the generation before the device's; the CPU path
        replaces the host grid with the next generation. Either way the count goes up. */
    method Tick()
      requires Valid()
      modifies this, grid, dNewGrid
      ensures Valid()
      ensures old(paused) ==> Ctl() == old(Ctl()) && grid == old(grid) && Cells(grid) == old(Cells(grid))
      ensures old(paused) ==> dGrid == old(dGrid) && dNewGrid == old(dNewGrid) && lagging == old(lagging)
      ensures old(paused) && useGpu ==> Cells(dGrid) == old(Cells(dGrid))
      ensures !old(paused) ==> Ctl() == old(Ctl()).(generation := old(generation) + 1)
      ensures !old(paused) && !useGpu ==> Cells(grid) == Step(old(Cells(grid)))
      ensures !old(paused) && useGpu ==>
        Cells(grid) == old(Cells(dGrid)) && Cells(dGrid) == Step(old(Cells(dGrid))) &&
        dGrid == old(dNewGrid) && dNewGrid == old(dGrid) && lagging
    {
      if !paused {
        if gpuAvailable && useGpu && dGrid != null {
          StepDevice();
        } else {
          StepHost();
        }
      }
    }

    /** The accelerator path of an unpaused frame. */
    method StepDevice()
      requires Valid() && useGpu && dGrid != null
      modifies this, grid, dNewGrid
      ensures Valid() && grid == old(grid) && Ctl() == old(Ctl()).(generation := old(generation) + 1)
      ensures Cells(grid) == old(Cells(dGrid)) && Cells(dGrid) == Step(old(Cells(dGrid)))
      ensures dGrid == old(dNewGrid) && dNewGrid == old(dGrid) && lagging
    {
      LaunchUpdateGridGpu(dGrid, dNewGrid, launch.value.blocks, launch.value.threads);
      CopyToHost(dGrid, grid);
      dGrid, dNewGrid := dNewGrid, dGrid;
      lagging := true;
      generation := generation + 1;
    }

    /** The CPU path of an unpaused frame. */
    method StepHost()
      requires Valid() && !useGpu
      modifies this
      ensures Valid() && Ctl() == old(Ctl()).(generation := old(generation) + 1)
      ensures Cells(grid) == Step(old(Cells(grid)))
    {
      grid := UpdateGridCpu(grid);
      generation := generation + 1;
    }
  }

  datatype Option<T> = None | Some(value: T)
}
