# Conway's Game of Life engine, modelled in Dafny

This project models the automaton engine of a small Python Game of Life
program. The engine has two operations.

- `update_grid` advances one generation. Each cell's live neighbours are
  counted over its eight Moore neighbours on a torus: the grid is convolved
  with a 3x3 kernel of ones whose centre is 0, using the `wrap` boundary and
  the `same` output size. A dead cell with exactly three live neighbours is
  born. A live cell with two or three survives. Every other cell is dead in
  the result.
- `initialize_grid` with `randomize=False` starts from an all-dead N x N
  grid. It copies a fixed 11 x 37 seed pattern (a Gosper glider gun) cell by
  cell to the floor-centred offset `((N-11)//2, (N-37)//2)`.

Modules, one per component:

- `Grids` (`grids.dfy`): grids as `seq<seq<int>>`, shape and 0/1 predicates,
  the all-dead grid, and toroidal index arithmetic (`Wrap`, with lemmas for
  stepping around the ring).
- `Neighborhood` (`neighbors.dfy`): the wrapped convolution tap by tap
  (`Convolve`, `ConvolveAt`), with the kernel flip and centring it performs
  (`ConvolveUnitKernel`). It also holds the explicit eight-term neighbour
  sum (`Neighbors`), a reference count of live neighbours by offset
  (`LiveCount`), and a double-loop method over the kernel (`ConvolveCell`,
  `CountNeighbors`).
- `Stepper` (`stepper.dfy`): the per-cell rule as the source's masks compute
  it (`NextCell`), the whole-grid step (`Step`), and an imperative row/column
  loop (`UpdateGrid`) proved equal to `Step`.
- `StepFacts` (`step_facts.dfy`): properties that relate several cells or
  grids. The update is local and simultaneous. It commutes with toroidal
  translation. The empty grid is a fixed point. A lone cell dies. Birth
  happens across the wrapped corner. The block is a still life and the
  blinker has period 2.
- `Initializer` (`initializer.dfy`): the seed pattern, the centred offsets
  (`CentredStart`), the cell-by-cell copy (`Place`), the seeded
  initialisation for any pattern (`SeedGrid`), and for the fixed one
  (`InitializeGrid`).

`Step` is modelled for any non-empty H x W matrix of integers, not only
square 0/1 grids. A cell holding anything other than 0 or 1 is in neither
mask and comes out dead. Cells and sums are unbounded integers. So the model
agrees with the array code whenever every eight-neighbour sum fits the
array's integer type, and in particular on every 0/1 grid, where the sum is
the number of live neighbours and at most 8.

The code does not check that the pattern fits the grid. The model requires
`N >= 37` and has no error path.

## Model

| member | source | states |
|---|---|---|
| `Grids.WrapPred` | main.py:38 | with the `wrap` boundary the row (column) before index 0 is n-1, and otherwise one step back is one less |
| `Grids.WrapSucc` | main.py:38 | with the `wrap` boundary the row (column) after index n-1 is 0, and otherwise one step forward is one more |
| `Grids.Zeros` | main.py:7 | the all-dead grid has exactly the requested h x w shape and every cell is 0 |
| `Grids.Wrap` | main.py:38 | the `wrap` boundary maps every row (column) index, however far outside the grid, to one in 0..n-1 |
| `Neighborhood.ConvolveAt` | main.py:38 | entry (i, j) of the wrapped `same`-mode convolution as the sum of its nine taps; for a 0/1 grid and a 0/1 kernel it lies in 0..9 |
| `Neighborhood.ConvolveUnitKernel` | main.py:38 | the convolution flips and centres the kernel: the kernel entry (a, b) weighs the input cell (i + 1 - a, j + 1 - b), both coordinates wrapped |
| `Neighborhood.Neighbors` | main.py:34-38 | the explicit toroidal neighbour sum of (i, j); on a 0/1 grid it lies in 0..8 |
| `Neighborhood.ConvolveMooreIsNeighbors` | main.py:34-38 | the wrapped `same`-mode convolution with the zero-centred 3x3 kernel of ones equals the explicit eight-neighbour sum at every cell |
| `Neighborhood.NeighborsCountsLiveCells` | main.py:34-38 | on a 0/1 grid the neighbour sum equals the number of live cells at the eight offsets (r±1 or r, c±1 or c, centre excluded, mod the grid size), hence 0..8 |
| `Neighborhood.ConvolveCell` | main.py:38 | a double loop over the kernel rows and columns, accumulating weighted wrapped input cells, computes entry (i, j) of the wrapped `same`-mode convolution for any 3x3 kernel |
| `Neighborhood.CountNeighbors` | main.py:34-38 | convolving with the Moore kernel by that double loop returns exactly the explicit neighbour sum |
| `Stepper.NextCell` | main.py:40-44 | a cell's new value is 0 or 1; a dead cell is born iff it has exactly 3 neighbours; a live cell survives iff it has 2 or 3; any other value becomes 0 |
| `Stepper.Step` | main.py:33-44 | the new grid has the input's shape, holds only 0s and 1s, and every cell obeys the birth, survival and death rule against the old grid's neighbour count |
| `Stepper.UpdateGrid` | main.py:33-44 | building a fresh grid row by row, reading only the old grid, yields exactly `Step` |
| `StepFacts.StepIsLocal` | main.py:38-44 | two grids that agree on a cell's wrapped 3x3 window give that cell the same new value, so the update is simultaneous and reads only the previous generation |
| `StepFacts.StepCommutesWithShift` | main.py:38-44 | with the wrap boundary, stepping a toroidally translated grid equals translating the stepped grid |
| `StepFacts.EmptyIsFixed` | main.py:38-42 | the all-dead grid of any shape maps to itself |
| `StepFacts.SingleCellDies` | main.py:38-42 | an n x n grid with a single live cell becomes all dead, for every n >= 1 |
| `StepFacts.BirthAcrossCorner` | main.py:34-40 | cell (0, 0) counts (n-1, n-1), (n-1, 0) and (0, n-1) as neighbours, so for n >= 3, with exactly those alive, it has 3 and is born |
| `StepFacts.BlockIsStill` | main.py:38-44 | a 2x2 block anywhere on an n x n torus with n >= 3 is a fixed point |
| `StepFacts.BlinkerHasPeriodTwo` | main.py:38-44 | a three-cell blinker anywhere on an n x n torus with n >= 4 changes after one step and is restored after two |
| `Initializer.PatternIsWellFormed` | main.py:11-24 | the seed pattern is an 11 x 37 matrix of 0s and 1s |
| `Initializer.CentredStart` | main.py:24-26 | the floor-centred start `(N - size) // 2` keeps a pattern of that extent inside the grid, with the margin after it equal to the margin before it or one more |
| `Initializer.Place` | main.py:28-30 | copying a pattern cell by cell at an offset where it fits keeps the grid's shape, puts every pattern cell at (top + r, left + c), and leaves all other cells unchanged |
| `Initializer.PlacedOnDead` | main.py:28-30 | a 0/1 pattern copied onto an all-dead grid gives a 0/1 grid whose live cells are exactly the live pattern cells moved by the offset |
| `Initializer.SeedGrid` | main.py:24-30 | for any 0/1 pattern no larger than N x N, the result is an N x N 0/1 grid with pattern cell (r, c) at the floor-centred offset plus (r, c), every other cell dead, and a cell alive exactly when it lies over a live pattern cell |
| `Initializer.InitializeGrid` | main.py:6-31 | for N >= 37 the seeded grid is N x N and has pattern cell (r, c) at ((N-11)/2 + r, (N-37)/2 + c). Every cell outside that footprint is dead. A cell is alive exactly when it lies in the footprint over a live pattern cell |

## Left out

- The random branch of `initialize_grid` (main.py:8-9) draws every cell from a random source. Nothing about it is modelled.
- `animate_game_of_life` (main.py:46-66) is left out. It holds the figure and colour-map setup and the animation callback that rebinds the grid, which is presentation only.
- The module-level configuration constants and the top-level call (main.py:68-73) are left out. They are the driver, not the engine.
- SciPy's `convolve2d` is a foreign library. Only its effect is modelled: the 3x3 `same`-mode convolution with every index taken modulo the grid size. How SciPy's `wrap` boundary handles a kernel larger than a grid of size 1 or 2 is not part of this model; the model applies the modulo rule consistently at every size.
- NumPy's boolean masks and `astype(int)` are modelled directly as a 0/1 integer result.
- `Initializer.InitializeGrid`: requires N >= 37. For smaller N the source computes negative offsets and either raises IndexError or lets NumPy's negative indexing overwrite cells. That behaviour is not modelled.
- `Stepper.Step`: requires at least one row and one column. The engine only ever steps grids of size N >= 1, and an empty array is not modelled.
- `Stepper.Step`: does not model fixed-width integer overflow. NumPy arrays hold fixed-width integers, and `convolve2d` sums the neighbours in that type (main.py:38), so a grid with very large cell values can wrap around and give a different count. The model's sums are unbounded. Grids of 0s and 1s, the only ones the engine produces, are unaffected.
- No error paths are modelled for an invalid grid size or a pattern that does not fit. The code raises no such error itself.
