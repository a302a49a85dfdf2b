# Lattice Boltzmann kernels and matrix-multiply host helpers, in Dafny

This project models two pieces of a GPU code base and proves properties of
the models.

**The D2Q9 lattice Boltzmann solver** (`LBMkernels.cpp`). One time step is
three kernels run in turn over the Lx·Ly cells of a grid. Each cell has two
8-bit masks, `binary1` and `binary2`. A cell with both masks zero is
skipped. In an active cell, bit k of the pair decides the role of table
direction k:

- **stream in**: take the previous value, in the same direction, of the
  neighbour one step along direction k (`IDX(i, k)`, the cell at
  i + (ex[k], ey[k])), plus a forcing term;
- **pass through**: keep the cell's own previous value;
- **boundary A** or **boundary B**: apply the operator configured for that
  category.

The kernels:

- **First** computes the cell's eight forcing terms, then its nine local
  values (the rest direction, the streaming loop, then the two boundary
  loops).
- **Second** (with `calculateMacroscopic`) turns the local values into the
  macroscopic triple (scalar, ux, uy) and copies the scalar into `h`.
- **Third** (with `calculateFeqSWE` / `calculateFeqHE`) relaxes the local
  values toward the equilibrium of that triple (BGK, rate 1/tau). It
  scatters the result into the next population buffer, which is stored
  direction-major (`IDXcm`).

**The command-line helpers and `TransposeMatrix`** of the matrix-multiply
host program (`matrixMul.cpp`).

## Layout

- `int_facts.dfy` (`IntFacts`): quotient/remainder uniqueness and
  row-major addressing.
- `lattice.dfy` (`Lattice`): the direction tables, `IDX`, `IDXcm`,
  opposite directions.
- `equilibrium.dfy` (`RealFacts`, `Equilibrium`): the populations of one
  cell, the moments, the shallow-water and heat equilibria, and BGK
  relaxation with its conservation laws.
- `options.dfy` (`Options`): an optional value.
- `lbm_config.dfy` (`LbmConfig`): the configuration. The compile-time
  switches PDE, BC1 and BC2 become datatype values. Operators whose bodies
  are in headers outside this model are carried as functions.
- `streaming.dfy` (`Streaming`): the mask rules, the forcing terms, and the
  three per-cell passes of First as functions (`CellLocal`).
- `sweeps.dfy` (`Sweeps`): what First leaves in the whole `forcing` and
  `localf` buffers.
- `collision.dfy` (`Collision`): what Second and Third leave in
  `localMacroscopic`, `h` and `f2`.
- `kernels.dfy` (`Kernels`): First, Second and Third as sequential methods
  over arrays, proved against the sweep functions.
- `timestep.dfy` (`Timestep`): an active cell followed through a whole
  step.
- `cmdline.dfy` (`CmdLine`): `stringRemoveDelimiter`, `checkCmdLineFlag`,
  `getCmdLineArgumentInt`.
- `transpose.dfy` (`Transpose`): `TransposeMatrix`.

## Modelling choices

**Sequential kernels.** Each kernel is a sequential loop over the cells. A
cell writes only its own slots of the buffers the kernel writes: slots
`8i..8i+7` of `forcing`, `9i..9i+8` of `localf`, `3i..3i+2` of
`localMacroscopic`, `h[i]`, and `f2[IDXcm(i, j)]`. So this order gives what
the parallel launch gives.

**Read-only buffers.** The buffers a kernel only reads are passed to its
method as sequences (values). The buffers it writes are arrays.

**Mask tests.** The source's bit tests are kept word for word
(`StreamInBits` etc., on `bv8`). The methods branch on `RuleOf`, which
reads the same bits one at a time. `RuleOfBits` proves that the two agree
in every case.

**Division.**

- `1/(6e²)` (forcing) and `1/(9e²)` (shallow-water equilibrium) are each
  characterised as the number whose product with 6e² or 9e² is 1. Lemmas
  prove that this number is the quotient.
- Where the source divides by the scalar field, by tau, or (in the
  shallow-water model) by e, the model requires a non-zero value. The
  source has no guard there.

**Numbers.** Double precision is modelled by `real`, and C `int` by
unbounded `int`.

**Strings.** A C string is its bytes before the terminating NUL
(`CStr`), each byte written as the `char` of the same code (below 256). A
non-ASCII character is then several chars, as it is several bytes to
`strlen` (`Utf8NameStripped`). The library calls `strlen`, `strchr`, `strncasecmp` and `atoi`
are functions with their C-locale meaning.

## Model

| member | source | states |
|---|---|---|
| Lattice.Opposite | LBM_Framework-SoA-ROCm/src/cu/LBMkernels.cpp:50-51 | every direction of the ex/ey tables has another direction whose offsets are the negated ones |
| Lattice.IdxOppositeReturns | LBM_Framework-SoA-ROCm/src/cu/LBMkernels.cpp:180-182 | IDX to a neighbour and back along the opposite direction returns to the cell |
| Lattice.IdxNeighboursDistinct | LBM_Framework-SoA-ROCm/src/cu/LBMkernels.cpp:180-182 | on a grid at least 3 wide the eight IDX neighbours are pairwise distinct, differ from the cell and lie within Lx+1 of it in index (IDX does not stop at the row ends: see IdxCrossesRows) |
| Lattice.IdxCrossesRows | LBM_Framework-SoA-ROCm/src/cu/LBMkernels.cpp:180-182 | at the left and right edges IDX steps into the adjacent row: left of the first cell of row r is the last cell of row r−1, right of the last cell of row r is the first cell of row r+1 |
| Lattice.IdxCmDecompose | LBM_Framework-SoA-ROCm/src/cu/LBMkernels.cpp:184-186 | an IDXcm slot divides back into its direction (quotient by Lx·Ly) and its cell (remainder) |
| Lattice.IdxCmInjective | LBM_Framework-SoA-ROCm/src/cu/LBMkernels.cpp:184-186 | IDXcm(i1,j1) = IDXcm(i2,j2) iff i1 = i2 and j1 = j2, for cells below Lx·Ly: no two (cell, direction) pairs share a slot |
| Lattice.IdxCmInRange | LBM_Framework-SoA-ROCm/src/cu/LBMkernels.cpp:184-186 | the nine slots of a cell lie below 9·Lx·Ly, and direction 0 is the cell itself |
| Equilibrium.SumOfDist | LBM_Framework-SoA-ROCm/src/cu/LBMkernels.cpp:13 | the source's grouped sum of the nine populations equals their plain sum |
| Equilibrium.TableMomentsOfDist | LBM_Framework-SoA-ROCm/src/cu/LBMkernels.cpp:14-15 | the unrolled velocity numerators equal the first moments along the ex and ey tables |
| Equilibrium.Moments | LBM_Framework-SoA-ROCm/src/cu/LBMkernels.cpp:12-16 | calculateMacroscopic: the scalar is the sum of the populations and scalar·u = e·(first moment along the table), given a non-zero scalar |
| Equilibrium.SweFactor | LBM_Framework-SoA-ROCm/src/cu/LBMkernels.cpp:19 | the factor's product with 9e² is 1 |
| Equilibrium.SweFactorIsReciprocal | LBM_Framework-SoA-ROCm/src/cu/LBMkernels.cpp:19 | the factor is 1/(9e²) |
| Equilibrium.SweEquilibriumMass | LBM_Framework-SoA-ROCm/src/cu/LBMkernels.cpp:18-38 | the nine populations of calculateFeqSWE add up to the depth h |
| Equilibrium.SweEquilibriumFlux | LBM_Framework-SoA-ROCm/src/cu/LBMkernels.cpp:18-38 | the first moments of the calculateFeqSWE populations are 3·h·(1/(9e²))·3e·ux and 3·h·(1/(9e²))·3e·uy |
| Equilibrium.SweEquilibriumMomentum | LBM_Framework-SoA-ROCm/src/cu/LBMkernels.cpp:18-38 | e times the first moments of the SWE equilibrium are h·ux and h·uy: the equilibrium carries the momentum it was built from |
| Equilibrium.FeqSweKeepsMoments | LBM_Framework-SoA-ROCm/src/cu/LBMkernels.cpp:12-38 | the SWE equilibrium of a cell's own moments has the cell's scalar and both first moments |
| Equilibrium.FeqSweKeepsFlux | LBM_Framework-SoA-ROCm/src/cu/LBMkernels.cpp:12-38 | the SWE equilibrium of a cell's own moments has the cell's first moments |
| Equilibrium.SweEquilibriumAtRest | LBM_Framework-SoA-ROCm/src/cu/LBMkernels.cpp:18-38 | at zero velocity the four axis populations are equal, the four diagonal ones are a quarter of them, and all nine add up to h |
| Equilibrium.FeqSweMirrorX | LBM_Framework-SoA-ROCm/src/cu/LBMkernels.cpp:18-38 | negating ux mirrors the SWE populations across the vertical axis |
| Equilibrium.SweEquilibriumMirrorX | LBM_Framework-SoA-ROCm/src/cu/LBMkernels.cpp:18-38 | negating ux swaps the SWE populations of mirrored directions (1 and 3, 5 and 6, 7 and 8) and keeps the others |
| Equilibrium.NineSteps | LBM_Framework-SoA-ROCm/src/cu/LBMkernels.cpp:170-171 | nine BGK updates keep the sum and both first moments whenever the equilibrium values share them with the inputs |
| Equilibrium.FeqHe | LBM_Framework-SoA-ROCm/src/cu/LBMkernels.cpp:188-201 | calculateFeqHE: each population is the D2Q9 weight times the temperature, and they add up to the temperature |
| Equilibrium.MomentsOfFeqHe | LBM_Framework-SoA-ROCm/src/cu/LBMkernels.cpp:188-201 | the moments of the heat equilibrium are (T, 0, 0) |
| Equilibrium.Collide | LBM_Framework-SoA-ROCm/src/cu/LBMkernels.cpp:171 | the BGK update moves a population by 1/tau of its distance to equilibrium: (l - r)·tau = l - q |
| Equilibrium.CollideBounds | LBM_Framework-SoA-ROCm/src/cu/LBMkernels.cpp:171 | equilibrium is a fixed point, tau = 1 lands on the equilibrium, tau ≥ 1 never overshoots |
| Equilibrium.Relax | LBM_Framework-SoA-ROCm/src/cu/LBMkernels.cpp:170-171 | each of the nine relaxed populations is the BGK update of its direction |
| Equilibrium.RelaxConserves | LBM_Framework-SoA-ROCm/src/cu/LBMkernels.cpp:170-171 | relaxation keeps every moment (scalar, x and y flux) the equilibrium shares with the cell |
| Equilibrium.SweCollisionConserves | LBM_Framework-SoA-ROCm/src/cu/LBMkernels.cpp:142-172 | the shallow-water collision keeps depth and both momentum components |
| Equilibrium.HeCollisionConserves | LBM_Framework-SoA-ROCm/src/cu/LBMkernels.cpp:142-172 | the heat collision keeps the temperature |
| Streaming.RuleOfBits | LBM_Framework-SoA-ROCm/src/cu/LBMkernels.cpp:82-106 | the four bit tests of First hold exactly when RuleOf gives stream-in, pass-through, boundary A, boundary B |
| Streaming.BitIsShift | LBM_Framework-SoA-ROCm/src/cu/LBMkernels.cpp:82 | bit k read one shift at a time equals (b >> k) & 1 |
| Streaming.InactiveMeansPassThrough | LBM_Framework-SoA-ROCm/src/cu/LBMkernels.cpp:49 | a cell is skipped (both masks zero) iff every direction's rule is pass-through |
| Streaming.ForceFactor | LBM_Framework-SoA-ROCm/src/cu/LBMkernels.cpp:53 | the factor's product with 6e² is 1 |
| Streaming.ForceFactorIsReciprocal | LBM_Framework-SoA-ROCm/src/cu/LBMkernels.cpp:53 | the factor is 1/(6e²) |
| Streaming.CellForcingSwe | LBM_Framework-SoA-ROCm/src/cu/LBMkernels.cpp:52-71 | under the shallow-water model the eight forcing terms are the per-direction formula |
| Streaming.SweForceCases | LBM_Framework-SoA-ROCm/src/cu/LBMkernels.cpp:56-71 | the term is 0 unless 0 < neighbour < Lx·Ly (strict at 0), 0 when the bed heights agree, (1/(6e²))·9.8·(h_i + h_n)·(b_n − b_i) on an axis and a quarter of that on a diagonal |
| Streaming.SweForceAntisymmetric | LBM_Framework-SoA-ROCm/src/cu/LBMkernels.cpp:56-71 | for cells other than 0 with a neighbour in 1 .. Lx·Ly−1, the force i feels from neighbour m is minus the force m feels from i along the opposite direction (cell 0 is the exception: SweForceSkipsCellZero) |
| Streaming.SweForceSkipsCellZero | LBM_Framework-SoA-ROCm/src/cu/LBMkernels.cpp:56-59 | the strict guard index > 0 breaks action and reaction at cell 0: cell 1 feels nothing from cell 0, while cell 0 feels the axis force from cell 1, non-zero whenever the beds differ and the depths do not cancel |
| Streaming.SweForceCrossesRows | LBM_Framework-SoA-ROCm/src/cu/LBMkernels.cpp:56-59 | the first cell of row r ≥ 1 is pushed along direction 2 by the last cell of row r−1, which IDX reaches and the guard lets through |
| Streaming.ForceAntisymmetric | LBM_Framework-SoA-ROCm/src/cu/LBMkernels.cpp:56-71 | swapping the two cells negates the axis and the diagonal formula |
| Streaming.Step | LBM_Framework-SoA-ROCm/src/cu/LBMkernels.cpp:81-120 | one iteration of a pass loop over the nine local values, by the rule of its direction; its contract keeps the nine-value shape, and StepFrame and StreamingStep/BoundaryStep state what it writes |
| Streaming.PassUpTo | LBM_Framework-SoA-ROCm/src/cu/LBMkernels.cpp:81-120 | a pass loop run up to a direction; its contract keeps the nine-value shape, and PassUpToFrame/PassUpToWrites state what it writes |
| Streaming.CellLocal | LBM_Framework-SoA-ROCm/src/cu/LBMkernels.cpp:80-120 | the nine local values First computes for an active cell: rest, streaming, then category A followed by category B, or category B nested in the category-A test when BC1 names no operator; its contract keeps the shape, and CellLocalSlots states each value |
| Streaming.StepFrame | LBM_Framework-SoA-ROCm/src/cu/LBMkernels.cpp:81-120 | a loop step leaves every other direction and directions of other rules alone |
| Streaming.PassUpToFrame | LBM_Framework-SoA-ROCm/src/cu/LBMkernels.cpp:81-120 | a pass leaves the rest direction, unreached directions and directions of other rules as they were |
| Streaming.PassUpToWrites | LBM_Framework-SoA-ROCm/src/cu/LBMkernels.cpp:81-120 | a direction of the pass's rule keeps the value written when the loop reached it |
| Streaming.CellLocalSlots | LBM_Framework-SoA-ROCm/src/cu/LBMkernels.cpp:80-120 | after First: rest = f1[i]; stream-in = f1 at the slot of the neighbour i + c_j (`Neighbour`) plus the forcing term; pass-through = the cell's own f1 slot; a boundary direction whose loop runs with OBC gets the own f1 slot; it keeps its stale value when its loop does not run: category A without BC1, category B with BC2 = 0, and category B without BC1 in a cell with no boundary-A direction |
| Streaming.NestedUpTo | LBM_Framework-SoA-ROCm/src/cu/LBMkernels.cpp:88-120 | the category-A loop when BC1 names no operator, whose test takes the category-B loop as its body; its contract keeps the shape, and NestedIsRepeat states what it does |
| Streaming.RepeatB | LBM_Framework-SoA-ROCm/src/cu/LBMkernels.cpp:105-119 | the category-B loop run m times in a row; its contract keeps the shape, and RepeatBSlot states each slot |
| Streaming.NestedIsRepeat | LBM_Framework-SoA-ROCm/src/cu/LBMkernels.cpp:88-120 | without BC1 the category-B loop runs exactly once per boundary-A direction of the cell (CountA times) |
| Streaming.CountAPositive | LBM_Framework-SoA-ROCm/src/cu/LBMkernels.cpp:88-89 | the count of boundary-A directions is positive iff the cell has one |
| Streaming.RepeatBSlot | LBM_Framework-SoA-ROCm/src/cu/LBMkernels.cpp:105-119 | after m ≥ 1 runs of the category-B loop with OBC each boundary-B direction holds the own f1 slot; after 0 runs, and in every other direction, slots keep their value |
| Streaming.StreamedSlot | LBM_Framework-SoA-ROCm/src/cu/LBMkernels.cpp:81-86 | each slot after the streaming loop, by rule |
| Streaming.BoundarySlot | LBM_Framework-SoA-ROCm/src/cu/LBMkernels.cpp:88-120 | each slot after a boundary loop: OBC's value in the category, unchanged elsewhere |
| Streaming.StreamingStep | LBM_Framework-SoA-ROCm/src/cu/LBMkernels.cpp:82-85 | one streaming iteration writes the neighbour's value + forcing for a stream-in direction, the own value for pass-through, and nothing for a boundary direction |
| Streaming.BoundaryStep | LBM_Framework-SoA-ROCm/src/cu/LBMkernels.cpp:88-119 | one boundary iteration writes the operator's value into its direction exactly when the direction is in the loop's category, and nothing otherwise |
| Sweeps.FirstForcing | LBM_Framework-SoA-ROCm/src/cu/LBMkernels.cpp:41-77 | the forcing buffer after First, cell by cell; its contract keeps the length, and FirstForcingSlot states every slot |
| Sweeps.FirstLocal | LBM_Framework-SoA-ROCm/src/cu/LBMkernels.cpp:41-120 | the local buffer after First, cell by cell; its contract keeps the length, and FirstLocalSlot states every slot |
| Sweeps.FirstForcingSlot | LBM_Framework-SoA-ROCm/src/cu/LBMkernels.cpp:41-77 | after First, slot p holds the forcing term p%8 of cell p/8 when that cell is active, and is untouched otherwise |
| Sweeps.FirstLocalSlot | LBM_Framework-SoA-ROCm/src/cu/LBMkernels.cpp:41-120 | after First, slot s of an active cell k is CellLocal of the values the buffer held; slots of inactive cells are untouched |
| Sweeps.FirstLocalBeyondGrid | LBM_Framework-SoA-ROCm/src/cu/LBMkernels.cpp:41-124 | First leaves the local buffer's slots past 9·Lx·Ly as they were |
| Sweeps.FirstLocalBlockUntouched | LBM_Framework-SoA-ROCm/src/cu/LBMkernels.cpp:41-120 | a cell's block is unchanged until First reaches it |
| Collision.SecondMacro | LBM_Framework-SoA-ROCm/src/cu/LBMkernels.cpp:126-140 | the macroscopic buffer after Second; its contract keeps the length, and SecondMacroSlot and SecondMacroBeyondGrid state every slot |
| Collision.SecondDepth | LBM_Framework-SoA-ROCm/src/cu/LBMkernels.cpp:126-140 | h after Second; its contract keeps the length, and SecondDepthSlot and SecondDepthBeyondGrid state every entry |
| Collision.SecondMacroSlot | LBM_Framework-SoA-ROCm/src/cu/LBMkernels.cpp:126-140 | after Second an active cell's triple is the moments of its nine local values; other triples are untouched |
| Collision.SecondMacroBeyondGrid | LBM_Framework-SoA-ROCm/src/cu/LBMkernels.cpp:126-140 | Second leaves the macroscopic slots at 3·Lx·Ly and beyond as they were |
| Collision.SecondDepthBeyondGrid | LBM_Framework-SoA-ROCm/src/cu/LBMkernels.cpp:126-140 | Second leaves the entries of h at Lx·Ly and beyond as they were |
| Collision.SecondDepthSlot | LBM_Framework-SoA-ROCm/src/cu/LBMkernels.cpp:135-136 | after Second an active cell's h is the sum of its local values; other cells' h are untouched |
| Collision.CellEquilibrium | LBM_Framework-SoA-ROCm/src/cu/LBMkernels.cpp:157-168 | the shallow-water and heat equilibria have the triple's scalar as their zeroth moment |
| Collision.ScatterUpTo | LBM_Framework-SoA-ROCm/src/cu/LBMkernels.cpp:170-171 | the collision loop of one cell run up to a direction; its contract keeps the length, and ScatterSlot states every slot |
| Collision.ScatterSlot | LBM_Framework-SoA-ROCm/src/cu/LBMkernels.cpp:170-171 | after the collision loop of cell i, slot IDXcm(k, t) holds r[t] when k = i and t was reached, the old value otherwise |
| Collision.ScatterBeyondGrid | LBM_Framework-SoA-ROCm/src/cu/LBMkernels.cpp:170-171 | the collision loop of one cell writes no slot at 9·Lx·Ly or beyond |
| Collision.ThirdF2 | LBM_Framework-SoA-ROCm/src/cu/LBMkernels.cpp:142-174 | f2 after Third; its contract keeps the length, and ThirdSlot/ThirdColumn and ThirdBeyondGrid state every slot |
| Collision.ThirdSlot | LBM_Framework-SoA-ROCm/src/cu/LBMkernels.cpp:142-174 | after Third, slot IDXcm(k, t) of an active cell holds its relaxed value in direction t; slots of inactive cells are untouched |
| Collision.ThirdBeyondGrid | LBM_Framework-SoA-ROCm/src/cu/LBMkernels.cpp:142-174 | Third leaves the f2 slots at 9·Lx·Ly and beyond as they were |
| Collision.ThirdColumn | LBM_Framework-SoA-ROCm/src/cu/LBMkernels.cpp:142-174 | after Third an active cell's column of f2 is its relaxed cell, an inactive cell's column is unchanged |
| Kernels.SweForcing | LBM_Framework-SoA-ROCm/src/cu/LBMkernels.cpp:53-71 | the two shallow-water loops write exactly the cell's eight terms into forcing[8i..8i+7] |
| Kernels.ForceLoop | LBM_Framework-SoA-ROCm/src/cu/LBMkernels.cpp:56-71 | one forcing loop writes its directions' terms and nothing else |
| Kernels.WriteForces | LBM_Framework-SoA-ROCm/src/cu/LBMkernels.cpp:72-77 | the zeroing loop (or the user hook) writes the eight given terms and nothing else |
| Kernels.ComputeForcing | LBM_Framework-SoA-ROCm/src/cu/LBMkernels.cpp:52-77 | the forcing block of the cell is CellForcing, by physics model |
| Kernels.Obc | LBM_Framework-SoA-ROCm/src/cu/LBMkernels.cpp:176-178 | OBC sets localf[9i+j] to f1[IDXcm(i, j)] and changes nothing else |
| Kernels.StreamingPass | LBM_Framework-SoA-ROCm/src/cu/LBMkernels.cpp:81-86 | the streaming loop leaves the cell's block as the streaming pass function and nothing else changes |
| Kernels.StreamDirection | LBM_Framework-SoA-ROCm/src/cu/LBMkernels.cpp:82-85 | one iteration of the streaming loop advances the block by one pass step |
| Kernels.BoundaryPass | LBM_Framework-SoA-ROCm/src/cu/LBMkernels.cpp:88-120 | a boundary loop leaves the cell's block as the boundary pass function and nothing else changes |
| Kernels.BoundaryDirection | LBM_Framework-SoA-ROCm/src/cu/LBMkernels.cpp:89-119 | one iteration of a boundary loop advances the block by one pass step |
| Kernels.NestedPass | LBM_Framework-SoA-ROCm/src/cu/LBMkernels.cpp:88-120 | without BC1, the category-A loop runs the whole category-B loop for each boundary-A direction: the block becomes NestedUpTo of what it held, and nothing else changes |
| Kernels.FirstCell | LBM_Framework-SoA-ROCm/src/cu/LBMkernels.cpp:49-121 | an active cell's forcing block becomes CellForcing and its local block CellLocal, the category-B loop nested in the category-A test when BC1 names no operator; nothing else changes |
| Kernels.First | LBM_Framework-SoA-ROCm/src/cu/LBMkernels.cpp:41-124 | forcing and localf after the kernel are FirstForcing and FirstLocal of their old contents |
| Kernels.SecondCell | LBM_Framework-SoA-ROCm/src/cu/LBMkernels.cpp:133-137 | an active cell's triple becomes its moments and h[i] its scalar; nothing else changes |
| Kernels.Second | LBM_Framework-SoA-ROCm/src/cu/LBMkernels.cpp:126-140 | localMacroscopic and h after the kernel are SecondMacro and SecondDepth of their old contents |
| Kernels.ThirdCell | LBM_Framework-SoA-ROCm/src/cu/LBMkernels.cpp:151-171 | the collision loop scatters the cell's relaxed values into its nine IDXcm slots and changes nothing else |
| Kernels.Third | LBM_Framework-SoA-ROCm/src/cu/LBMkernels.cpp:142-174 | f2 after the kernel is ThirdF2 of its old contents |
| Timestep.StepF2 | LBM_Framework-SoA-ROCm/src/cu/LBMkernels.cpp:41-174 | the population buffer after First, Second and Third; its contract keeps the length, and StepColumn states every column |
| Timestep.StreamedCell | LBM_Framework-SoA-ROCm/src/cu/LBMkernels.cpp:41-124 | what First leaves for an active cell is CellLocal of what the block held |
| Timestep.StepColumn | LBM_Framework-SoA-ROCm/src/cu/LBMkernels.cpp:41-174 | a whole step sets an active cell's column of f2 to its streamed values relaxed toward the equilibrium of their own moments, and keeps other columns |
| Timestep.StepConservesSwe | LBM_Framework-SoA-ROCm/src/cu/LBMkernels.cpp:41-174 | in the shallow-water model a step keeps each active cell's depth and momentum from streaming to collision |
| Timestep.StepConservesHeat | LBM_Framework-SoA-ROCm/src/cu/LBMkernels.cpp:41-174 | in the heat model a step keeps each active cell's temperature |
| Timestep.StepDepth | LBM_Framework-SoA-ROCm/src/cu/LBMkernels.cpp:126-140 | h after Second is the sum of the cell's streamed values |
| CmdLine.LeadingRun | gpu_matrixmul_rocm/matrixMul.cpp:65-68 | the counted run consists of delimiters and is followed by a non-delimiter or the end |
| CmdLine.StrippedBounds | gpu_matrixmul_rocm/matrixMul.cpp:61-76 | stringRemoveDelimiter returns 0 or a count n of leading delimiters with n < strlen - 1, followed by a non-delimiter |
| CmdLine.StringRemoveDelimiter | gpu_matrixmul_rocm/matrixMul.cpp:61-76 | the counter loop returns the leading run's length, or 0 when the run reaches the last character |
| CmdLine.ShortFlagKeepsDash | gpu_matrixmul_rocm/matrixMul.cpp:70-73 | dashes followed by a single byte are never stripped ("-a" and "--a" give 0) |
| CmdLine.DashesStripped | gpu_matrixmul_rocm/matrixMul.cpp:61-76 | dashes before a name of two or more characters are stripped in full |
| CmdLine.FirstIndex | gpu_matrixmul_rocm/matrixMul.cpp:89-90 | strchr: the position of the first '=', or the length when there is none |
| CmdLine.NoCasePrefix | gpu_matrixmul_rocm/matrixMul.cpp:94 | strncasecmp over strlen(ref) characters is a case-insensitive prefix test |
| CmdLine.CheckCmdLineFlag | gpu_matrixmul_rocm/matrixMul.cpp:78-103 | the answer is true iff some argv[k], k ≥ 1, after stripping has a name (text before '=') of ref's length equal to ref up to case |
| CmdLine.FlagNamed | gpu_matrixmul_rocm/matrixMul.cpp:84-98 | "-name", "--name" and "-name=value" all set the flag "name" |
| CmdLine.FlagIgnoresCase | gpu_matrixmul_rocm/matrixMul.cpp:94 | names that agree up to case match the same arguments |
| CmdLine.FlagSkipsProgramName | gpu_matrixmul_rocm/matrixMul.cpp:84 | argv[0] never influences the answer |
| CmdLine.ShortFlagMissed | gpu_matrixmul_rocm/matrixMul.cpp:70-98 | a one-byte flag written with dashes ("-?") is not recognised |
| CmdLine.Utf8NameStripped | gpu_matrixmul_rocm/matrixMul.cpp:61-98 | strlen counts bytes: "-é" in UTF-8 (2D C3 A9) is stripped to the two-byte name "é", which the flag "é" matches |
| CmdLine.DecimalValueOf | gpu_matrixmul_rocm/matrixMul.cpp:123 | reading back a decimal rendering gives the number |
| CmdLine.AtoiDecimal | gpu_matrixmul_rocm/matrixMul.cpp:123 | atoi reads back a decimal rendering, and its negation after '-' |
| CmdLine.AtoiDigits | gpu_matrixmul_rocm/matrixMul.cpp:123 | atoi of a non-empty string of digits is its decimal value |
| CmdLine.AtoiNegative | gpu_matrixmul_rocm/matrixMul.cpp:123 | atoi of '-' followed by digits is minus their decimal value |
| CmdLine.NegativeAfterName | gpu_matrixmul_rocm/matrixMul.cpp:120-124 | after "-name=-" the value is atoi of '-' and the rest: the '=' is skipped and the sign is read |
| CmdLine.GetCmdLineArgumentInt | gpu_matrixmul_rocm/matrixMul.cpp:105-144 | the answer is the value of the last argument starting with ref up to case, 0 when none does |
| CmdLine.ScanArgument | gpu_matrixmul_rocm/matrixMul.cpp:114-131 | one iteration decides whether the argument matches and what value it gives |
| CmdLine.LastArgumentStep | gpu_matrixmul_rocm/matrixMul.cpp:112-132 | one more argument decides the answer exactly when it matches |
| CmdLine.NoArgumentIsZero | gpu_matrixmul_rocm/matrixMul.cpp:136-143 | with no matching argument after argv[0] the answer is 0 |
| CmdLine.LastArgumentWins | gpu_matrixmul_rocm/matrixMul.cpp:112-132 | appending a matching argument makes its value the answer; appending another leaves the answer |
| CmdLine.LastArgumentPrefix | gpu_matrixmul_rocm/matrixMul.cpp:112-132 | the scan up to n looks only at the first n arguments |
| CmdLine.ArgumentReadsNumber | gpu_matrixmul_rocm/matrixMul.cpp:120-124 | "-name=" followed by the decimal rendering of n gives n, followed by "-" and the rendering gives -n |
| CmdLine.ValueAfterName | gpu_matrixmul_rocm/matrixMul.cpp:120-124 | after "-name=" the value is atoi of the rest: one '=' is skipped |
| CmdLine.NameAloneIsZero | gpu_matrixmul_rocm/matrixMul.cpp:125-128 | the name alone matches and gives 0 |
| CmdLine.PrefixMatches | gpu_matrixmul_rocm/matrixMul.cpp:118 | any argument starting with "-name" matches name: the test is by prefix |
| Transpose.Transposed | gpu_matrixmul_rocm/matrixMul.cpp:146-153 | the transpose has wB·hB entries |
| Transpose.TransposedAt | gpu_matrixmul_rocm/matrixMul.cpp:149 | entry hB·i + j of the transpose is data[wB·j + i], both indices inside the matrix |
| Transpose.TransposeTwice | gpu_matrixmul_rocm/matrixMul.cpp:146-153 | transposing twice gives back the original wB·hB entries |
| Transpose.TransposeMatrix | gpu_matrixmul_rocm/matrixMul.cpp:146-153 | dataT's first wB·hB entries become the transpose of data and the rest of dataT is unchanged; size plays no part |
| Transpose.TransposeRow | gpu_matrixmul_rocm/matrixMul.cpp:148-150 | the inner loop fills row i of the transpose and leaves later slots unchanged |

## Left out

- GPU execution is not modelled: thread indexing, the launch grid and
  concurrency. Each kernel is a sequential loop over the cells (see above).
- IEEE double rounding is not modelled; populations, forcing, e and tau are
  `real`. 32-bit `int` overflow in index arithmetic is not modelled; indices
  are unbounded integers.
- The boundary operators PBC, BBBC, SBC, UBC1, UBC2, BC1User and BC2User,
  the equilibria calculateFeqWE, calculateFeqNSE and calculateFeqUser, and
  calculateForcingUser live in headers that are not part of this model.
  They are functions supplied with the configuration. A hidden boundary
  operator is assumed to write only slot 9i+j of the local buffer.
- Equilibrium.Moments: requires a non-zero scalar. The source divides by it
  without a guard, and a zero scalar gives an infinity or NaN, which `real`
  cannot represent. The same applies to Second (`SecondInputs`) and to
  tau in Third (`ThirdInputs`).
- Kernels.First: requires every stream-in direction of an active cell to
  have its neighbour i + c_k on the grid (`StreamInInRange`). The source
  reads f1 there without a range check, so the masks are trusted to
  guarantee it.
- BC2 = 1 in the source assigns the result of OBC, a void function, to
  `localf[9i+j]`. That line cannot compile as written. The model reads
  BC2 = 1 as OBC writing the slot itself, as BC1 = 1 does.
- The shallow-water forcing guard is `index > 0`, so a neighbour that is
  cell 0 gets a zero term. The model keeps this strict guard as written
  (`SweForceCases`).
- When BC2 is 0 the category-B loop is compiled out, and directions with
  both mask bits set keep whatever value the local buffer held. The model
  keeps the stale value (`CellLocalSlots`).
- When BC1 names no operator, the category-A test at
  LBMkernels.cpp:89 has no statement of its own and takes the category-B
  loop as its body. The model follows that nesting (`NestedUpTo`): the
  category-B loop runs once per boundary-A direction, and not at all in a
  cell without one. When BC1 names no operator and BC2 is 0 the kernel
  does not compile; the model then leaves both boundary categories as they
  were.
- The shallow-water model requires e ≠ 0 (`LatticeSpeedUsable`).
  The source computes 1/(6e²) and 1/(9e²) (LBMkernels.cpp:19 and :53)
  without a guard; e = 0 gives an infinity, which `real` cannot represent.
- Kernels.WriteForces: the user forcing hook calculateForcingUser
  (LBMkernels.cpp:73) receives the whole forcing buffer. The model lets it
  produce only the cell's eight terms. Writes to other cells' slots are
  not modelled.
- `runTest` and `main` are not modelled: device selection, memory
  transfers, kernel launches, timing and printing.
- `randomInit` depends on `rand()` and is not modelled. `printDiff`, a
  tolerance comparison plus printing, is not modelled either.
- The matrix-multiply kernels are in headers that are not part of this
  model.
- CmdLine.Atoi: behaviour on overflow is undefined in C and not modelled.
  The model's value is the unbounded decimal value.
- The locale is fixed to "C" for `strncasecmp`, `tolower` and `isspace`.
- Transpose.TransposeMatrix: `float` elements are modelled as `real`; they
  are only copied. data and dataT are required to be distinct buffers.
- Transpose.TransposeMatrix: wB and hB are `nat`. In the source they are
  `int`, and a negative value makes both loops do nothing; the model does
  not cover negative sizes.
