# Julia set escape-time kernel in Dafny

This project models the computational core of a Julia set visualizer: the
escape-time kernel `julia_set_numba`. The kernel takes two sample axes `x`
and `y`, a complex parameter `c`, an iteration cap `max_iter` and an escape
radius. It returns a `dim × dim` grid of iteration counts, with `dim = len(x)`.
For cell `(i, j)` it seeds `z = x[j] + y[i]·i`. It then applies `z ← z² + c`
while `abs(z) < escape_radius` and `count < max_iter`, and stores `count`
in the cell.

The arithmetic is exact: `real` pairs stand in for floating-point complex
numbers.

- `complex.dfy` (module `ComplexArith`) defines complex values as
  `(re, im)` pairs. It has the general product, squaring by
  `(a²−b², 2ab)` and the step `z² + c`. The escape test is
  `Inside(z, R)`, which is `R > 0 && re² + im² < R²`. A lemma proves this
  is exactly `abs(z) < R` for every real `R`, including a non-positive one.
- `escape.dfy` (module `EscapeTime`) defines the k-th iterate `Iter`. It
  models the check-then-step loop as `EscapeFrom` and `EscapeCount`, and
  `IsEscapeCount` gives the declarative meaning of a count ("first escape
  index, or the cap"). The lemmas relate the two definitions. The method
  `CountSteps` is the imperative inner `while` loop.
- `grid.dfy` (module `JuliaGrid`) holds the reference grid `GridSpec`. It
  has the nested-loop method `ComputeGrid`, mirroring the two loops and the
  zero-initialised `int32` array, and the application's call `JuliaSet`
  with `dim = 800`, `max_iter = 80` and radius `2`. `Fill` models the
  parallel loops as an arbitrary schedule of per-cell writes.
  `AnyScheduleGivesGrid` proves that every schedule covering all cells
  gives the same grid.

Boundary convention: the comparison is strict, and the guard is checked
before the first step. A seed with `abs(z0) == escape_radius` therefore gets
count 0.

The kernel performs no input validation: axis lengths, `dim`, `max_iter`
and the radius are never checked. The model therefore accepts every input
the code accepts:

- Any `max_iter` is accepted. A non-positive cap gives every cell count 0
  (`Cap`).
- Any radius is accepted. A non-positive radius also gives 0.
- An empty axis gives an empty grid.
- The only requirement is `len(x) <= len(y)`. The kernel reads `y[i]` for
  `i < len(x)` and nothing else from `y`.

## Model

| member | source | states |
|---|---|---|
| ComplexArith.Square | julia_set.py:31 | squaring by `(a²−b², 2ab)` equals the complex product `z * z` the kernel computes |
| ComplexArith.Step | julia_set.py:31 | one update `z = z * z + c`: the two-term squaring plus `c` equals the general product `z * z` plus `c` |
| ComplexArith.Inside | julia_set.py:30 | definition of the guard `abs(z) < escape_radius` as `R > 0 && re² + im² < R²`; related to `abs` by `InsideIsModulusBelowRadius` |
| ComplexArith.InsideIsModulusBelowRadius | julia_set.py:30 | for `m >= 0` with `m² = re² + im²` (the modulus), the squared-magnitude test holds exactly when `m < radius`, for any real radius |
| ComplexArith.InsideGrowsWithRadius | julia_set.py:30 | a point strictly inside a radius is strictly inside every larger radius |
| EscapeTime.Iter | julia_set.py:31 | definition of the k-th value of `z` (k applications of `Step`); related to the loop by `EscapeFromIsFirstEscape` and to the method's variable `z` by `CountSteps`' loop invariant |
| EscapeTime.IsEscapeCount | julia_set.py:30-32 | definition of a first-escape count: within the cap, iterates before it inside, itself outside unless at the cap; equal to the loop's result by `EscapeCountCharacterized` |
| EscapeTime.EscapeFrom | julia_set.py:30-32 | the loop resumed at step `count` ends with a count no smaller than `count` and no larger than `max(count, maxIter)` |
| EscapeTime.EscapeCount | julia_set.py:29-32 | the count lies in `0 ..= max(maxIter, 0)`; a seed outside the radius gets 0; a seed inside with a positive cap gets at least 1 |
| EscapeTime.EscapeFromIsFirstEscape | julia_set.py:30-32 | after `k` steps that stayed inside, the loop ends at the first iterate at or beyond the radius, or at the cap |
| EscapeTime.EscapeCountCharacterized | julia_set.py:29-32 | a number `n` satisfies "within the cap, iterates `0..n-1` inside, iterate `n` outside unless `n` is the cap" if and only if `n` is the loop's count |
| EscapeTime.EscapedAtCount | julia_set.py:30-32 | a count `k < maxIter` means iterates `0..k-1` were inside the radius and iterate `k` is not |
| EscapeTime.NeverEscaped | julia_set.py:30-32 | a count equal to `maxIter` means iterates `0..maxIter-1` all stayed strictly inside |
| EscapeTime.RadiusMonotone | julia_set.py:30 | raising the escape radius never lowers a count |
| EscapeTime.CapTruncates | julia_set.py:30 | for `m1 <= m2`, the count under cap `m1` is the count under `m2` truncated to `max(m1, 0)` |
| EscapeTime.FixedPointIterates | julia_set.py:31 | a point with `z² + c = z` equals every one of its iterates |
| EscapeTime.FixedPointNeverEscapes | julia_set.py:30-32 | a fixed point of the map strictly inside the radius gets the full cap `max(maxIter, 0)` |
| EscapeTime.OriginNeverEscapes | julia_set.py:28-32 | with `c = 0` and a positive radius, the origin gets the full cap `max(maxIter, 0)` |
| EscapeTime.NegationSymmetric | julia_set.py:30-32 | seeds `z0` and `-z0` get the same count |
| EscapeTime.CountSteps | julia_set.py:26-32 | the imperative loop over a mutable `z` returns the first-escape count, equal to `EscapeCount` |
| JuliaGrid.ToInt32 | julia_set.py:23 | storing into the `int32` array keeps the value modulo 2³² in the signed range, and leaves values in range unchanged |
| JuliaGrid.Seed | julia_set.py:26-28 | definition of the seed `complex(x[j], y[i])`: real part from the column axis, imaginary part from the row axis; used cell by cell in the contracts of `Cell`, `GridCellsInRange`, `ComputeGrid` and `JuliaSet` |
| JuliaGrid.Cell | julia_set.py:33 | the value stored by `iterations[i, j] = count` is in the `int32` range, and while the cap fits in 32 bits it is the seed's escape count within `0 ..= max(maxIter, 0)` |
| JuliaGrid.Zeros | julia_set.py:23 | the freshly allocated array is `dim × dim` with every cell 0 |
| JuliaGrid.GridSpec | julia_set.py:22-23 | the reference grid has exactly `len(x)` rows of `len(x)` cells |
| JuliaGrid.GridCellsInRange | julia_set.py:26-33 | while `maxIter` fits in 32 bits, cell `(i, j)` is the escape count of `x[j] + y[i]·i` and lies in `0 ..= max(maxIter, 0)` |
| JuliaGrid.CellIsLocal | julia_set.py:26-28 | cell `(i, j)` depends only on `x[j]` and `y[i]`: grids over axes that agree there agree at that cell |
| JuliaGrid.GridHalfTurnSymmetric | julia_set.py:15-34 | on axes symmetric about zero (as the axes built at lines 15-16 are in exact arithmetic), the kernel's grid (lines 21-34) holds the same count in cells `(i, j)` and `(dim-1-i, dim-1-j)` |
| JuliaGrid.Fill | julia_set.py:24-33 | after any sequence of per-cell writes, a listed cell holds its own count and an unlisted cell keeps its old value |
| JuliaGrid.AnyScheduleGivesGrid | julia_set.py:24-25 | every write order that covers all cells, repetitions included, turns the zero array into the same grid |
| JuliaGrid.ComputeGrid | julia_set.py:21-34 | the nested loops return a `len(x) × len(x)` grid whose cell `(i, j)` is the stored escape count of `x[j] + y[i]·i`, within `0 ..= max(maxIter, 0)` while the cap fits in 32 bits |
| JuliaGrid.JuliaSet | julia_set.py:36-37 | with the application's constants (`dim = 800`, cap 80, radius 2), every cell is its seed's escape count and lies in `0 ..= 80` |

## Left out

- The matplotlib user interface (julia_set.py:43-97) is not modelled. This covers the figure, sliders, the `update` callback, colormap radio buttons, title text and legend. It is display glue that consumes the grid.
- The `@njit(parallel=True, fastmath=True)` compilation and the real concurrency of `prange` are not modelled. The loops are sequential in `ComputeGrid`, and `Fill` / `AnyScheduleGivesGrid` cover every interleaving of the disjoint per-cell writes.
- IEEE floating point is not modelled. The axes are `float32` and the arithmetic is complex128 under `fastmath`. All arithmetic is exact `real`, so rounding, overflow to infinity and NaN are not represented. `RadiusMonotone` and the symmetry lemmas hold under exact arithmetic only.
- The axis values produced by `np.linspace` (julia_set.py:15-16) are not modelled. The axes are arbitrary sequences of reals. `GridHalfTurnSymmetric` takes their symmetry about zero as a hypothesis.
- The `sqrt` inside `abs(z)` is not computed. `InsideIsModulusBelowRadius` relates the squared test to any non-negative `m` with `m² = |z|²`.
- The 64-bit width of the loop counter and of `max_iter` inside the compiled kernel is not modelled. The count never exceeds `max_iter`, so it cannot wrap. A `max_iter` beyond the 64-bit range does not fit the kernel's integer type and is not considered.
- Out-of-bounds reads when `len(y) < len(x)` are excluded by the requirement `len(x) <= len(y)`. The compiled code performs no bounds check there, so that case has no defined result to model.
- The initial parameter `c = -0.7 + 0.27015i` (julia_set.py:40-41) is user-interface start-up state and is not modelled.
