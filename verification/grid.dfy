/**
 The `dim × dim` grid of escape counts: row `i` samples the imaginary axis
 `y[i]`, column `j` the real axis `x[j]`, and every cell holds the escape
 count of its own seed, stored as a 32-bit integer.
 */
module JuliaGrid {
  import opened ComplexArith
  import opened EscapeTime

  /** A grid of counts, row-major: `g[i][j]` is row `i`, column `j`. */
  type Grid = seq<seq<int>>

  const Int32Min: int := -0x8000_0000
  const Int32Max: int := 0x7FFF_FFFF

  /** Default configuration of the application. */
  const Dim: nat := 800
  const MaxIter: int := 80
  const EscapeRadius: real := 2.0

  /** Storing an integer into an `int32` cell keeps its low 32 bits, read as two's complement. */
  function ToInt32(n: int): (r: int)
    ensures Int32Min <= r <= Int32Max
    ensures (r - n) % 0x1_0000_0000 == 0
    ensures Int32Min <= n <= Int32Max ==> r == n
  {
    (n - Int32Min) % 0x1_0000_0000 + Int32Min
  }

  predicate IsSquare(g: Grid, dim: nat) {
    |g| == dim && forall i :: 0 <= i < dim ==> |g[i]| == dim
  }

  /** The seed of cell `(i, j)`: real part from the column axis, imaginary part from the row axis. */
  function Seed(x: seq<real>, y: seq<real>, i: nat, j: nat): Complex
    requires i < |y| && j < |x|
  {
    Complex(x[j], y[i])
  }

  /** The value the kernel stores in cell `(i, j)`. */
  function Cell(x: seq<real>, y: seq<real>, c: Complex, maxIter: int, radius: real, i: nat, j: nat): (r: int)
    requires i < |y| && j < |x|
    ensures Int32Min <= r <= Int32Max
    ensures maxIter <= Int32Max ==> r == EscapeCount(Seed(x, y, i, j), c, maxIter, radius) && 0 <= r <= Cap(maxIter)
  {
    ToInt32(EscapeCount(Seed(x, y, i, j), c, maxIter, radius))
  }

  /** The freshly allocated, all-zero output array. */
  function Zeros(dim: nat): (g: Grid)
    ensures IsSquare(g, dim)
    ensures forall i, j :: 0 <= i < dim && 0 <= j < dim ==> g[i][j] == 0
  {
    seq(dim, _ => seq(dim, _ => 0))
  }

  /** The complete grid: every cell holds its own count and nothing else. */
  function GridSpec(x: seq<real>, y: seq<real>, c: Complex, maxIter: int, radius: real): (g: Grid)
    requires |x| <= |y|
    ensures IsSquare(g, |x|)
  {
    seq(|x|, i requires 0 <= i < |x| =>
      seq(|x|, j requires 0 <= j < |x| => Cell(x, y, c, maxIter, radius, i, j)))
  }

  /**
   While the cap fits in 32 bits every stored cell is the exact escape count
   of its seed, within `0 ..= max(maxIter, 0)`.
   */
  lemma GridCellsInRange(x: seq<real>, y: seq<real>, c: Complex, maxIter: int, radius: real)
    requires |x| <= |y|
    requires maxIter <= Int32Max
    ensures forall i, j :: 0 <= i < |x| && 0 <= j < |x| ==>
      && GridSpec(x, y, c, maxIter, radius)[i][j] == EscapeCount(Seed(x, y, i, j), c, maxIter, radius)
      && 0 <= GridSpec(x, y, c, maxIter, radius)[i][j] <= Cap(maxIter)
  {
    var g := GridSpec(x, y, c, maxIter, radius);
    forall i, j | 0 <= i < |x| && 0 <= j < |x|
      ensures g[i][j] == Cell(x, y, c, maxIter, radius, i, j)
    {
    }
  }

  /**
   A cell depends on nothing but its own two axis samples: grids over axes
   that agree at `x[j]` and `y[i]` agree at `(i, j)`, whatever the other cells hold.
   */
  lemma CellIsLocal(x: seq<real>, y: seq<real>, x': seq<real>, y': seq<real>,
                    c: Complex, maxIter: int, radius: real, i: nat, j: nat)
    requires |x| <= |y| && |x'| <= |y'|
    requires i < |x| && j < |x| && i < |x'| && j < |x'|
    requires x[j] == x'[j] && y[i] == y'[i]
    ensures GridSpec(x, y, c, maxIter, radius)[i][j] == GridSpec(x', y', c, maxIter, radius)[i][j]
  {
  }

  /**
   On axes symmetric about zero (as `linspace(-a, a, dim)` is in exact
   arithmetic) the grid is symmetric under a half-turn: cell `(i, j)` and
   cell `(dim-1-i, dim-1-j)` hold the same count.
   */
  lemma GridHalfTurnSymmetric(x: seq<real>, y: seq<real>, c: Complex, maxIter: int, radius: real, i: nat, j: nat)
    requires |x| <= |y|
    requires i < |x| && j < |x|
    requires x[|x| - 1 - j] == -x[j] && y[|x| - 1 - i] == -y[i]
    ensures GridSpec(x, y, c, maxIter, radius)[|x| - 1 - i][|x| - 1 - j]
         == GridSpec(x, y, c, maxIter, radius)[i][j]
  {
    var dim := |x|;
    assert Seed(x, y, dim - 1 - i, dim - 1 - j) == Neg(Seed(x, y, i, j));
    NegationSymmetric(Seed(x, y, i, j), c, maxIter, radius);
  }

  /** Every listed cell is a valid index of a `dim × dim` grid. */
  predicate CellsInGrid(cells: seq<(nat, nat)>, dim: nat) {
    forall k :: 0 <= k < |cells| ==> cells[k].0 < dim && cells[k].1 < dim
  }

  /**
   The per-cell writes of the parallel loops, performed one after another in
   the order `cells` lists them; each write stores that cell's own count.
   */
  function Fill(g: Grid, cells: seq<(nat, nat)>, x: seq<real>, y: seq<real>,
                c: Complex, maxIter: int, radius: real): (r: Grid)
    requires |x| <= |y|
    requires IsSquare(g, |x|)
    requires CellsInGrid(cells, |x|)
    ensures IsSquare(r, |x|)
    ensures forall i, j :: 0 <= i < |x| && 0 <= j < |x| ==>
      r[i][j] == if (i, j) in cells then Cell(x, y, c, maxIter, radius, i, j) else g[i][j]
    decreases |cells|
  {
    if |cells| == 0 then g
    else
      var (i, j) := cells[0];
      var g' := g[i := g[i][j := Cell(x, y, c, maxIter, radius, i, j)]];
      assert forall k :: 0 <= k < |cells| - 1 ==> cells[1..][k] == cells[k + 1];
      Fill(g', cells[1..], x, y, c, maxIter, radius)
  }

  /**
   Any schedule that writes every cell at least once, in any order and with
   any repetitions, turns the zero array into the same grid: the order in
   which parallel workers fill cells cannot change the result.
   */
  lemma AnyScheduleGivesGrid(cells: seq<(nat, nat)>, x: seq<real>, y: seq<real>,
                             c: Complex, maxIter: int, radius: real)
    requires |x| <= |y|
    requires CellsInGrid(cells, |x|)
    requires forall i: nat, j: nat :: i < |x| && j < |x| ==> (i, j) in cells
    ensures Fill(Zeros(|x|), cells, x, y, c, maxIter, radius) == GridSpec(x, y, c, maxIter, radius)
  {
    var r := Fill(Zeros(|x|), cells, x, y, c, maxIter, radius);
    var g := GridSpec(x, y, c, maxIter, radius);
    forall i | 0 <= i < |x|
      ensures r[i] == g[i]
    {
      assert forall j :: 0 <= j < |x| ==> r[i][j] == g[i][j];
    }
  }

  /**
   The kernel: allocate a zero `dim × dim` array with `dim = len(x)`, then
   for every row `i` and column `j` run the escape loop on `x[j] + y[i]·i`
   and store the count in `iterations[i][j]`.
   */
  method ComputeGrid(x: seq<real>, y: seq<real>, c: Complex, maxIter: int, radius: real)
    returns (iterations: Grid)
    requires |x| <= |y|
    ensures IsSquare(iterations, |x|)
    ensures forall i, j :: 0 <= i < |x| && 0 <= j < |x| ==>
      iterations[i][j] == ToInt32(EscapeCount(Seed(x, y, i, j), c, maxIter, radius))
    ensures maxIter <= Int32Max ==> forall i, j :: 0 <= i < |x| && 0 <= j < |x| ==>
      0 <= iterations[i][j] <= Cap(maxIter)
    ensures iterations == GridSpec(x, y, c, maxIter, radius)
  {
    var dim := |x|;
    ghost var spec := GridSpec(x, y, c, maxIter, radius);
    iterations := Zeros(dim);
    var i := 0;
    while i < dim
      invariant 0 <= i <= dim
      invariant IsSquare(iterations, dim)
      invariant forall a :: 0 <= a < i ==> iterations[a] == spec[a]
      invariant forall a, b :: i <= a < dim && 0 <= b < dim ==> iterations[a][b] == 0
    {
      var j := 0;
      while j < dim
        invariant 0 <= j <= dim
        invariant IsSquare(iterations, dim)
        invariant forall a :: 0 <= a < i ==> iterations[a] == spec[a]
        invariant forall a, b :: i < a < dim && 0 <= b < dim ==> iterations[a][b] == 0
        invariant forall b :: 0 <= b < j ==> iterations[i][b] == spec[i][b]
        invariant forall b :: j <= b < dim ==> iterations[i][b] == 0
      {
        var count := CountSteps(Seed(x, y, i, j), c, maxIter, radius);
        iterations := iterations[i := iterations[i][j := ToInt32(count)]];
        j := j + 1;
      }
      assert iterations[i] == spec[i];
      i := i + 1;
    }
    if maxIter <= Int32Max {
      GridCellsInRange(x, y, c, maxIter, radius);
    }
  }

  /** The application's call: the kernel on its two 800-sample axes, 80 steps, radius 2. */
  method JuliaSet(x: seq<real>, y: seq<real>, c: Complex) returns (iterations: Grid)
    requires |x| == Dim && |y| == Dim
    ensures IsSquare(iterations, Dim)
    ensures forall i, j :: 0 <= i < Dim && 0 <= j < Dim ==>
      && iterations[i][j] == EscapeCount(Seed(x, y, i, j), c, MaxIter, EscapeRadius)
      && 0 <= iterations[i][j] <= MaxIter
  {
    iterations := ComputeGrid(x, y, c, MaxIter, EscapeRadius);
  }
}
