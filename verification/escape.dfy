/**
 The escape-time count of one grid point: starting from `z0`, apply
 `z ↦ z² + c` while `|z| < radius` and fewer than `maxIter` steps have been
 taken, and report the number of steps.
 */
module EscapeTime {
  import opened ComplexArith

  /** The number of steps the loop can take at most; a non-positive cap allows none. */
  function Cap(maxIter: int): nat {
    if maxIter < 0 then 0 else maxIter
  }

  /** The k-th iterate of `z ↦ z² + c` from `z`: k steps of the map. */
  function Iter(z: Complex, c: Complex, k: nat): Complex
    decreases k
  {
    if k == 0 then z else Step(Iter(z, c, k - 1), c)
  }

  /**
   The loop itself, from the state where `z` is the current value and `count`
   steps have been taken: check the guard, then step and count.
   */
  function EscapeFrom(z: Complex, c: Complex, count: nat, maxIter: int, radius: real): (r: nat)
    ensures count <= r
    ensures r <= if count < maxIter then maxIter else count
    decreases maxIter - count
  {
    if Inside(z, radius) && count < maxIter then
      EscapeFrom(Step(z, c), c, count + 1, maxIter, radius)
    else
      count
  }

  /** The count the kernel stores for seed `z0`: the loop run from `count = 0`. */
  function EscapeCount(z0: Complex, c: Complex, maxIter: int, radius: real): (r: nat)
    ensures r <= Cap(maxIter)
    ensures !Inside(z0, radius) ==> r == 0
    ensures Inside(z0, radius) && maxIter > 0 ==> r >= 1
  {
    EscapeFrom(z0, c, 0, maxIter, radius)
  }

  /**
   The declarative meaning of a count `n`: it is within the cap, every iterate
   before it is strictly inside the radius, and, unless the cap was reached,
   the n-th iterate is not.
   */
  ghost predicate IsEscapeCount(z0: Complex, c: Complex, maxIter: int, radius: real, n: int) {
    && 0 <= n <= Cap(maxIter)
    && (forall k: nat :: k < n ==> Inside(Iter(z0, c, k), radius))
    && (n < Cap(maxIter) ==> !Inside(Iter(z0, c, n), radius))
  }

  /** The loop, resumed after `k` steps that all stayed inside, ends at the first escape. */
  lemma {:induction false} EscapeFromIsFirstEscape(z0: Complex, c: Complex, k: nat, maxIter: int, radius: real)
    requires k <= Cap(maxIter)
    requires forall j: nat :: j < k ==> Inside(Iter(z0, c, j), radius)
    ensures IsEscapeCount(z0, c, maxIter, radius, EscapeFrom(Iter(z0, c, k), c, k, maxIter, radius))
    decreases maxIter - k
  {
    var z := Iter(z0, c, k);
    if Inside(z, radius) && k < maxIter {
      EscapeFromIsFirstEscape(z0, c, k + 1, maxIter, radius);
    }
  }

  /** `EscapeCount` is the one and only count satisfying `IsEscapeCount`. */
  lemma EscapeCountCharacterized(z0: Complex, c: Complex, maxIter: int, radius: real, n: int)
    ensures IsEscapeCount(z0, c, maxIter, radius, n) <==> n == EscapeCount(z0, c, maxIter, radius)
  {
    assert EscapeCount(z0, c, maxIter, radius) == EscapeFrom(Iter(z0, c, 0), c, 0, maxIter, radius);
    EscapeFromIsFirstEscape(z0, c, 0, maxIter, radius);
  }

  /** A count below the cap is the index of the first iterate at or beyond the radius. */
  lemma EscapedAtCount(z0: Complex, c: Complex, maxIter: int, radius: real)
    requires EscapeCount(z0, c, maxIter, radius) < maxIter
    ensures forall k: nat :: k < EscapeCount(z0, c, maxIter, radius) ==> Inside(Iter(z0, c, k), radius)
    ensures !Inside(Iter(z0, c, EscapeCount(z0, c, maxIter, radius)), radius)
  {
    EscapeFromIsFirstEscape(z0, c, 0, maxIter, radius);
  }

  /** A count equal to the cap means every iterate before the cap stayed inside. */
  lemma NeverEscaped(z0: Complex, c: Complex, maxIter: int, radius: real)
    requires EscapeCount(z0, c, maxIter, radius) == maxIter
    ensures forall k: nat :: k < maxIter ==> Inside(Iter(z0, c, k), radius)
  {
    EscapeFromIsFirstEscape(z0, c, 0, maxIter, radius);
  }

  /** Enlarging the escape radius never lowers a count. */
  lemma RadiusMonotone(z0: Complex, c: Complex, maxIter: int, r1: real, r2: real)
    requires r1 <= r2
    ensures EscapeCount(z0, c, maxIter, r1) <= EscapeCount(z0, c, maxIter, r2)
  {
    var n1 := EscapeCount(z0, c, maxIter, r1);
    var n2 := EscapeCount(z0, c, maxIter, r2);
    EscapeFromIsFirstEscape(z0, c, 0, maxIter, r1);
    EscapeFromIsFirstEscape(z0, c, 0, maxIter, r2);
    if n2 < n1 {
      assert Inside(Iter(z0, c, n2), r1);
      InsideGrowsWithRadius(Iter(z0, c, n2), r1, r2);
    }
  }

  /**
   The cap only truncates: with a smaller cap the count is the larger cap's
   count cut down to the smaller cap.
   */
  lemma CapTruncates(z0: Complex, c: Complex, m1: int, m2: int, radius: real)
    requires m1 <= m2
    ensures EscapeCount(z0, c, m1, radius)
         == if EscapeCount(z0, c, m2, radius) < Cap(m1) then EscapeCount(z0, c, m2, radius) else Cap(m1)
  {
    var n2 := EscapeCount(z0, c, m2, radius);
    var n := if n2 < Cap(m1) then n2 else Cap(m1);
    EscapeFromIsFirstEscape(z0, c, 0, m2, radius);
    assert IsEscapeCount(z0, c, m1, radius, n);
    EscapeCountCharacterized(z0, c, m1, radius, n);
  }

  /** A fixed point of the map is every one of its own iterates. */
  lemma {:induction false} FixedPointIterates(z0: Complex, c: Complex, k: nat)
    requires Step(z0, c) == z0
    ensures Iter(z0, c, k) == z0
    decreases k
  {
    if k > 0 {
      FixedPointIterates(z0, c, k - 1);
    }
  }

  /** A fixed point strictly inside the radius never escapes and reaches the cap. */
  lemma FixedPointNeverEscapes(z0: Complex, c: Complex, maxIter: int, radius: real)
    requires Step(z0, c) == z0
    requires Inside(z0, radius)
    ensures EscapeCount(z0, c, maxIter, radius) == Cap(maxIter)
  {
    forall k: nat | k < Cap(maxIter)
      ensures Inside(Iter(z0, c, k), radius)
    {
      FixedPointIterates(z0, c, k);
    }
    EscapeCountCharacterized(z0, c, maxIter, radius, Cap(maxIter));
  }

  /** With `c = 0` and a positive radius the origin never escapes and reaches the cap. */
  lemma OriginNeverEscapes(z0: Complex, c: Complex, maxIter: int, radius: real)
    requires z0 == Zero && c == Zero
    requires radius > 0.0
    ensures EscapeCount(z0, c, maxIter, radius) == Cap(maxIter)
  {
    StepZero(z0, c);
    OriginInside(z0, radius);
    FixedPointNeverEscapes(z0, c, maxIter, radius);
  }

  /** `z0` and `-z0` take the same number of steps, since both step to the same point. */
  lemma NegationSymmetric(z0: Complex, c: Complex, maxIter: int, radius: real)
    ensures EscapeCount(Neg(z0), c, maxIter, radius) == EscapeCount(z0, c, maxIter, radius)
  {
    NegSquare(z0);
    assert Step(Neg(z0), c) == Step(z0, c);
    assert Inside(Neg(z0), radius) == Inside(z0, radius);
  }

  /**
   The kernel's inner `while` loop over a mutable `z` and `count`, squaring by
   the general product `z * z`.
   */
  method CountSteps(z0: Complex, c: Complex, maxIter: int, radius: real) returns (count: nat)
    ensures count == EscapeCount(z0, c, maxIter, radius)
    ensures IsEscapeCount(z0, c, maxIter, radius, count)
  {
    var z := z0;
    count := 0;
    while Inside(z, radius) && count < maxIter
      invariant z == Iter(z0, c, count)
      invariant forall k: nat :: k < count ==> Inside(Iter(z0, c, k), radius)
      invariant count <= Cap(maxIter)
      decreases maxIter - count
    {
      z := Add(Mul(z, z), c);
      count := count + 1;
    }
    EscapeCountCharacterized(z0, c, maxIter, radius, count);
  }
}
