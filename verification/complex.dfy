/**
 Complex numbers as pairs of exact reals, with the few operations the
 escape-time kernel uses: product, the squaring step `z*z + c`, and the
 escape test `abs(z) < escape_radius` phrased on the squared magnitude.
 */
module ComplexArith {

  /** `re + im·i`. */
  datatype Complex = Complex(re: real, im: real)

  const Zero: Complex := Complex(0.0, 0.0)

  function Add(a: Complex, b: Complex): Complex {
    Complex(a.re + b.re, a.im + b.im)
  }

  function Neg(a: Complex): Complex {
    Complex(-a.re, -a.im)
  }

  /** The general complex product, `(a+bi)(c+di) = (ac-bd) + (ad+bc)i`. */
  function Mul(a: Complex, b: Complex): Complex {
    Complex(a.re * b.re - a.im * b.im, a.re * b.im + a.im * b.re)
  }

  /** Squaring by the two-term formula `(a²-b²) + 2ab·i`. */
  function Square(z: Complex): (r: Complex)
    ensures r == Mul(z, z)
  {
    Complex(z.re * z.re - z.im * z.im, 2.0 * z.re * z.im)
  }

  /** One step of the quadratic map `z ↦ z² + c`. */
  function Step(z: Complex, c: Complex): (r: Complex)
    ensures r == Add(Mul(z, z), c)
  {
    Add(Square(z), c)
  }

  /** `|z|²`, the quantity compared instead of `|z|` to avoid a square root. */
  function NormSq(z: Complex): (r: real)
    ensures r >= 0.0
  {
    z.re * z.re + z.im * z.im
  }

  /** `|z| < radius`, stated without a square root. */
  predicate Inside(z: Complex, radius: real) {
    radius > 0.0 && NormSq(z) < radius * radius
  }

  /**
   `Inside` is exactly the comparison `abs(z) < radius`: `m` is the modulus of
   `z` (the non-negative root of `|z|²`), and the radius may be any real.
   */
  lemma InsideIsModulusBelowRadius(z: Complex, radius: real, m: real)
    requires m >= 0.0 && m * m == NormSq(z)
    ensures Inside(z, radius) <==> m < radius
  {
    if radius > 0.0 {
      SquaresOrdered(m, radius);
    }
  }

  /** On non-negative reals, squaring preserves and reflects strict order. */
  lemma SquaresOrdered(a: real, b: real)
    requires a >= 0.0 && b >= 0.0
    ensures a < b <==> a * a < b * b
  {
    var aa, ab, bb := a * a, a * b, b * b;
    if a < b {
      assert aa <= ab;
      assert ab < bb;
    } else {
      assert bb <= ab;
      assert ab <= aa;
    }
  }

  /** A larger radius keeps every point that a smaller one keeps. */
  lemma InsideGrowsWithRadius(z: Complex, r1: real, r2: real)
    requires r1 <= r2
    ensures Inside(z, r1) ==> Inside(z, r2)
  {
    if r1 > 0.0 {
      SquaresOrdered(r1, r2);
    }
  }

  /** `0² + 0 = 0`. */
  lemma StepZero(z: Complex, c: Complex)
    requires z == Zero && c == Zero
    ensures Step(z, c) == Zero
  {
  }

  /** The origin lies inside every positive radius. */
  lemma OriginInside(z: Complex, radius: real)
    requires z == Zero && radius > 0.0
    ensures Inside(z, radius)
  {
    SquaresOrdered(0.0, radius);
  }

  /** Negating `z` changes neither its square nor its modulus. */
  lemma NegSquare(z: Complex)
    ensures Square(Neg(z)) == Square(z)
    ensures NormSq(Neg(z)) == NormSq(z)
  {
  }
}
