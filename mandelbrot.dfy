/**
 * The part of the classification engine that src/lib.rs and src/main.rs share
 * word for word: the step map φ, its n-fold iteration φ_n, the derivative φ',
 * and the escape-time test. Both renderers call these same definitions.
 */
module Mandelbrot {
  import opened Wrappers
  import opened ComplexPlane

  /** Iteration budget of the escape test, as both renderers pass it. */
  const IterationLimit: nat := 255
  /** Bound of the period search and number of stability probes per period. */
  const MaxPeriod: nat := 40
  /** Orbit depth the library advances to before searching for a period. */
  const OrbitDepth: nat := 1000

  /** φ(z, c) = z² + c */
  function Phi(z: Complex, c: Complex): Complex {
    Add(Mul(z, z), c)
  }

  /** φ'(z) = 2z */
  function PhiPrime(z: Complex): Complex {
    Scale(2.0, z)
  }

  /** The escape test `norm_sqr(z) > 4`, that is |z| > 2. */
  predicate Escapes(z: Complex) {
    NormSqr(z) > 4.0
  }

  /** The stability test |λ| < 1; over the reals it is the same as |λ|² < 1. */
  predicate Attracting(l: Complex) {
    NormSqr(l) < 1.0
  }

  /** φ_n(z, c, n): φ applied n times to z, with c fixed. */
  function Orbit(z: Complex, c: Complex, n: nat): Complex {
    if n == 0 then z else Phi(Orbit(z, c, n - 1), c)
  }

  /**
   * The derivative of φ_n with respect to z, by the chain rule applied to
   * φ_{n+1} = φ_n ∘ φ: (φ_n ∘ φ)'(z) = φ_n'(φ(z)) · φ'(z).
   */
  function OrbitDerivative(z: Complex, c: Complex, n: nat): Complex
    decreases n, z, c
  {
    if n == 0 then One else Mul(OrbitDerivative(Phi(z, c), c, n - 1), PhiPrime(z))
  }

  /** `phi_n`: the loop `for _ in 1..=n { result = phi(result, c) }`. */
  method PhiN(z: Complex, c: Complex, n: nat) returns (result: Complex)
    ensures result == Orbit(z, c, n)
  {
    result := z;
    for i := 1 to n + 1
      invariant result == Orbit(z, c, i - 1)
    {
      result := Phi(result, c);
    }
  }

  /** Iterating once more is iterating from the next point. */
  lemma {:induction false} OrbitShift(z: Complex, c: Complex, n: nat)
    ensures Orbit(z, c, n + 1) == Orbit(Phi(z, c), c, n)
  {
    if n > 0 {
      OrbitShift(z, c, n - 1);
    }
  }

  /** φ_n ∘ φ_m = φ_{m+n}. */
  lemma {:induction false} OrbitCompose(z: Complex, c: Complex, m: nat, n: nat)
    ensures Orbit(Orbit(z, c, m), c, n) == Orbit(z, c, m + n)
  {
    if n > 0 {
      OrbitCompose(z, c, m, n - 1);
    }
  }

  /** A fixed point of φ stays put under every φ_n. */
  lemma {:induction false} OrbitFixed(z: Complex, c: Complex, n: nat)
    requires Phi(z, c) == z
    ensures Orbit(z, c, n) == z
  {
    if n > 0 {
      OrbitFixed(z, c, n - 1);
    }
  }

  /** An orbit that lands on a fixed point of φ at step m stays there from then on. */
  lemma OrbitSettles(z: Complex, c: Complex, w: Complex, m: nat, n: nat)
    requires Orbit(z, c, m) == w && Phi(w, c) == w && m <= n
    ensures Orbit(z, c, n) == w
  {
    OrbitFixed(w, c, n - m);
    OrbitCompose(z, c, m, n - m);
  }

  /** An orbit that starts in a set φ maps into itself never leaves it. */
  lemma {:induction false} OrbitInvariant(inside: Complex -> bool, z: Complex, c: Complex, n: nat)
    requires inside(z)
    requires forall w | inside(w) :: inside(Phi(w, c))
    ensures inside(Orbit(z, c, n))
  {
    if n > 0 {
      OrbitInvariant(inside, z, c, n - 1);
    }
  }

  /** |φ'(z)|² = 4 |z|². */
  lemma PhiPrimeNorm(z: Complex)
    ensures NormSqr(PhiPrime(z)) == 4.0 * NormSqr(z)
  {
  }

  lemma SquareNonNegative(x: real)
    ensures x * x >= 0.0
  {
  }

  lemma ProductNonNegative(x: real, y: real)
    requires x >= 0.0 && y >= 0.0
    ensures x * y >= 0.0
  {
  }

  /**
   * For c = -0.1 + 0.1i, φ maps the disc |z|² ≤ 0.04 into itself: with
   * s = |w|², |φ(w)|² = s² + 0.2 (b² - a² + 2ab) + 0.02 ≤ 0.04 s + 0.3 s + 0.02.
   */
  lemma SmallDiscInvariant(w: Complex, c: Complex)
    requires c == Complex(-0.1, 0.1) && NormSqr(w) <= 0.04
    ensures NormSqr(Phi(w, c)) <= 0.04
  {
    var a, b := w.re, w.im;
    var s := a * a + b * b;
    NormSqrNonNegative(w);
    assert NormSqr(w) == s;
    assert Phi(w, c) == Complex(a * a - b * b - 0.1, 2.0 * a * b + 0.1);
    assert NormSqr(Phi(w, c)) == s * s + 0.2 * (b * b - a * a + 2.0 * a * b) + 0.02;
    SquareNonNegative(b - 2.0 * a);
    SquareNonNegative(a);
    assert b * b - a * a + 2.0 * a * b <= 1.5 * s;
    ProductNonNegative(0.04 - s, s);
    assert s * s <= 0.04 * s;
  }

  /*
   * The worked orbit for c = -2. The point is a parameter pinned by a
   * precondition rather than a literal, so that the verifier does not try to
   * evaluate a thousand steps of the orbit symbol by symbol.
   */

  /** For c = -2 the orbit of 0 is 0, -2, 2. */
  lemma MinusTwoTwoSteps(c: Complex)
    requires c == Complex(-2.0, 0.0)
    ensures Orbit(Zero, c, 2) == Complex(2.0, 0.0)
  {
    assert Mul(Zero, Zero) == Zero;
    assert Orbit(Zero, c, 1) == c;
    assert Mul(c, c) == Complex(4.0, 0.0);
  }

  /** 2 is a fixed point of φ(·, -2). */
  lemma MinusTwoFixedPoint(c: Complex)
    requires c == Complex(-2.0, 0.0)
    ensures Phi(Complex(2.0, 0.0), c) == Complex(2.0, 0.0)
  {
    assert Mul(Complex(2.0, 0.0), Complex(2.0, 0.0)) == Complex(4.0, 0.0);
  }

  /** For c = -2 the orbit of 0 has settled on the fixed point 2 by step 1000. */
  lemma MinusTwoSettles(c: Complex)
    requires c == Complex(-2.0, 0.0)
    ensures Orbit(Zero, c, OrbitDepth) == Complex(2.0, 0.0)
  {
    MinusTwoTwoSteps(c);
    MinusTwoFixedPoint(c);
    SettlesByDepth(c, Complex(2.0, 0.0));
  }

  /** An orbit of 0 that reaches a fixed point w in two steps is at w at step 1000. */
  lemma SettlesByDepth(c: Complex, w: Complex)
    requires Orbit(Zero, c, 2) == w && Phi(w, c) == w
    ensures Orbit(Zero, c, OrbitDepth) == w
  {
    OrbitSettles(Zero, c, w, 2, OrbitDepth);
  }

  /**
   * First step in [i, limit) at which the orbit of 0 under φ escapes,
   * or None if none does.
   */
  function EscapeIndex(c: Complex, i: nat, limit: nat): (r: Option<nat>)
    decreases limit - i, c
    ensures r.Some? ==> i <= r.value < limit && Escapes(Orbit(Zero, c, r.value))
    ensures r.Some? ==> forall j | i <= j < r.value :: !Escapes(Orbit(Zero, c, j))
    ensures r.None? ==> forall j | i <= j < limit :: !Escapes(Orbit(Zero, c, j))
  {
    if i >= limit then None
    else if Escapes(Orbit(Zero, c, i)) then Some(i)
    else EscapeIndex(c, i + 1, limit)
  }

  /**
   * `escape_time`: starting at z = 0, test |z|² > 4 before each update
   * z ← z² + c and return the step at which it first holds.
   */
  method EscapeTime(c: Complex, limit: nat) returns (r: Option<nat>)
    ensures r == EscapeIndex(c, 0, limit)
  {
    var z := Zero;
    for i := 0 to limit
      invariant z == Orbit(Zero, c, i)
      invariant EscapeIndex(c, 0, limit) == EscapeIndex(c, i, limit)
    {
      if Escapes(z) {
        return Some(i);
      }
      z := Phi(z, c);
    }
    return None;
  }

  /** A point with |c| > 2 is seen to escape at step 1 once the budget allows two steps. */
  lemma EscapeOutsideRadiusTwo(c: Complex, limit: nat)
    requires Escapes(c) && limit >= 2
    ensures EscapeIndex(c, 0, limit) == Some(1)
  {
    assert Orbit(Zero, c, 0) == Zero;
    assert Orbit(Zero, c, 1) == c;
  }

  /** A larger budget does not change an escape already found. */
  lemma EscapeStable(c: Complex, limit: nat, larger: nat)
    requires limit <= larger && EscapeIndex(c, 0, limit).Some?
    ensures EscapeIndex(c, 0, larger) == EscapeIndex(c, 0, limit)
  {
  }

  /** The per-pixel classification: escaped after a count, or interior with a period (0 = unknown). */
  datatype Classification = Escaped(count: nat) | Interior(period: nat)
}

/**
 * The pixel ↔ plane geometry and the row-major layout of the pixel buffer.
 */
module Geometry {
  import opened ComplexPlane

  /** One greyscale pixel or colour channel, a `u8`. */
  type Byte = x: int | 0 <= x < 256

  /**
   * `pixel_to_point`: affine map of pixel (column, row) of a width × height
   * raster onto the rectangle with corners upperLeft and lowerRight. The
   * imaginary coordinate decreases as the row grows.
   */
  function PixelToPoint(bounds: (nat, nat), pixel: (nat, nat), upperLeft: Complex, lowerRight: Complex): Complex
    requires bounds.0 > 0 && bounds.1 > 0
  {
    var width := lowerRight.re - upperLeft.re;
    var height := upperLeft.im - lowerRight.im;
    Complex(upperLeft.re + Offset(pixel.0, width, bounds.0), upperLeft.im - Offset(pixel.1, height, bounds.1))
  }

  /** The share k / count of an extent, `k as f64 * extent / count as f64`. */
  function Offset(k: nat, extent: real, count: nat): real
    requires count > 0
  {
    (k as real) * extent / (count as real)
  }

  /** Pixel (0, 0) is the upper-left corner and pixel (width, height) the lower-right one. */
  lemma PixelToPointCorners(bounds: (nat, nat), upperLeft: Complex, lowerRight: Complex)
    requires bounds.0 > 0 && bounds.1 > 0
    ensures PixelToPoint(bounds, (0, 0), upperLeft, lowerRight) == upperLeft
    ensures PixelToPoint(bounds, bounds, upperLeft, lowerRight) == lowerRight
  {
  }

  /**
   * In a viewport with upperLeft.re < lowerRight.re and upperLeft.im > lowerRight.im,
   * moving right increases the real part and moving down decreases the imaginary part.
   */
  lemma PixelToPointOrientation(bounds: (nat, nat), p: (nat, nat), q: (nat, nat), upperLeft: Complex, lowerRight: Complex)
    requires bounds.0 > 0 && bounds.1 > 0
    requires upperLeft.re < lowerRight.re && upperLeft.im > lowerRight.im
    ensures p.0 < q.0 ==> PixelToPoint(bounds, p, upperLeft, lowerRight).re < PixelToPoint(bounds, q, upperLeft, lowerRight).re
    ensures p.1 < q.1 ==> PixelToPoint(bounds, p, upperLeft, lowerRight).im > PixelToPoint(bounds, q, upperLeft, lowerRight).im
  {
    if p.0 < q.0 {
      OffsetStrict(p.0, q.0, lowerRight.re - upperLeft.re, bounds.0);
    }
    if p.1 < q.1 {
      OffsetStrict(p.1, q.1, upperLeft.im - lowerRight.im, bounds.1);
    }
  }

  /** Over a positive extent, the share grows strictly with k. */
  lemma OffsetStrict(j: nat, k: nat, extent: real, count: nat)
    requires j < k && extent > 0.0 && count > 0
    ensures Offset(j, extent, count) < Offset(k, extent, count)
  {
    assert (j as real) * extent < (k as real) * extent;
  }

  /** The worked example: pixel (25, 175) of 100 × 200 over (-1, 1)..(1, -1) is (-0.5, -0.75). */
  lemma PixelToPointExample()
    ensures PixelToPoint((100, 200), (25, 175), Complex(-1.0, 1.0), Complex(1.0, -1.0)) == Complex(-0.5, -0.75)
  {
  }

  /** Buffer position `row * width + column` of a pixel. */
  function Index(width: nat, row: nat, column: nat): nat {
    row * width + column
  }

  lemma {:induction false} MulMonotone(a: nat, b: nat, w: nat)
    requires a <= b
    ensures a * w <= b * w
  {
    if a < b {
      MulMonotone(a, b - 1, w);
    }
  }

  /** Every pixel's position lies inside a buffer of width * height cells. */
  lemma IndexInBounds(width: nat, height: nat, row: nat, column: nat)
    requires row < height && column < width
    ensures Index(width, row, column) < width * height
  {
    MulMonotone(row + 1, height, width);
  }

  /** Row-major order: a pixel earlier in the sweep has a smaller position. */
  lemma IndexOrder(width: nat, row: nat, column: nat, row': nat, column': nat)
    requires column < width
    requires row < row' || (row == row' && column < column')
    ensures Index(width, row, column) < Index(width, row', column')
  {
    if row < row' {
      MulMonotone(row + 1, row', width);
    }
  }

  /** Distinct pixels have distinct positions, so no cell is written twice. */
  lemma IndexInjective(width: nat, row: nat, column: nat, row': nat, column': nat)
    requires column < width && column' < width
    requires Index(width, row, column) == Index(width, row', column')
    ensures row == row' && column == column'
  {
    if row < row' || (row == row' && column < column') {
      IndexOrder(width, row, column, row', column');
    } else if row' < row || (row == row' && column' < column) {
      IndexOrder(width, row', column', row, column);
    }
  }

  /** The pixel (column, row) whose position is i: the inverse of Index. */
  function PixelAt(width: nat, i: nat): (p: (nat, nat))
    requires width > 0
    ensures p.0 < width && Index(width, p.1, p.0) == i
  {
    (i % width, i / width)
  }

  /** Every cell of a width × height buffer is the position of a pixel of the raster. */
  lemma IndexCovers(width: nat, height: nat, i: nat)
    requires i < width * height
    ensures width > 0 && PixelAt(width, i).1 < height
  {
    var row := PixelAt(width, i).1;
    if row >= height {
      MulMonotone(height, row, width);
    }
  }

}
