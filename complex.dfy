/** Optional values, standing for Rust's `Option<T>` (and for a `Result` whose error is dropped). */
module Wrappers {
  datatype Option<+T> = None | Some(value: T)
}

/**
 * Complex numbers over the reals, standing for `num::Complex<f64>`.
 * The operations are the exact real counterparts of the floating-point ones
 * the renderer uses: addition, multiplication, scaling by a real and the
 * squared norm.
 */
module ComplexPlane {

  datatype Complex = Complex(re: real, im: real)

  const Zero := Complex(0.0, 0.0)
  const One := Complex(1.0, 0.0)

  function Add(a: Complex, b: Complex): Complex {
    Complex(a.re + b.re, a.im + b.im)
  }

  /*
   * The two nonlinear operations are given as function values and applied
   * through them, so that proofs about orbits treat them as opaque and only
   * the algebraic lemmas below and the worked examples look inside.
   */
  const Product: (Complex, Complex) -> Complex :=
    (a: Complex, b: Complex) => Complex(a.re * b.re - a.im * b.im, a.re * b.im + a.im * b.re)
  const SquaredNorm: Complex -> real :=
    (z: Complex) => z.re * z.re + z.im * z.im

  function Mul(a: Complex, b: Complex): Complex {
    Product(a, b)
  }

  /** `k * z` for a real `k`, as in `2. * z`. */
  function Scale(k: real, z: Complex): Complex {
    Complex(k * z.re, k * z.im)
  }

  /** `norm_sqr`: the squared magnitude re² + im². */
  function NormSqr(z: Complex): real {
    SquaredNorm(z)
  }

  lemma NormSqrNonNegative(z: Complex)
    ensures NormSqr(z) >= 0.0
  {
  }

  lemma MulComm(a: Complex, b: Complex)
    ensures Mul(a, b) == Mul(b, a)
  {
  }

  lemma MulAssoc(a: Complex, b: Complex, d: Complex)
    ensures Mul(Mul(a, b), d) == Mul(a, Mul(b, d))
  {
  }

  lemma MulOne(a: Complex)
    ensures Mul(One, a) == a && Mul(a, One) == a
  {
  }

  lemma MulZero(a: Complex)
    ensures Mul(Zero, a) == Zero && Mul(a, Zero) == Zero
  {
  }
}
