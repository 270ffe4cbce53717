/**
 * The period estimator and renderers of the library copy (src/lib.rs):
 * λ seeded at φ'(z), the stability probe, the period search from the orbit
 * point φ_1000(z), the greyscale renderer and the colour of a pixel in the
 * colourised renderer.
 */
module Library {
  import opened Wrappers
  import opened ComplexPlane
  import opened Mandelbrot
  import opened Geometry
  import opened Stability

  datatype Rgb = Rgb(red: Byte, green: Byte, blue: Byte)

  /**
   * λ(z, c, n) of the library: φ'(z) · φ'(φ_1(z)) · … · φ'(φ_{n-1}(z)),
   * multiplied from the left in loop order. For n = 0 the loop is empty and
   * λ is φ'(z).
   */
  function Multiplier(z: Complex, c: Complex, n: nat): Complex {
    if n <= 1 then PhiPrime(z) else Mul(Multiplier(z, c, n - 1), PhiPrime(Orbit(z, c, n - 1)))
  }

  /** `lambda`: `result = phi_prime(z)`, then `result *= phi_prime(phi_n(z, c, iter))` for iter in 1..n. */
  method Lambda(z: Complex, c: Complex, n: nat) returns (result: Complex)
    ensures result == Multiplier(z, c, n)
  {
    result := PhiPrime(z);
    var iter := 1;
    while iter < n
      invariant 1 <= iter <= if n == 0 then 1 else n
      invariant result == Multiplier(z, c, iter)
    {
      var zi := PhiN(z, c, iter);
      assert Multiplier(z, c, iter + 1) == Mul(Multiplier(z, c, iter), PhiPrime(zi));
      result := Mul(result, PhiPrime(zi));
      iter := iter + 1;
    }
    assert Multiplier(z, c, 0) == Multiplier(z, c, 1);
  }

  /** Peeling the first factor: λ(z, c, n+1) = φ'(z) · λ(φ(z), c, n) for n ≥ 1. */
  lemma {:induction false} MultiplierShift(z: Complex, c: Complex, n: nat)
    requires n >= 1
    ensures Multiplier(z, c, n + 1) == Mul(PhiPrime(z), Multiplier(Phi(z, c), c, n))
  {
    if n == 1 {
      assert Orbit(z, c, 1) == Phi(z, c);
    } else {
      MultiplierShift(z, c, n - 1);
      OrbitShift(z, c, n - 1);
      MulAssoc(PhiPrime(z), Multiplier(Phi(z, c), c, n - 1), PhiPrime(Orbit(z, c, n)));
    }
  }

  /** For n ≥ 1 the library's λ is the derivative of φ_n at z (chain rule). */
  lemma {:induction false} MultiplierIsDerivative(z: Complex, c: Complex, n: nat)
    requires n >= 1
    ensures Multiplier(z, c, n) == OrbitDerivative(z, c, n)
    decreases n
  {
    if n == 1 {
      assert OrbitDerivative(Phi(z, c), c, 0) == One;
      MulOne(PhiPrime(z));
    } else {
      MultiplierIsDerivative(Phi(z, c), c, n - 1);
      MultiplierShift(z, c, n - 1);
      MulComm(PhiPrime(z), OrbitDerivative(Phi(z, c), c, n - 1));
    }
  }

  /** `is_period_p`: probe 40 successive orbit points, returning false at the first repelling one. */
  method IsPeriodP(z: Complex, c: Complex, n: nat) returns (b: bool)
    ensures b == IsPeriod(Multiplier, z, c, n)
  {
    var result := z;
    for k := 0 to MaxPeriod
      invariant IsPeriod(Multiplier, z, c, n) == StableFor(Multiplier, result, c, n, MaxPeriod - k)
    {
      var multiplier := Lambda(result, c, n);
      if !Attracting(multiplier) {
        return false;
      }
      result := Phi(result, c);
    }
    return true;
  }

  /**
   * The period `calculate_period` reports: the first p in [1, 40) for which the
   * orbit point φ_1000(z) passes the stability test, and 0 when none does.
   */
  function Period(z: Complex, c: Complex): (r: nat)
    ensures r == 0 || 1 <= r < MaxPeriod
  {
    FirstPeriodFrom(Multiplier, Orbit(z, c, OrbitDepth), c, 1)
  }

  /** The reported period is the least passing candidate, and 0 exactly when none passes. */
  lemma PeriodIsFirst(z: Complex, c: Complex)
    ensures Period(z, c) != 0 ==>
      IsPeriod(Multiplier, Orbit(z, c, OrbitDepth), c, Period(z, c)) && forall q | 1 <= q < Period(z, c) :: !IsPeriod(Multiplier, Orbit(z, c, OrbitDepth), c, q)
    ensures Period(z, c) == 0 ==> forall q | 1 <= q < MaxPeriod :: !IsPeriod(Multiplier, Orbit(z, c, OrbitDepth), c, q)
    ensures (exists q | 1 <= q < MaxPeriod :: IsPeriod(Multiplier, Orbit(z, c, OrbitDepth), c, q)) ==> Period(z, c) != 0
  {
    FirstPeriodFromIsFirst(Multiplier, Orbit(z, c, OrbitDepth), c, 1);
  }

  /** `calculate_period`: advance 1000 steps, then search p = 1, 2, … and break at the first hit. */
  method CalculatePeriod(z: Complex, c: Complex) returns (period: nat)
    ensures period == Period(z, c)
  {
    period := 0;
    var zn := PhiN(z, c, OrbitDepth);
    for p := 1 to MaxPeriod
      invariant period == 0
      invariant forall q | 1 <= q < p :: !IsPeriod(Multiplier, zn, c, q)
    {
      var found := IsPeriodP(zn, c, p);
      if found {
        period := p;
        FirstPeriodFromFinds(Multiplier, zn, c, 1, p);
        break;
      }
    }
    if period == 0 {
      FirstPeriodFromNone(Multiplier, zn, c, 1);
    }
  }

  /** How a rendered point is classified: escape count below 255, or a period in {0} ∪ [1, 40). */
  function Classify(c: Complex): (r: Classification)
    ensures r.Escaped? <==> EscapeIndex(c, 0, IterationLimit).Some?
    ensures r.Escaped? ==> r.count < IterationLimit && r.count == EscapeIndex(c, 0, IterationLimit).value
    ensures r.Interior? ==> r.period < MaxPeriod && r.period == Period(Zero, c)
  {
    match EscapeIndex(c, 0, IterationLimit)
    case Some(count) => Escaped(count)
    case None => Interior(Period(Zero, c))
  }

  /** The greyscale period table of `render_greyscale`. */
  function PeriodGrey(period: nat): Byte {
    match period
    case 0 => 210  // interior, period undetermined
    case 1 => 0
    case 2 => 50
    case 3 => 100
    case 4 => 120
    case 5 => 130
    case 6 => 140
    case 7 => 150
    case 8 => 160
    case 9 => 170
    case 10 => 180
    case 11 => 190
    case _ => 200
  }

  /** Periods 0..12 get pairwise distinct greys, and from period 1 on the grey never darkens. */
  lemma PeriodGreyBands(p: nat, q: nat)
    ensures p != q && p <= 12 && q <= 12 ==> PeriodGrey(p) != PeriodGrey(q)
    ensures 1 <= p <= q ==> PeriodGrey(p) <= PeriodGrey(q)
    ensures PeriodGrey(p) == 210 <==> p == 0
  {
  }

  /**
   * The byte `render_greyscale` writes for a point: `255 - count` when it
   * escapes (never below 1, so `255 as u8 - count as u8` cannot underflow),
   * the period's grey otherwise.
   */
  function Shade(c: Complex): (v: Byte)
    ensures Classify(c).Escaped? ==> 1 <= v && v + Classify(c).count == IterationLimit
    ensures Classify(c).Interior? ==> v == PeriodGrey(Classify(c).period)
  {
    match Classify(c)
    case Escaped(count) => IterationLimit - count
    case Interior(period) => PeriodGrey(period)
  }

  /** The colour table of `render_colorized`, indexed by period. */
  function PeriodRgb(period: nat): Rgb {
    match period
    case 0 => Rgb(24, 25, 41)  // interior, period undetermined
    case 1 => Rgb(61, 64, 105)
    case 2 => Rgb(38, 63, 143)
    case 3 => Rgb(0, 127, 150)
    case 4 => Rgb(0, 160, 132)
    case 5 => Rgb(0, 144, 69)
    case 6 => Rgb(0, 184, 0)
    case 7 => Rgb(131, 206, 0)
    case 8 => Rgb(139, 235, 0)
    case 9 => Rgb(255, 249, 0)
    case 10 => Rgb(252, 200, 0)
    case 11 => Rgb(250, 120, 2)
    case 12 => Rgb(241, 56, 1)
    case 13 => Rgb(255, 15, 15)
    case 14 => Rgb(233, 0, 65)
    case 15 => Rgb(179, 0, 96)
    case 16 => Rgb(148, 1, 146)
    case 17 => Rgb(97, 0, 141)
    case 18 => Rgb(63, 3, 110)
    case 19 => Rgb(2, 2, 97)
    case 20 => Rgb(4, 46, 116)
    case 21 => Rgb(0, 66, 66)
    case 22 => Rgb(10, 80, 27)
    case 23 => Rgb(17, 83, 14)
    case 24 => Rgb(29, 95, 2)
    case 25 => Rgb(75, 79, 7)
    case 26 => Rgb(83, 62, 3)
    case 27 => Rgb(76, 45, 5)
    case 28 => Rgb(35, 16, 8)
    case 29 => Rgb(31, 15, 10)
    case 30 => Rgb(41, 29, 24)
    case _ => Rgb(0, 0, 0)
  }

  /** Periods 0..31 get pairwise distinct colours; every period from 31 on is black. */
  lemma PeriodRgbDistinct(p: nat, q: nat)
    ensures p != q && p <= 31 && q <= 31 ==> PeriodRgb(p) != PeriodRgb(q)
    ensures p >= 31 ==> PeriodRgb(p) == Rgb(0, 0, 0)
  {
  }

  /**
   * The colour `render_colorized` gives a point: the grey triple (v, v, v) with
   * the greyscale renderer's v when it escapes, the period's colour otherwise.
   */
  function PixelColor(c: Complex): (r: Rgb)
    ensures Classify(c).Escaped? ==> r.red == r.green == r.blue == Shade(c)
    ensures Classify(c).Interior? ==> r == PeriodRgb(Classify(c).period)
  {
    match Classify(c)
    case Escaped(count) =>
      var v := IterationLimit - count;
      Rgb(v, v, v)
    case Interior(period) => PeriodRgb(period)
  }

  /** The body of the `render_greyscale` sweep for one point: escape test, then period search and table. */
  method ShadePoint(point: Complex) returns (value: Byte)
    ensures value == Shade(point)
  {
    var time := EscapeTime(point, IterationLimit);
    match time {
      case None =>
        var period := CalculatePeriod(Zero, point);
        value := PeriodGrey(period);
      case Some(count) =>
        value := IterationLimit - count;
    }
  }

  /*
   * `Shade` as a function value: the render loops' frame reasoning then sees
   * one opaque application per pixel instead of unfolding the classification
   * behind every cell of the quantified invariants.
   */
  const ShadeOf: Complex -> Byte := Shade

  /**
   * One pass of the inner loop of `render_greyscale`: classify each pixel of
   * `row` and write its byte at `row * width + column`. Only that row's cells
   * change.
   */
  method RenderGreyscaleRow(pixels: array<Byte>, bounds: (nat, nat), upperLeft: Complex, lowerRight: Complex, row: nat)
    requires pixels.Length == bounds.0 * bounds.1 && row < bounds.1
    modifies pixels
    ensures forall column | 0 <= column < bounds.0 ::
      Index(bounds.0, row, column) < pixels.Length &&
      pixels[Index(bounds.0, row, column)] == ShadeOf(PixelToPoint(bounds, (column, row), upperLeft, lowerRight))
    ensures forall i | 0 <= i < pixels.Length && !(Index(bounds.0, row, 0) <= i < Index(bounds.0, row, bounds.0)) ::
      pixels[i] == old(pixels[i])
  {
    var width := bounds.0;
    var start := Index(width, row, 0);
    for column := 0 to width
      invariant forall col | 0 <= col < column ::
        Index(width, row, col) < pixels.Length &&
        pixels[Index(width, row, col)] == ShadeOf(PixelToPoint(bounds, (col, row), upperLeft, lowerRight))
      invariant forall i | 0 <= i < pixels.Length && !(start <= i < Index(width, row, column)) ::
        pixels[i] == old(pixels[i])
    {
      var point := PixelToPoint(bounds, (column, row), upperLeft, lowerRight);
      var value := ShadePoint(point);
      IndexInBounds(width, bounds.1, row, column);
      assert Index(width, row, column + 1) == Index(width, row, column) + 1;
      pixels[Index(width, row, column)] := value;
    }
  }

  /**
   * `render_greyscale`: for each row, then each column, classify the pixel's
   * point and write its byte at `row * width + column`. Every such position is
   * in bounds, distinct pixels have distinct positions and every cell is one
   * (Geometry.IndexInjective, Geometry.IndexCovers), so each cell is written
   * exactly once and ends up holding its own pixel's shade.
   */
  method RenderGreyscale(pixels: array<Byte>, bounds: (nat, nat), upperLeft: Complex, lowerRight: Complex)
    requires pixels.Length == bounds.0 * bounds.1
    modifies pixels
    ensures forall row, column | 0 <= row < bounds.1 && 0 <= column < bounds.0 ::
      Index(bounds.0, row, column) < pixels.Length &&
      pixels[Index(bounds.0, row, column)] == ShadeOf(PixelToPoint(bounds, (column, row), upperLeft, lowerRight))
    ensures forall i | 0 <= i < pixels.Length ::
      pixels[i] == ShadeOf(PixelToPoint(bounds, PixelAt(bounds.0, i), upperLeft, lowerRight))
  {
    var (width, height) := bounds;
    for row := 0 to height
      invariant forall r, col | 0 <= r < row && 0 <= col < width ::
        Index(width, r, col) < pixels.Length &&
        pixels[Index(width, r, col)] == ShadeOf(PixelToPoint(bounds, (col, r), upperLeft, lowerRight))
    {
      RenderGreyscaleRow(pixels, bounds, upperLeft, lowerRight, row);
      forall r, col | 0 <= r < row && 0 <= col < width
        ensures Index(width, r, col) < Index(width, row, 0)
      {
        IndexOrder(width, r, col, row, 0);
      }
    }
    forall i | 0 <= i < pixels.Length
      ensures pixels[i] == ShadeOf(PixelToPoint(bounds, PixelAt(bounds.0, i), upperLeft, lowerRight))
    {
      IndexCovers(width, height, i);
    }
  }

  /** From a fixed point of φ whose λ of period 1 is attracting, the orbit stays put and period 1 is reported. */
  lemma PeriodAtFixedPoint(z: Complex, c: Complex)
    requires Phi(z, c) == z && Attracting(Multiplier(z, c, 1))
    ensures Period(z, c) == 1
  {
    OrbitFixed(z, c, OrbitDepth);
    FixedPointStable(Multiplier, z, c, 1, MaxPeriod);
  }

  /**
   * On a set that φ maps into itself and where every λ(w, c, 1) = φ'(w) is
   * attracting, period 1 passes from any point of the set and is reported.
   */
  lemma PeriodOnInvariantRegion(inside: Complex -> bool, z: Complex, c: Complex)
    requires inside(z)
    requires forall w | inside(w) :: inside(Phi(w, c)) && Attracting(PhiPrime(w))
    ensures IsPeriod(Multiplier, z, c, 1)
    ensures Period(z, c) == 1
  {
    forall w | inside(w)
      ensures inside(Phi(w, c)) && Attracting(Multiplier(w, c, 1))
    {
    }
    InvariantRegionStable(Multiplier, inside, z, c, 1, MaxPeriod);
    var zn := Orbit(z, c, OrbitDepth);
    OrbitInvariant(inside, z, c, OrbitDepth);
    InvariantRegionStable(Multiplier, inside, zn, c, 1, MaxPeriod);
    FirstPeriodFromFinds(Multiplier, zn, c, 1, 1);
  }

  /** The `phi_prime` test: φ'(1 + i) = 2 + 2i. */
  lemma PhiPrimeExample()
    ensures PhiPrime(Complex(1.0, 1.0)) == Complex(2.0, 2.0)
  {
  }

  /** The `phi` and `phi_n` tests: with z = c = 1 + i, φ_1 = φ = 1 + 3i and φ_2 = φ(φ_1) = -7 + 7i. */
  lemma PhiNExamples()
    ensures Orbit(Complex(1.0, 1.0), Complex(1.0, 1.0), 1) == Phi(Complex(1.0, 1.0), Complex(1.0, 1.0)) == Complex(1.0, 3.0)
    ensures Orbit(Complex(1.0, 1.0), Complex(1.0, 1.0), 2) == Phi(Complex(1.0, 3.0), Complex(1.0, 1.0)) == Complex(-7.0, 7.0)
  {
    var w := Complex(1.0, 1.0);
    assert Mul(w, w) == Complex(0.0, 2.0);
    assert Mul(Complex(1.0, 3.0), Complex(1.0, 3.0)) == Complex(-8.0, 6.0);
  }

  /**
   * The first `lambda` test: for c = -2, the orbit of 0 has settled on the
   * fixed point 2 by step 1000, where λ of period 1 is φ'(2) = 4, so |λ|² = 16.
   */
  lemma LambdaAtMinusTwo(c: Complex)
    requires c == Complex(-2.0, 0.0)
    ensures NormSqr(Multiplier(Orbit(Zero, c, OrbitDepth), c, 1)) == 16.0
  {
    var w := Orbit(Zero, c, OrbitDepth);
    MinusTwoSettles(c);
    assert Multiplier(w, c, 1) == Complex(4.0, 0.0);
    assert NormSqr(Complex(4.0, 0.0)) == 16.0;
  }

  /** The second `lambda` test: λ(0, 1 + i, 1) = φ'(0) = 0. */
  lemma LambdaAtOrigin()
    ensures Multiplier(Zero, Complex(1.0, 1.0), 1) == Zero
  {
  }

  /**
   * The `is_period_p` and `calculate_period` tests for z = c = 0: 0 is a fixed
   * point with λ = φ'(0) = 0, so period 1 passes at once. The point is a
   * parameter, as in `LambdaAtMinusTwo`.
   */
  lemma PeriodAtOrigin(z: Complex, c: Complex)
    requires z == Zero && c == Zero
    ensures IsPeriod(Multiplier, z, c, 1)
    ensures Period(z, c) == 1
  {
    MulZero(Zero);
    assert Phi(z, c) == z;
    assert Multiplier(z, c, 1) == Zero;
    assert NormSqr(Zero) == 0.0;
    FixedPointStable(Multiplier, z, c, 1, MaxPeriod);
    PeriodAtFixedPoint(z, c);
  }

  /** For c = -0.1 + 0.1i, φ maps the disc |w|² ≤ 0.04 into itself and |φ'(w)|² = 4 |w|² ≤ 0.16 there. */
  lemma SmallDiscAttracts(c: Complex)
    requires c == Complex(-0.1, 0.1)
    ensures forall w | NormSqr(w) <= 0.04 :: NormSqr(Phi(w, c)) <= 0.04 && Attracting(PhiPrime(w))
  {
    forall w | NormSqr(w) <= 0.04
      ensures NormSqr(Phi(w, c)) <= 0.04 && Attracting(PhiPrime(w))
    {
      SmallDiscInvariant(w, c);
      PhiPrimeNorm(w);
    }
  }

  /** For c = -0.1 + 0.1i, period 1 is reported from every point of the disc |z|² ≤ 0.04. */
  lemma PeriodOnSmallDisc(z: Complex, c: Complex)
    requires c == Complex(-0.1, 0.1) && NormSqr(z) <= 0.04
    ensures IsPeriod(Multiplier, z, c, 1)
    ensures Period(z, c) == 1
  {
    SmallDiscAttracts(c);
    PeriodOnInvariantRegion((w: Complex) => NormSqr(w) <= 0.04, z, c);
  }

  /**
   * The second `is_period_p` and `calculate_period` tests, z = 0 and
   * c = -0.1 + 0.1i: φ maps the disc |w|² ≤ 0.04 into itself, and there
   * |φ'(w)|² = 4 |w|² ≤ 0.16 < 1.
   */
  lemma PeriodNearOrigin(z: Complex, c: Complex)
    requires z == Zero && c == Complex(-0.1, 0.1)
    ensures IsPeriod(Multiplier, z, c, 1)
    ensures Period(z, c) == 1
  {
    assert NormSqr(z) == 0.0;
    PeriodOnSmallDisc(z, c);
  }
}
