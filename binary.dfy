/**
 * The period estimator and renderer of the executable (src/main.rs), which
 * differ from the library's: λ is seeded at φ'(c) instead of φ'(z), the
 * period search starts from z itself without advancing the orbit, and the
 * greyscale renderer paints every escaping point white (255) with a coarser
 * period table.
 */
module Binary {
  import opened Wrappers
  import opened ComplexPlane
  import opened Mandelbrot
  import opened Geometry
  import opened Stability
  import Library

  /**
   * λ(z, c, n) of the executable: φ'(c) · φ'(φ_1(z)) · … · φ'(φ_{n-1}(z)),
   * multiplied from the left in loop order. For n = 0 the loop is empty and
   * λ is φ'(c).
   */
  function Multiplier(z: Complex, c: Complex, n: nat): Complex {
    if n <= 1 then PhiPrime(c) else Mul(Multiplier(z, c, n - 1), PhiPrime(Orbit(z, c, n - 1)))
  }

  /** `lambda`: `result = phi_prime(c)`, then `result = result * phi_prime(phi_n(z, c, iter))` for iter in 1..n. */
  method Lambda(z: Complex, c: Complex, n: nat) returns (result: Complex)
    ensures result == Multiplier(z, c, n)
  {
    result := PhiPrime(c);
    var iter := 1;
    while iter < n
      invariant 1 <= iter <= if n == 0 then 1 else n
      invariant result == Multiplier(z, c, iter)
    {
      var zi := PhiN(z, c, iter);
      assert Multiplier(z, c, iter + 1) == Mul(Multiplier(z, c, iter), PhiPrime(zi));
      result := Mul(result, PhiPrime(zi));
      iter := iter + 1;
    }
    assert Multiplier(z, c, 0) == Multiplier(z, c, 1);
  }

  /**
   * The two seeds differ only in the first factor: multiplying the
   * executable's λ by φ'(z) gives the library's λ multiplied by φ'(c).
   */
  lemma {:induction false} SeedSwap(z: Complex, c: Complex, n: nat)
    ensures Mul(Multiplier(z, c, n), PhiPrime(z)) == Mul(Library.Multiplier(z, c, n), PhiPrime(c))
  {
    if n <= 1 {
      MulComm(PhiPrime(c), PhiPrime(z));
    } else {
      var f := PhiPrime(Orbit(z, c, n - 1));
      var b, l := Multiplier(z, c, n - 1), Library.Multiplier(z, c, n - 1);
      SeedSwap(z, c, n - 1);
      calc {
        Mul(Mul(b, f), PhiPrime(z));
        { MulAssoc(b, f, PhiPrime(z)); MulComm(f, PhiPrime(z)); }
        Mul(b, Mul(PhiPrime(z), f));
        { MulAssoc(b, PhiPrime(z), f); }
        Mul(Mul(l, PhiPrime(c)), f);
        { MulAssoc(l, PhiPrime(c), f); MulComm(PhiPrime(c), f); }
        Mul(l, Mul(f, PhiPrime(c)));
        { MulAssoc(l, f, PhiPrime(c)); }
        Mul(Mul(l, f), PhiPrime(c));
      }
    }
  }

  /** Where the orbit starts at c itself the two λ coincide. */
  lemma {:induction false} SeedsAgreeAtC(c: Complex, n: nat)
    ensures Multiplier(c, c, n) == Library.Multiplier(c, c, n)
  {
    if n > 1 {
      SeedsAgreeAtC(c, n - 1);
    }
  }

  /** `is_period_p`: probe 40 successive orbit points, returning false at the first repelling one. */
  method IsPeriodP(z: Complex, c: Complex, n: nat) returns (b: bool)
    ensures b == IsPeriod(Multiplier, z, c, n)
  {
    var result := z;
    for k := 0 to MaxPeriod
      invariant IsPeriod(Multiplier, z, c, n) == StableFor(Multiplier, result, c, n, MaxPeriod - k)
    {
      var multiplier := Lambda(result, c, n);
      if !Attracting(multiplier) {
        return false;
      }
      result := Phi(result, c);
    }
    return true;
  }

  /**
   * The period the executable's `calculate_period` reports: the first p in
   * [1, 40) for which z itself (not an advanced orbit point) passes the
   * stability test, and 0 when none does.
   */
  function Period(z: Complex, c: Complex): (r: nat)
    ensures r == 0 || 1 <= r < MaxPeriod
  {
    FirstPeriodFrom(Multiplier, z, c, 1)
  }

  /** The reported period is the least passing candidate, and 0 exactly when none passes. */
  lemma PeriodIsFirst(z: Complex, c: Complex)
    ensures Period(z, c) != 0 ==>
      IsPeriod(Multiplier, z, c, Period(z, c)) && forall q | 1 <= q < Period(z, c) :: !IsPeriod(Multiplier, z, c, q)
    ensures Period(z, c) == 0 ==> forall q | 1 <= q < MaxPeriod :: !IsPeriod(Multiplier, z, c, q)
    ensures (exists q | 1 <= q < MaxPeriod :: IsPeriod(Multiplier, z, c, q)) ==> Period(z, c) != 0
  {
    FirstPeriodFromIsFirst(Multiplier, z, c, 1);
  }

  /** `calculate_period`: search p = 1, 2, … from z and break at the first hit. */
  method CalculatePeriod(z: Complex, c: Complex) returns (period: nat)
    ensures period == Period(z, c)
  {
    period := 0;
    for p := 1 to MaxPeriod
      invariant period == 0
      invariant forall q | 1 <= q < p :: !IsPeriod(Multiplier, z, c, q)
    {
      var found := IsPeriodP(z, c, p);
      if found {
        period := p;
        FirstPeriodFromFinds(Multiplier, z, c, 1, p);
        break;
      }
    }
    if period == 0 {
      FirstPeriodFromNone(Multiplier, z, c, 1);
    }
  }

  /** How a rendered point is classified: escape count below 255, or a period in {0} ∪ [1, 40). */
  function Classify(c: Complex): (r: Classification)
    ensures r.Escaped? <==> EscapeIndex(c, 0, IterationLimit).Some?
    ensures r.Escaped? ==> r.count < IterationLimit && r.count == EscapeIndex(c, 0, IterationLimit).value
    ensures r.Interior? ==> r.period < MaxPeriod && r.period == Period(Zero, c)
  {
    match EscapeIndex(c, 0, IterationLimit)
    case Some(count) => Escaped(count)
    case None => Interior(Period(Zero, c))
  }

  /** The period table of the executable's `render`. */
  function PeriodGrey(period: nat): Byte {
    match period
    case 0 => 210  // interior, period undetermined
    case 1 => 0
    case 2 => 100
    case 3 => 150
    case 4 => 160
    case 5 => 170
    case 6 => 180
    case 7 => 190
    case _ => 200
  }

  /**
   * Periods 0..8 get pairwise distinct greys, from period 1 on the grey never
   * darkens, and no period is painted white.
   */
  lemma PeriodGreyBands(p: nat, q: nat)
    ensures p != q && p <= 8 && q <= 8 ==> PeriodGrey(p) != PeriodGrey(q)
    ensures 1 <= p <= q ==> PeriodGrey(p) <= PeriodGrey(q)
    ensures PeriodGrey(p) <= 210 && (PeriodGrey(p) == 210 <==> p == 0)
  {
  }

  /**
   * The byte `render` writes for a point: white when it escapes, the period's
   * grey otherwise. White marks exactly the escaping points.
   */
  function Shade(c: Complex): (v: Byte)
    ensures Classify(c).Escaped? ==> v == 255
    ensures Classify(c).Interior? ==> v == PeriodGrey(Classify(c).period)
    ensures v == 255 <==> EscapeIndex(c, 0, IterationLimit).Some?
  {
    match Classify(c)
    case Escaped(_) => 255
    case Interior(period) => PeriodGreyBands(period, period); PeriodGrey(period)
  }

  /** The body of the `render` sweep for one point: escape test, then period search and table. */
  method ShadePoint(point: Complex) returns (value: Byte)
    ensures value == Shade(point)
  {
    var time := EscapeTime(point, IterationLimit);
    match time {
      case None =>
        var period := CalculatePeriod(Zero, point);
        value := PeriodGrey(period);
      case Some(_) =>
        value := 255;
    }
  }

  /*
   * `Shade` as a function value, for the same reason as `Library.ShadeOf`.
   */
  const ShadeOf: Complex -> Byte := Shade

  /**
   * `render`: for each row, then each column, classify the pixel's point and
   * write its byte at `row * width + column`; each cell ends up holding its
   * own pixel's shade.
   */
  method Render(pixels: array<Byte>, bounds: (nat, nat), upperLeft: Complex, lowerRight: Complex)
    requires pixels.Length == bounds.0 * bounds.1
    modifies pixels
    ensures forall row, column | 0 <= row < bounds.1 && 0 <= column < bounds.0 ::
      Index(bounds.0, row, column) < pixels.Length &&
      pixels[Index(bounds.0, row, column)] == ShadeOf(PixelToPoint(bounds, (column, row), upperLeft, lowerRight))
    ensures forall i | 0 <= i < pixels.Length ::
      pixels[i] == ShadeOf(PixelToPoint(bounds, PixelAt(bounds.0, i), upperLeft, lowerRight))
  {
    var (width, height) := bounds;
    for row := 0 to height
      invariant forall r, col | 0 <= r < row && 0 <= col < width ::
        Index(width, r, col) < pixels.Length &&
        pixels[Index(width, r, col)] == ShadeOf(PixelToPoint(bounds, (col, r), upperLeft, lowerRight))
    {
      for column := 0 to width
        invariant forall r, col | 0 <= r < row && 0 <= col < width ::
          Index(width, r, col) < pixels.Length &&
          pixels[Index(width, r, col)] == ShadeOf(PixelToPoint(bounds, (col, r), upperLeft, lowerRight))
        invariant forall col | 0 <= col < column ::
          Index(width, row, col) < pixels.Length &&
          pixels[Index(width, row, col)] == ShadeOf(PixelToPoint(bounds, (col, row), upperLeft, lowerRight))
      {
        var point := PixelToPoint(bounds, (column, row), upperLeft, lowerRight);
        var value := ShadePoint(point);
        IndexInBounds(width, height, row, column);
        forall r, col | 0 <= r < row && 0 <= col < width
          ensures Index(width, r, col) != Index(width, row, column)
        {
          IndexOrder(width, r, col, row, column);
        }
        forall col | 0 <= col < column
          ensures Index(width, row, col) != Index(width, row, column)
        {
          IndexOrder(width, row, col, row, column);
        }
        pixels[Index(width, row, column)] := value;
      }
    }
    forall i | 0 <= i < pixels.Length
      ensures pixels[i] == ShadeOf(PixelToPoint(bounds, PixelAt(bounds.0, i), upperLeft, lowerRight))
    {
      IndexCovers(width, height, i);
    }
  }

  /** The executable's `lambda` test: λ(0, 1 + i, 1) = φ'(1 + i) = 2 + 2i. */
  lemma LambdaExample()
    ensures Multiplier(Zero, Complex(1.0, 1.0), 1) == Complex(2.0, 2.0)
  {
  }

  /**
   * The first of the commented-out `lambda` tests: for c = -2 the executable's
   * λ(0, c, 1) is φ'(-2) = -4, so |λ|² = 16, i.e. |λ| = 4.
   */
  lemma LambdaAtMinusTwo(c: Complex)
    requires c == Complex(-2.0, 0.0)
    ensures NormSqr(Multiplier(Zero, c, 1)) == 16.0
  {
    assert Multiplier(Zero, c, 1) == Complex(-4.0, 0.0);
  }

  /**
   * The `is_period_p` and `calculate_period` tests for z = c = 0: 0 is a fixed
   * point with λ = φ'(c) = 0, so period 1 passes at once. The point is a
   * parameter, as in `Library.LambdaAtMinusTwo`.
   */
  lemma PeriodAtOrigin(z: Complex, c: Complex)
    requires z == Zero && c == Zero
    ensures IsPeriod(Multiplier, z, c, 1)
    ensures Period(z, c) == 1
  {
    MulZero(Zero);
    assert Phi(z, c) == z;
    assert Multiplier(z, c, 1) == Zero;
    assert NormSqr(Zero) == 0.0;
    FixedPointStable(Multiplier, z, c, 1, MaxPeriod);
  }

  /**
   * In the executable λ(w, c, 1) is φ'(c) whatever w is, so when |2c|² < 1
   * period 1 passes from every starting point and is reported.
   */
  lemma PeriodOneWhenSeedAttracts(z: Complex, c: Complex)
    requires Attracting(PhiPrime(c))
    ensures IsPeriod(Multiplier, z, c, 1)
    ensures Period(z, c) == 1
  {
    InvariantRegionStable(Multiplier, (w: Complex) => true, z, c, 1, MaxPeriod);
    FirstPeriodFromFinds(Multiplier, z, c, 1, 1);
  }

  /**
   * The second `is_period_p` and `calculate_period` tests, z = 0 and
   * c = -0.1 + 0.1i: |φ'(c)|² = 4 · 0.02 = 0.08 < 1.
   */
  lemma PeriodNearOrigin(z: Complex, c: Complex)
    requires z == Zero && c == Complex(-0.1, 0.1)
    ensures IsPeriod(Multiplier, z, c, 1)
    ensures Period(z, c) == 1
  {
    PhiPrimeNorm(c);
    assert NormSqr(c) == 0.02;
    PeriodOneWhenSeedAttracts(z, c);
  }
}
