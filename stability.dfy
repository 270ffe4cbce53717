/**
 * The stability probe of `is_period_p` and the period search of
 * `calculate_period`, stated once for any multiplier λ(z, c, n). The library
 * and the executable run the same probe and the same search; they differ only
 * in how `lambda` seeds its product (`Library.Multiplier`,
 * `Binary.Multiplier`), which is the parameter `mult` here.
 */
module Stability {
  import opened ComplexPlane
  import opened Mandelbrot

  /** A multiplier λ(z, c, n), as one copy of `lambda` computes it. */
  type MultiplierFn = (Complex, Complex, nat) -> Complex

  /**
   * The next `count` points of the orbit from z (z, φ(z), …) all have an
   * attracting λ of period n: the loop of `is_period_p`, one step per level.
   */
  predicate StableFor(mult: MultiplierFn, z: Complex, c: Complex, n: nat, count: nat)
    decreases count, z, c
  {
    count == 0 || (Attracting(mult(z, c, n)) && StableFor(mult, Phi(z, c), c, n, count - 1))
  }

  /** The stability test of `is_period_p`: λ at the 40 orbit points z, φ(z), …, φ_39(z) is attracting. */
  predicate IsPeriod(mult: MultiplierFn, z: Complex, c: Complex, n: nat) {
    StableFor(mult, z, c, n, MaxPeriod)
  }

  /** The pointwise form of the same test: λ(φ_k(z), c, n) is attracting for every k < count. */
  predicate AllAttracting(mult: MultiplierFn, z: Complex, c: Complex, n: nat, count: nat) {
    forall k | 0 <= k < count :: Attracting(mult(Orbit(z, c, k), c, n))
  }

  /** The step-by-step test of the loop and the pointwise test agree. */
  lemma {:induction false} StableForAll(mult: MultiplierFn, z: Complex, c: Complex, n: nat, count: nat)
    decreases count
    ensures StableFor(mult, z, c, n, count) <==> AllAttracting(mult, z, c, n, count)
  {
    if count > 0 {
      var w := Phi(z, c);
      StableForAll(mult, w, c, n, count - 1);
      forall k | 0 <= k < count - 1
        ensures Orbit(w, c, k) == Orbit(z, c, k + 1)
      {
        OrbitShift(z, c, k);
      }
      assert Orbit(z, c, 0) == z;
      if AllAttracting(mult, z, c, n, count) {
        forall k | 0 <= k < count - 1
          ensures Attracting(mult(Orbit(w, c, k), c, n))
        {
          assert Attracting(mult(Orbit(z, c, k + 1), c, n));
        }
        assert Attracting(mult(Orbit(z, c, 0), c, n));
      }
      if Attracting(mult(z, c, n)) && AllAttracting(mult, w, c, n, count - 1) {
        forall k | 0 <= k < count
          ensures Attracting(mult(Orbit(z, c, k), c, n))
        {
          if k > 0 {
            assert Attracting(mult(Orbit(w, c, k - 1), c, n));
          }
        }
      }
    }
  }

  /** A fixed point of φ whose λ of period n is attracting passes the stability probe for any count. */
  lemma {:induction false} FixedPointStable(mult: MultiplierFn, w: Complex, c: Complex, n: nat, count: nat)
    requires Phi(w, c) == w && Attracting(mult(w, c, n))
    decreases count
    ensures StableFor(mult, w, c, n, count)
  {
    if count > 0 {
      FixedPointStable(mult, w, c, n, count - 1);
    }
  }

  /**
   * If λ of period n is attracting at every point of a set that φ maps into
   * itself, an orbit starting in that set passes the stability probe.
   */
  lemma {:induction false} InvariantRegionStable(mult: MultiplierFn, inside: Complex -> bool, z: Complex, c: Complex, n: nat, count: nat)
    requires inside(z)
    requires forall w | inside(w) :: inside(Phi(w, c)) && Attracting(mult(w, c, n))
    decreases count
    ensures StableFor(mult, z, c, n, count)
  {
    if count > 0 {
      InvariantRegionStable(mult, inside, Phi(z, c), c, n, count - 1);
    }
  }

  /** First p in [from, 40) passing the stability test at z, or 0 if there is none. */
  function FirstPeriodFrom(mult: MultiplierFn, z: Complex, c: Complex, from: nat): (r: nat)
    requires from >= 1
    decreases MaxPeriod - from, z, c
    ensures r == 0 || from <= r < MaxPeriod
  {
    if from >= MaxPeriod then 0
    else if IsPeriod(mult, z, c, from) then from
    else FirstPeriodFrom(mult, z, c, from + 1)
  }

  /**
   * A nonzero result passes the stability test and every smaller candidate
   * from `from` on fails it; a zero result means every candidate fails.
   */
  lemma {:induction false} FirstPeriodFromIsFirst(mult: MultiplierFn, z: Complex, c: Complex, from: nat)
    requires from >= 1
    decreases MaxPeriod - from
    ensures FirstPeriodFrom(mult, z, c, from) != 0 ==>
      IsPeriod(mult, z, c, FirstPeriodFrom(mult, z, c, from)) &&
      forall q | from <= q < FirstPeriodFrom(mult, z, c, from) :: !IsPeriod(mult, z, c, q)
    ensures FirstPeriodFrom(mult, z, c, from) == 0 ==> forall q | from <= q < MaxPeriod :: !IsPeriod(mult, z, c, q)
  {
    if from < MaxPeriod && !IsPeriod(mult, z, c, from) {
      FirstPeriodFromIsFirst(mult, z, c, from + 1);
    }
  }

  /** Conversely, the search from `from` returns a passing p when every candidate before it fails. */
  lemma {:induction false} FirstPeriodFromFinds(mult: MultiplierFn, z: Complex, c: Complex, from: nat, p: nat)
    requires 1 <= from <= p < MaxPeriod && IsPeriod(mult, z, c, p)
    requires forall q | from <= q < p :: !IsPeriod(mult, z, c, q)
    decreases p - from
    ensures FirstPeriodFrom(mult, z, c, from) == p
  {
    if from < p {
      FirstPeriodFromFinds(mult, z, c, from + 1, p);
    }
  }

  /** Conversely, the search returns 0 when every candidate from `from` on fails. */
  lemma {:induction false} FirstPeriodFromNone(mult: MultiplierFn, z: Complex, c: Complex, from: nat)
    requires from >= 1
    requires forall q | from <= q < MaxPeriod :: !IsPeriod(mult, z, c, q)
    decreases MaxPeriod - from
    ensures FirstPeriodFrom(mult, z, c, from) == 0
  {
    if from < MaxPeriod {
      FirstPeriodFromNone(mult, z, c, from + 1);
    }
  }
}
