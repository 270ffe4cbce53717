# Mandelbrot period renderer — a Dafny model

This project models the discrete skeleton of a Mandelbrot-set renderer. The
renderer exists in two near-identical copies: the library `src/lib.rs` and
the older executable `src/main.rs`. Each pixel of a raster is mapped to a
point c of the complex plane. An escape-time test decides whether the orbit
of 0 under φ(z) = z² + c leaves the disc of radius 2 within 255 steps. Escaped
points are shaded by their escape count. For interior points, a period search
`calculate_period` tries p = 1 … 39. It accepts the first p for which the
multiplier λ of period p is attracting (|λ| < 1) at 40 successive orbit
points (`is_period_p`). The period then selects a grey level or an RGB colour.

The files:

- `complex.dfy`: `Option`, plus complex numbers over the reals. These have
  addition, multiplication, real scaling, the squared norm, and the few
  algebraic laws the proofs use.
- `mandelbrot.dfy`: the definitions both copies share word for word.
  - Module `Mandelbrot`: φ, φ', the n-fold orbit φ_n (`phi_n`), the escape
    test and `escape_time`.
  - Module `Geometry`: `pixel_to_point` and the row-major layout
    `row * width + column` of the pixel buffer.
- `parse.dfy`: `parse_pair` and `parse_complex`.
- `stability.dfy`: the stability probe of `is_period_p` and the period
  search of `calculate_period`, stated once over the multiplier λ. The two
  copies run the same probe and search and differ only in how λ is seeded.
- `library.dfy`: the library's own code: `lambda` seeded at φ'(z),
  `is_period_p`, `calculate_period` from the advanced point φ_1000(z),
  `render_greyscale` and the per-pixel colour of `render_colorized`.
- `binary.dfy`: the executable's variants: `lambda` seeded at φ'(c),
  `calculate_period` without the advance, and `render`, whose escaped pixels
  are always white and whose period table is coarser.

The two copies of `escape_time`, `parse_pair`, `parse_complex`, `phi`,
`phi_n`, `phi_prime` and `pixel_to_point` are the same function written twice.
Each is modelled once and cited at its `src/lib.rs` lines. Where the two
copies differ, each variant has its own member.

Each loop of the source is a method proved against a specification function:
- `PhiN` against `Orbit`.
- `EscapeTime` against `EscapeIndex`.
- `Lambda` against `Multiplier`.
- `IsPeriodP` against `IsPeriod`.
- `CalculatePeriod` against `Period`.
- The render sweeps against `Shade`.

The lemmas then relate these functions to independent characterisations:
- λ is the derivative of φ_n (chain rule), and the two seeds are related.
- The step-by-step stability test equals a pointwise one.
- The reported period is the least passing candidate.
- The buffer position is in bounds, injective and onto. Its inverse is
  `PixelAt`.
- The colour tables are injective on their proper ranges.

`T::from_str` is the standard library's number parser. It is passed in as a
parameter `fromStr: string -> Option<T>`. The examples from the source's tests
hold for every parser that agrees with `from_str` on the strings they use.

The renderers check only `pixels.len() == bounds.0 * bounds.1`
(src/lib.rs:130, src/main.rs:118). Bounds with a zero width or height and an
empty buffer therefore pass that check, and the sweep writes nothing.
`RenderGreyscale` and `Render` require only the length equation, and cover
that case.

## Model

| member | source | states |
|---|---|---|
| Mandelbrot.Phi | src/lib.rs:305-309 | φ(z) = z² + c, defined as `z * z + c`; the copy in src/main.rs:213-217 is the same |
| Mandelbrot.PhiPrime | src/lib.rs:364-368 | φ'(z) = 2z, defined as the real scaling `2 * z`; the copy in src/main.rs:278-282 is the same |
| Mandelbrot.PhiPrimeNorm | src/lib.rs:364-368 | \|φ'(z)\|² = 4 \|z\|² |
| Mandelbrot.PhiN | src/lib.rs:332-338 | the `1..=n` loop returns φ_n(z) = φ applied n times to z (`Orbit`), so φ_0(z) = z and φ_{n+1}(z) = φ(φ_n(z)); the copy in src/main.rs:246-252 is the same |
| Mandelbrot.OrbitShift | src/lib.rs:323-331 | φ_{n+1}(z) = φ_n(φ(z)): iterating once more is iterating from the next point |
| Mandelbrot.OrbitCompose | src/lib.rs:323-331 | φ_n(φ_m(z)) = φ_{m+n}(z) |
| Mandelbrot.OrbitFixed | src/lib.rs:391-396 | a fixed point of φ stays fixed under every φ_n |
| Mandelbrot.OrbitSettles | src/lib.rs:391-396 | an orbit that reaches a fixed point at step m stays on it at every later step |
| Mandelbrot.OrbitInvariant | src/lib.rs:323-338 | an orbit that starts in a set φ maps into itself stays in that set at every step |
| Mandelbrot.SmallDiscInvariant | src/lib.rs:441-446 | for c = -0.1 + 0.1i, φ maps the disc \|z\|² ≤ 0.04 into itself |
| Mandelbrot.SettlesByDepth | src/lib.rs:391-396 | an orbit of 0 that reaches a fixed point in two steps is at that point at step 1000 |
| Mandelbrot.MinusTwoTwoSteps | src/lib.rs:393-395 | for c = -2 the orbit of 0 reaches 2 in two steps |
| Mandelbrot.MinusTwoFixedPoint | src/lib.rs:393-395 | 2 is a fixed point of φ(·, -2) |
| Mandelbrot.MinusTwoSettles | src/lib.rs:393-395 | for c = -2, φ_1000(0) = 2: the point the `lambda` test computes |
| Mandelbrot.EscapeIndex | src/lib.rs:9-27 | a found step i lies in [start, limit), escapes, and no earlier step from start escapes; None means no step in [start, limit) escapes (so limit 0 gives None) |
| Mandelbrot.EscapeTime | src/lib.rs:17-27 | `escape_time` returns the first escaping orbit step of 0 below `limit`, or None when none escapes; the copy in src/main.rs:15-25 is the same |
| Mandelbrot.EscapeOutsideRadiusTwo | src/lib.rs:9-16 | a point with \|c\| > 2 is reported as escaping at step 1 whenever the budget allows two steps |
| Mandelbrot.EscapeStable | src/lib.rs:9-16 | raising the iteration limit does not change an escape count already found |
| Geometry.PixelToPoint | src/lib.rs:85-100 | pixel (column, row) maps to upper_left.re + column · width / bounds.0 and upper_left.im - row · height / bounds.1, where width and height are the viewport's extents; the copy in src/main.rs:83-95 is the same |
| Geometry.OffsetStrict | src/lib.rs:95-99 | over a positive extent, the share `k * extent / count` of a later pixel is strictly larger |
| Geometry.PixelToPointCorners | src/lib.rs:78-100 | pixel (0, 0) maps to the upper-left corner and pixel (width, height) to the lower-right one |
| Geometry.PixelToPointOrientation | src/lib.rs:95-99 | in a proper viewport, moving right increases the real part and moving down decreases the imaginary part |
| Geometry.PixelToPointExample | src/lib.rs:102-116 | pixel (25, 175) of 100 × 200 over (-1, 1)..(1, -1) is (-0.5, -0.75) |
| Geometry.IndexInBounds | src/lib.rs:138 | `row * width + column` of a pixel is below `width * height` |
| Geometry.IndexOrder | src/lib.rs:132-138 | a pixel visited earlier in the row-major sweep has a smaller position |
| Geometry.IndexInjective | src/lib.rs:132-138 | distinct pixels have distinct positions, so no cell is written twice |
| Geometry.PixelAt | src/lib.rs:138 | the (column, row) at position i has column < width and is mapped back to i by `row * width + column` |
| Geometry.IndexCovers | src/lib.rs:130-138 | every cell of a width × height buffer is the position of a pixel of the raster |
| Parse.Find | src/lib.rs:40 | `str::find` returns the first position of the separator, or None when it is absent |
| Parse.FirstSeparatorUnique | src/lib.rs:40 | the first occurrence of the separator is unique |
| Parse.ParsePair | src/lib.rs:39-47 | None without a separator; otherwise the string is split at the first separator into `s[..i]` and `s[i+1..]`, and the result is Some exactly when both halves parse; the copy in src/main.rs:37-47 is the same |
| Parse.ParseComplex | src/lib.rs:62-64 | Some exactly when `parse_pair` with ',' succeeds, with re and im taken from its two halves; src/main.rs:62-67 is the same |
| Parse.ParsePairExamples | src/lib.rs:50-55 | "", "10,", ",10", "10,20xy" give None and "10,20" gives (10, 20) |
| Parse.ParsePairDimensionExamples | src/lib.rs:56-57 | with 'x' as separator, "0.5x" gives None and "0.5x1.5" gives (0.5, 1.5) |
| Parse.ParseComplexExamples | src/lib.rs:66-76 | "1.25,-0.0625" gives 1.25 - 0.0625i and ",-0.0625" gives None |
| Stability.StableForAll | src/lib.rs:412-429 | for any multiplier, the loop's step-by-step test holds exactly when λ(φ_k(z), c, n) is attracting for every k < count; the loop in src/main.rs:381-405 is the same |
| Stability.FixedPointStable | src/lib.rs:412-429 | a fixed point of φ with an attracting λ passes the stability test for any count |
| Stability.InvariantRegionStable | src/lib.rs:412-429 | an orbit that starts in a set φ maps into itself, and on which λ is attracting everywhere, passes the stability test for any count |
| Stability.FirstPeriodFrom | src/lib.rs:459-464 | the search result is 0 or a candidate in [from, 40); the loop in src/main.rs:442-447 is the same |
| Stability.FirstPeriodFromIsFirst | src/lib.rs:459-464 | a nonzero result passes the test and every earlier candidate fails; a zero result means all candidates fail |
| Stability.FirstPeriodFromFinds | src/lib.rs:459-464 | a passing candidate p is the result when every candidate before it fails, as the `break` does |
| Stability.FirstPeriodFromNone | src/lib.rs:459-464 | the result is 0 when every candidate fails, as when the loop runs to its end |
| Library.Lambda | src/lib.rs:381-389 | the loop returns φ'(z) · φ'(φ_1(z)) · … · φ'(φ_{n-1}(z)), and φ'(z) for n ≤ 1 |
| Library.MultiplierShift | src/lib.rs:381-389 | λ(z, n+1) = φ'(z) · λ(φ(z), n) for n ≥ 1 |
| Library.MultiplierIsDerivative | src/lib.rs:381-389 | for n ≥ 1 the library's λ is the derivative of φ_n at z (chain rule) |
| Library.IsPeriodP | src/lib.rs:411-429 | `is_period_p` returns true exactly when λ of period n is attracting at each of the 40 orbit points z, φ(z), …, φ_39(z), returning false at the first failure |
| Library.Period | src/lib.rs:451-467 | the period is 0 or in [1, 40) |
| Library.PeriodIsFirst | src/lib.rs:451-467 | a nonzero period p passes at φ_1000(z) and every q in [1, p) fails; 0 means every p in [1, 40) fails; if some p passes, the result is nonzero |
| Library.CalculatePeriod | src/lib.rs:451-467 | advancing 1000 steps and breaking at the first passing p computes `Period` |
| Library.PeriodAtFixedPoint | src/lib.rs:451-467 | from a fixed point of φ with an attracting λ of period 1, the reported period is 1 |
| Library.Classify | src/lib.rs:136-165 | a point is escaped exactly when `escape_time(c, 255)` finds a step, with that count (< 255); otherwise it is interior with the period from 0, which is < 40 |
| Library.PeriodGrey | src/lib.rs:147-161 | the greyscale table: 210 for period 0, then 0, 50, 100 and 120 to 190 in steps of 10 for periods 1 to 11, and 200 from period 12 on |
| Library.PeriodGreyBands | src/lib.rs:147-161 | the grey table gives distinct greys to periods 0..12, never darkens from period 1 on, and gives 210 only to period 0 |
| Library.Shade | src/lib.rs:138-165 | an escaped point gets 255 - count, which is at least 1, so the `u8` subtraction never underflows; an interior point gets its period's grey |
| Library.PeriodRgb | src/lib.rs:194-227 | the 32-entry colour table for periods 0 to 30, black from period 31 on |
| Library.PeriodRgbDistinct | src/lib.rs:194-227 | the RGB table gives distinct colours to periods 0..31 and black from 31 on |
| Library.PixelColor | src/lib.rs:185-234 | an escaped point gets the grey triple (v, v, v) with the greyscale value v; an interior point gets its period's colour |
| Library.ShadePoint | src/lib.rs:134-165 | the per-pixel escape test, period search and table compute `Shade` of the point |
| Library.RenderGreyscaleRow | src/lib.rs:133-166 | after the inner loop for one row, each cell of that row holds its pixel's shade, and no other cell changed |
| Library.RenderGreyscale | src/lib.rs:124-168 | with `len == width * height`, every position `row * width + column` is in bounds and holds its pixel's shade, and every cell i holds the shade of pixel `PixelAt(width, i)` |
| Library.PhiPrimeExample | src/lib.rs:370-379 | φ'(1 + i) = 2 + 2i |
| Library.PhiNExamples | src/lib.rs:311-362 | for z = c = 1 + i: φ_1 = φ(z) = 1 + 3i and φ_2 = φ(φ_1) = -7 + 7i |
| Library.LambdaAtMinusTwo | src/lib.rs:391-396 | for c = -2, λ at φ_1000(0) of period 1 has \|λ\|² = 16, i.e. \|λ\| = 4 |
| Library.LambdaAtOrigin | src/lib.rs:398-408 | λ(0, 1 + i, 1) = 0 |
| Library.PeriodAtOrigin | src/lib.rs:430-448 | for z = c = 0, `is_period_p` with period 1 holds and `calculate_period` reports 1 (also src/lib.rs:469-479) |
| Library.PeriodOnInvariantRegion | src/lib.rs:451-467 | on a set φ maps into itself, where every φ'(w) is attracting, period 1 passes from each point and `calculate_period` reports 1 |
| Library.SmallDiscAttracts | src/lib.rs:441-446 | for c = -0.1 + 0.1i, φ maps the disc \|w\|² ≤ 0.04 into itself and φ'(w) is attracting on it |
| Library.PeriodOnSmallDisc | src/lib.rs:469-479 | for c = -0.1 + 0.1i, period 1 passes and is reported from every z with \|z\|² ≤ 0.04 |
| Library.PeriodNearOrigin | src/lib.rs:441-446 | for z = 0 and c = -0.1 + 0.1i, `is_period_p` with period 1 holds and `calculate_period` reports 1 (also src/lib.rs:478) |
| Binary.Lambda | src/main.rs:303-317 | the loop returns φ'(c) · φ'(φ_1(z)) · … · φ'(φ_{n-1}(z)), and φ'(c) for n ≤ 1, whatever z is |
| Binary.SeedSwap | src/main.rs:303-317 | the executable's λ times φ'(z) equals the library's λ times φ'(c) |
| Binary.SeedsAgreeAtC | src/main.rs:303-317 | when the orbit starts at c, the two λ coincide |
| Binary.IsPeriodP | src/main.rs:381-405 | `is_period_p` returns true exactly when λ of period n is attracting at each of the 40 orbit points from z, returning false at the first failure |
| Binary.Period | src/main.rs:437-457 | the period is 0 or in [1, 40) |
| Binary.PeriodIsFirst | src/main.rs:437-457 | a nonzero period p passes at z itself and every q in [1, p) fails; 0 means every p in [1, 40) fails; if some p passes, the result is nonzero |
| Binary.CalculatePeriod | src/main.rs:437-447 | searching from z without advancing, and breaking at the first passing p, computes `Period` |
| Binary.Classify | src/main.rs:125-150 | escaped exactly when `escape_time(c, 255)` finds a step; otherwise interior with the un-advanced period from 0, which is < 40 |
| Binary.PeriodGrey | src/main.rs:133-143 | the executable's table: 210 for period 0, then 0, 100 and 150 to 190 in steps of 10 for periods 1 to 7, and 200 from period 8 on |
| Binary.PeriodGreyBands | src/main.rs:133-143 | the table gives distinct greys to periods 0..8, never darkens from period 1 on, stays at most 210, and gives 210 only to period 0 |
| Binary.Shade | src/main.rs:125-150 | an escaped point is white 255 whatever its count; an interior point gets its period's grey; a pixel is white exactly when its point escapes |
| Binary.ShadePoint | src/main.rs:122-150 | the per-pixel escape test, period search and table compute `Shade` of the point |
| Binary.Render | src/main.rs:113-153 | with `len == width * height`, every position `row * width + column` is in bounds and holds its pixel's shade, and every cell i holds the shade of pixel `PixelAt(width, i)` |
| Binary.LambdaExample | src/main.rs:354-361 | λ(0, 1 + i, 1) = φ'(1 + i) = 2 + 2i |
| Binary.LambdaAtMinusTwo | src/main.rs:344-345 | for c = -2, the executable's λ(0, c, 1) = φ'(-2) has \|λ\|² = 16, i.e. \|λ\| = 4, as the commented-out test expects |
| Binary.PeriodAtOrigin | src/main.rs:407-423 | for z = c = 0, `is_period_p` with period 1 holds and `calculate_period` reports 1 (also src/main.rs:459-468) |
| Binary.PeriodOneWhenSeedAttracts | src/main.rs:437-447 | when φ'(c) is attracting, period 1 passes from every z and `calculate_period` reports 1, since the executable's λ of period 1 is φ'(c) |
| Binary.PeriodNearOrigin | src/main.rs:416-418 | for z = 0 and c = -0.1 + 0.1i, `is_period_p` with period 1 holds and `calculate_period` reports 1 (also src/main.rs:468) |

## Left out

- Floating point:
  - Complex arithmetic is exact arithmetic over the reals, not IEEE-754 `f64`. Rounding, overflow to infinity and NaN are not modelled. One visible consequence: in the library, a point that survives the 255-step escape test but escapes before step 1000 has φ_1000(0) overflow to NaN in `f64`. Its λ is then NaN, `NaN >= 1.` is false, so `is_period_p` passes and the source reports period 1 (black in `render_greyscale`). The model reports period 0 (grey 210) for such points. The executable's period search looks at no orbit step beyond 80, all of which the 255-step escape test has already passed, so it is unaffected.
  - The source's `|λ| >= 1` uses `abs`, a square root. It is modelled as the equivalent \|λ\|² ≥ 1.
  - The `lambda` tests of src/main.rs:344-351 are commented out in the source and are not modelled, except the first (line 345), which `Binary.LambdaAtMinusTwo` states.
- `T::from_str` is the standard library's parser and is a parameter. Its grammar is not modelled.
- I/O and process code are not modelled: `write_image` (PNG encoding to a file), `parse_args` (`env::args`, `process::exit`), `print_usage`, `main`, and the debug `print!` in src/main.rs:449-454, which writes text and changes no state.
- `render_colorized` loops through the image crate's `enumerate_pixels_mut`, a foreign iterator. Only its per-pixel colour is modelled (`PixelColor`).
- `usize` overflow of `row * bounds.0 + column` and of `bounds.0 * bounds.1` is not modelled: integers are unbounded.
- `Geometry.PixelToPoint` requires positive bounds. With a zero bound the source divides by zero in `f64`. The renderers never call it then, because their loops are empty.
- The inner loop of `render_greyscale` is its own method, `Library.RenderGreyscaleRow`, so that each loop is proved on its own. The executable's `Render` keeps both loops in one method.
- `str::find` is modelled on character sequences, with a single-character separator. UTF-8 byte offsets are not modelled. With a multi-byte separator the source's `&s[index + 1..]` (src/lib.rs:42, src/main.rs:41) would panic, since the slice does not begin on a character boundary. No caller passes one: the only separators used are ',' and 'x'.
