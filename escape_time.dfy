/**
 * The escape-time counter and the colouring sentinel of `calculate_colors`
 * in Mandelbrot/mandelbrot.cpp.
 *
 * For the pixel (i, j) the source iterates z := z*z + c from z = 0 while
 * |z| <= radius and fewer than `limit` iterations were made, then (in the
 * continuous mode that the source compiles) makes three extra iterations and
 * colours the pixel 0 when the counter has reached limit + 3.
 *
 * Complex floating-point arithmetic is not modelled: the orbit of a pixel is
 * given by an escape predicate, `escapes(k)` meaning "after k iterations,
 * |z| > radius". The float-valued colour formulas are abstracted by the
 * Shade datatype: a colour records only the iteration count its formula is
 * evaluated at; the value of |z| that the continuous formula also uses is
 * dropped.
 */
module EscapeTime {

  const Limit := 1000      // `limit`: maximum escape iterations
  const ExtraIter := 3     // `EXTRA_ITER`: iterations added past escape

  /** The two colouring strategies; the source picks one with LINEAR_COLORING. */
  datatype Coloring = Linear | Continuous

  /** A pixel's colour, by the iteration count its formula is evaluated at:
      Scaled(f) is f * (RGB_MAX - 1) / (limit - 1) (linear mode),
      Smooth(n) is the double-logarithm formula at n iterations (continuous
      mode; the formula also reads |z| after those iterations, which is
      dropped here),
      Zero is the 0.0 written for a point taken to be inside the set. */
  datatype Shade = Zero | Scaled(factor: int) | Smooth(iterations: int)

  /** The orbit of pixel (i, j): escapes(i, j, k) holds when |z| > radius after k iterations. */
  type Orbit = (int, int, nat) -> bool

  /** The iteration count the escape loop stops at, counting from `from`. */
  function EscapeIterations(escapes: nat -> bool, from: nat, limit: nat): (n: nat)
    ensures from <= limit ==> from <= n <= limit
    ensures n < limit ==> escapes(n)
    decreases limit - from
  {
    if from >= limit || escapes(from) then from else EscapeIterations(escapes, from + 1, limit)
  }

  /** The loop stops at the first escape below `limit`, and at `limit` otherwise. */
  lemma {:induction false} EscapeIterationsMeaning(escapes: nat -> bool, from: nat, limit: nat)
    requires from <= limit
    ensures from <= EscapeIterations(escapes, from, limit) <= limit
    ensures forall k :: from <= k < EscapeIterations(escapes, from, limit) ==> !escapes(k)
    ensures EscapeIterations(escapes, from, limit) < limit ==> escapes(EscapeIterations(escapes, from, limit))
    decreases limit - from
  {
    if !(from >= limit || escapes(from)) {
      EscapeIterationsMeaning(escapes, from + 1, limit);
    }
  }

  /** The colour `calculate_colors` gives a pixel whose orbit is `escapes`. */
  function PixelShade(escapes: nat -> bool, limit: nat, mode: Coloring): (s: Shade)
    ensures mode == Linear ==> s.Scaled? && 0 <= s.factor <= limit
    ensures mode == Continuous ==> s.Zero? || (s.Smooth? && ExtraIter <= s.iterations < limit + ExtraIter)
  {
    var n := EscapeIterations(escapes, 0, limit);
    match mode
    case Linear => Scaled(limit - n)
    case Continuous => if n + ExtraIter == limit + ExtraIter then Zero else Smooth(n + ExtraIter)
  }

  /** Continuous mode: the pixel is 0 exactly when the orbit did not escape
      within `limit - 1` iterations; otherwise it is evaluated at the first
      escape plus the extra iterations, which stays below limit + 3. */
  lemma ContinuousSentinel(escapes: nat -> bool, limit: nat)
    ensures PixelShade(escapes, limit, Continuous) == Zero <==> forall k :: 0 <= k < limit ==> !escapes(k)
    ensures PixelShade(escapes, limit, Continuous).Smooth? ==>
      var n := PixelShade(escapes, limit, Continuous).iterations;
      ExtraIter <= n < limit + ExtraIter && escapes(n - ExtraIter) &&
      forall k :: 0 <= k < n - ExtraIter ==> !escapes(k)
  {
    EscapeIterationsMeaning(escapes, 0, limit);
  }

  /** Linear mode: the factor lies in [0, limit] and is 0 exactly for a point
      that did not escape within `limit - 1` iterations. */
  lemma LinearSentinel(escapes: nat -> bool, limit: nat)
    ensures PixelShade(escapes, limit, Linear).Scaled?
    ensures 0 <= PixelShade(escapes, limit, Linear).factor <= limit
    ensures PixelShade(escapes, limit, Linear).factor == 0 <==> forall k :: 0 <= k < limit ==> !escapes(k)
  {
    EscapeIterationsMeaning(escapes, 0, limit);
  }

  /** The escape loop of `calculate_colors`, then the colour of the pixel.
      Returns the final value of `n_iterations` and the colour. */
  method ColorPixel(escapes: nat -> bool, limit: nat, mode: Coloring) returns (n: nat, shade: Shade)
    ensures n == EscapeIterations(escapes, 0, limit) + (if mode == Continuous then ExtraIter else 0)
    ensures mode == Linear ==> n <= limit
    ensures mode == Continuous ==> ExtraIter <= n <= limit + ExtraIter && (shade == Zero <==> n == limit + ExtraIter)
    ensures shade == PixelShade(escapes, limit, mode)
  {
    n := 0;
    while !escapes(n) && n < limit
      invariant n <= limit
      invariant EscapeIterations(escapes, n, limit) == EscapeIterations(escapes, 0, limit)
      decreases limit - n
    {
      n := n + 1;
    }
    match mode {
      case Linear =>
        shade := Scaled(limit - n);
      case Continuous =>
        for k := 0 to ExtraIter
          invariant n == EscapeIterations(escapes, 0, limit) + k
        {
          n := n + 1;
        }
        if n == limit + ExtraIter {
          shade := Zero;
        } else {
          shade := Smooth(n);
        }
    }
  }

  /** The escape predicate of pixel (i, j). */
  function PixelOrbit(orbit: Orbit, i: int, j: int): nat -> bool
  {
    (k: nat) => orbit(i, j, k)
  }

  /** The row `calculate_colors` produces for row `i` of the plane. */
  function RowColors(orbit: Orbit, i: int, height: nat, mode: Coloring): (r: seq<Shade>)
    ensures |r| == height
  {
    seq(height, j => PixelShade(PixelOrbit(orbit, i, j), Limit, mode))
  }

  /** `calculate_colors(plane, img, i)`: colour every pixel of row `i` into `img`. */
  method CalculateColors(orbit: Orbit, img: array<Shade>, i: int, height: nat, mode: Coloring)
    requires img.Length == height
    modifies img
    ensures img[..] == RowColors(orbit, i, height, mode)
  {
    ghost var row := RowColors(orbit, i, height, mode);
    for j := 0 to height
      invariant img[..j] == row[..j]
    {
      var n, shade := ColorPixel(PixelOrbit(orbit, i, j), Limit, mode);
      img[j] := shade;
      assert img[..j + 1] == img[..j] + [row[j]];
    }
    assert img[..] == img[..height];
  }
}
