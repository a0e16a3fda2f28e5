/** The interval helpers of the math layer: `clamp` and the closed-interval `overlap`. */
module Utils {

  /** `Math.min` of two numbers. */
  function Min(a: real, b: real): real {
    if a <= b then a else b
  }

  /** `Math.max` of two numbers. */
  function Max(a: real, b: real): real {
    if a >= b then a else b
  }

  /**
   * Constrains `val` to `[min, max]` as `Math.max(min, Math.min(max, val))`.
   * The contract describes every case, including an inverted range, where `min` wins.
   */
  function Clamp(val: real, min: real, max: real): (r: real)
    ensures min <= max ==> min <= r <= max
    ensures min <= val <= max ==> r == val
    ensures val < min ==> r == min
    ensures min <= max < val ==> r == max
    ensures max < min ==> r == min
  {
    Max(min, Min(max, val))
  }

  /** Clamping a value that was already clamped changes nothing. */
  lemma ClampIdempotent(val: real, min: real, max: real)
    ensures Clamp(Clamp(val, min, max), min, max) == Clamp(val, min, max)
  {
  }

  /** The three cases checked by the library's own tests. */
  lemma ClampExamples()
    ensures Clamp(3.0, -5.0, 10.0) == 3.0
    ensures Clamp(-8.0, -5.0, 10.0) == -5.0
    ensures Clamp(12.0, -5.0, 10.0) == 10.0
  {
  }

  /**
   * True when the closed intervals `[aMin, aMax]` and `[bMin, bMax]` overlap;
   * intervals that only touch at an end point count as overlapping.
   */
  function Overlap(aMin: real, aMax: real, bMin: real, bMax: real): (r: bool)
    ensures r <==> bMin <= aMax && aMin <= bMax
  {
    !(bMax < aMin || aMax < bMin)
  }

  /** Overlap does not depend on the order of the two intervals. */
  lemma OverlapSymmetric(aMin: real, aMax: real, bMin: real, bMax: real)
    ensures Overlap(aMin, aMax, bMin, bMax) == Overlap(bMin, bMax, aMin, aMax)
  {
  }

  /** `t` lies in the closed interval `[lo, hi]`. */
  predicate Within(t: real, lo: real, hi: real) {
    lo <= t <= hi
  }

  /**
   * For non-empty intervals, `Overlap` holds exactly when the two intervals share a point.
   */
  lemma OverlapIffCommonPoint(aMin: real, aMax: real, bMin: real, bMax: real)
    requires aMin <= aMax && bMin <= bMax
    ensures Overlap(aMin, aMax, bMin, bMax) <==> exists t :: Within(t, aMin, aMax) && Within(t, bMin, bMax)
  {
    if Overlap(aMin, aMax, bMin, bMax) {
      var t := Max(aMin, bMin);
      assert Within(t, aMin, aMax) && Within(t, bMin, bMax);
    }
  }

  /** Overlap is unchanged when every end point is scaled by the same positive factor. */
  lemma OverlapScaled(aMin: real, aMax: real, bMin: real, bMax: real, k: real)
    requires k > 0.0
    ensures Overlap(k * aMin, k * aMax, k * bMin, k * bMax) == Overlap(aMin, aMax, bMin, bMax)
  {
    assert bMin <= aMax <==> k * bMin <= k * aMax;
    assert aMin <= bMax <==> k * aMin <= k * bMax;
  }
}
