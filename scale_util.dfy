/**
 * Progress arithmetic of the renderer: a global progress value is cut into
 * `n` consecutive sub-ranges, and the i-th sub-progress runs from 0 to 1 while
 * the global value crosses the i-th sub-range.
 */
module ScaleUtil {

  function Max(a: real, b: real): (r: real) { if a >= b then a else b }

  function Min(a: real, b: real): (r: real) { if a <= b then a else b }

  /** How far `scale` has gone past the start `i / n` of sub-range i, never negative. */
  function MaxScale(scale: real, i: nat, n: nat): (r: real)
    requires n > 0
    ensures r >= 0.0 && r >= scale - i as real / n as real
    ensures r == 0.0 || r == scale - i as real / n as real
  {
    Max(0.0, scale - i as real / n as real)
  }

  /** The progress, in [0, 1], of sub-range i of n for the global value `scale`. */
  function DivideScale(scale: real, i: nat, n: nat): (r: real)
    requires n > 0
    ensures 0.0 <= r <= 1.0
  {
    Min(1.0 / n as real, MaxScale(scale, i, n)) * n as real
  }

  /** Before its sub-range starts, a sub-progress is 0. */
  lemma DivideScaleBefore(scale: real, i: nat, n: nat)
    requires n > 0 && scale <= i as real / n as real
    ensures DivideScale(scale, i, n) == 0.0
  {
  }

  /** Once its sub-range is over, a sub-progress is 1. */
  lemma DivideScaleAfter(scale: real, i: nat, n: nat)
    requires n > 0 && scale >= (i + 1) as real / n as real
    ensures DivideScale(scale, i, n) == 1.0
  {
  }

  /** Inside its sub-range, a sub-progress grows linearly with `scale`. */
  lemma DivideScaleWithin(scale: real, i: nat, n: nat)
    requires n > 0
    requires i as real / n as real <= scale <= (i + 1) as real / n as real
    ensures DivideScale(scale, i, n) == scale * n as real - i as real
  {
  }

  /** A sub-progress never decreases when the global progress grows. */
  lemma DivideScaleMonotone(s1: real, s2: real, i: nat, n: nat)
    requires n > 0 && s1 <= s2
    ensures DivideScale(s1, i, n) <= DivideScale(s2, i, n)
  {
    var c := 1.0 / n as real;
    var a, b := Min(c, MaxScale(s1, i, n)), Min(c, MaxScale(s2, i, n));
    assert a <= b;
    ScaledMonotone(a, b, n as real);
  }

  lemma ScaledMonotone(a: real, b: real, k: real)
    requires a <= b && k > 0.0
    ensures a * k <= b * k
  {
    assert (b - a) * k >= 0.0;
  }

  /**
   * Staggered activation: sub-range i + 1 has started only when sub-range i
   * is complete.
   */
  lemma DivideScaleStaggered(scale: real, i: nat, n: nat)
    requires n > 0
    ensures DivideScale(scale, i + 1, n) > 0.0 ==> DivideScale(scale, i, n) == 1.0
  {
  }
}
