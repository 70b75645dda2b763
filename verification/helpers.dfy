/**
 * The random-draw helpers of the game: an inclusive integer range draw and a
 * colour pick from a fixed palette. `Math.random()` is not modelled; each
 * helper takes the draw it would have returned as a parameter.
 */
module Helpers {

  /** A value `Math.random()` may return: uniform in [0, 1). */
  type UnitDraw = r: real | 0.0 <= r < 1.0

  /** True when `x` has no fractional part. */
  predicate IsWhole(x: real) {
    x.Floor as real == x
  }

  /**
   * getRandomNubmer: floor(r * (max - min + 1)) + min. The bounds are JavaScript
   * numbers and may be fractional (the spawn code passes `radius / 2`).
   * The result is always `min` plus a whole offset; it is at least `min` unless
   * the range is inverted by more than one, and at most `max` when the range is
   * a whole number of steps wide, so both ends are included.
   */
  function RandomNumber(min: real, max: real, r: UnitDraw): (n: real)
    ensures IsWhole(n - min)
    ensures min <= max + 1.0 ==> min <= n
    ensures min <= max && IsWhole(max - min) ==> n <= max
    ensures min == max ==> n == min
  {
    OffsetBounds(r, min, max);
    Offset(r, max - min + 1.0) as real + min
  }

  /** `Math.floor(r * span)`: which of `span` equal slices of [0, 1) the draw fell in. */
  function Offset(r: UnitDraw, span: real): int {
    (r * span).Floor
  }

  /** The offset of a draw over `min .. max` lies in [0, max - min]. */
  lemma OffsetBounds(r: UnitDraw, min: real, max: real)
    ensures min <= max + 1.0 ==> 0 <= Offset(r, max - min + 1.0)
    ensures min <= max && IsWhole(max - min) ==> Offset(r, max - min + 1.0) as real + min <= max
  {
    if min <= max + 1.0 {
      OffsetNonNegative(r, max - min + 1.0);
    }
    if min <= max && IsWhole(max - min) {
      OffsetBelowSpan(r, max - min);
    }
  }

  lemma OffsetNonNegative(r: UnitDraw, span: real)
    requires 0.0 <= span
    ensures 0 <= Offset(r, span)
  {
    MulMonotone(0.0, r, span);
  }

  lemma OffsetBelowSpan(r: UnitDraw, w: real)
    requires 0.0 <= w && IsWhole(w)
    ensures Offset(r, w + 1.0) as real <= w
  {
    MulStrict(r, 1.0, w + 1.0);
    var offset := Offset(r, w + 1.0);
    assert offset as real < w.Floor as real + 1.0;
    assert offset < w.Floor + 1;
  }

  /**
   * The draw is uniform: the result is `min + k` exactly when `r` falls in the
   * k-th of `max - min + 1` equal slices of [0, 1).
   */
  lemma RandomNumberSlice(min: real, max: real, r: UnitDraw, k: int)
    requires min <= max
    ensures RandomNumber(min, max, r) == min + k as real
        <==> k as real / (max - min + 1.0) <= r < (k + 1) as real / (max - min + 1.0)
  {
    var span := max - min + 1.0;
    assert RandomNumber(min, max, r) == min + k as real <==> Offset(r, span) == k;
    SliceBound(k as real, r, span);
    SliceBound((k + 1) as real, r, span);
  }

  /**
   * On a range inverted by more than one the span is negative: a zero draw
   * still gives `min`, and every other draw falls below it. For min = 0 and
   * max = -2 the span is -1, and a draw of 0.5 gives -1.
   */
  lemma InvertedRange(min: real, max: real, r: UnitDraw)
    requires max + 1.0 < min
    ensures r == 0.0 ==> RandomNumber(min, max, r) == min
    ensures 0.0 < r ==> RandomNumber(min, max, r) < min
  {
    var span := max - min + 1.0;
    if 0.0 < r {
      PositiveProduct(r, min - max - 1.0);
      assert r * span == -(r * (min - max - 1.0));
      assert Offset(r, span) as real <= r * span < 0.0;
      assert Offset(r, max - min + 1.0) < 0;
    }
  }

  /** Every whole offset between `min` and `max`, both ends included, can be drawn. */
  lemma RandomNumberReaches(min: real, max: real, k: int)
    requires min <= max && IsWhole(max - min)
    requires 0 <= k && k as real <= max - min
    ensures exists r: UnitDraw :: RandomNumber(min, max, r) == min + k as real
  {
    var span := max - min + 1.0;
    var r := k as real / span;
    assert r < 1.0 by {
      SliceBound(k as real, 1.0, span);
    }
    RandomNumberSlice(min, max, r, k);
  }

  // Arithmetic facts the solver does not find on its own for products of reals.

  lemma MulMonotone(a: real, b: real, s: real)
    requires a <= b && 0.0 <= s
    ensures a * s <= b * s
  {
  }

  lemma MulStrict(a: real, b: real, s: real)
    requires a < b && 0.0 < s
    ensures a * s < b * s
  {
  }

  lemma PositiveProduct(a: real, s: real)
    requires 0.0 < a && 0.0 < s
    ensures 0.0 < a * s
  {
  }

  lemma NonNegativeProduct(a: real, s: real)
    requires 0.0 <= a && 0.0 <= s
    ensures 0.0 <= a * s
  {
  }

  /** Comparing `r` with `x / s` is comparing `r * s` with `x`, for positive `s`. */
  lemma SliceBound(x: real, r: real, s: real)
    requires 0.0 < s
    ensures x / s <= r <==> x <= r * s
    ensures r < x / s <==> r * s < x
  {
    var q := x / s;
    assert q * s == x;
    if q <= r {
      NonNegativeProduct(r - q, s);
      assert (r - q) * s == r * s - q * s;
    } else {
      PositiveProduct(q - r, s);
      assert (q - r) * s == q * s - r * s;
    }
  }

  /** The colours getRnadomColor picks from. */
  const Palette: seq<int> := [0xb3e0e5, 0x95d4da, 0x064273, 0x7fcdff, 0x1da2d8]

  /** The palette position getRnadomColor draws: an inclusive draw over 0 .. 4. */
  function ColorIndex(r: UnitDraw): (i: int)
    ensures 0 <= i < |Palette|
  {
    RandomNumber(0.0, (|Palette| - 1) as real, r).Floor
  }

  /** getRnadomColor: one of the five palette entries. */
  function RandomColor(r: UnitDraw): (c: int)
    ensures c in Palette
  {
    Palette[ColorIndex(r)]
  }

  /**
   * Each palette entry is picked exactly on its own fifth of [0, 1), so every
   * entry can be returned and all are equally likely.
   */
  lemma RandomColorSlice(r: UnitDraw, k: int)
    requires 0 <= k < |Palette|
    ensures RandomColor(r) == Palette[k] <==> k as real / 5.0 <= r < (k + 1) as real / 5.0
  {
    var n := RandomNumber(0.0, 4.0, r);
    assert ColorIndex(r) as real == n;
    RandomNumberSlice(0.0, 4.0, r, k);
    assert RandomColor(r) == Palette[k] <==> ColorIndex(r) == k;
  }
}
