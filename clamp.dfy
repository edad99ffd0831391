/** `clamp(num, { min, max })` (src/lib/clamp.js): `Math.max(Math.min(num,
    max), min)`, where an omitted bound defaults to an infinity and so never
    takes effect. */
module Clamping {
  import opened Options

  function Min(a: int, b: int): int
  {
    if a <= b then a else b
  }

  function Max(a: int, b: int): int
  {
    if a >= b then a else b
  }

  /** `Math.min(num, max)`, then `Math.max(_, min)`; `None` stands for the
      default `Infinity` or `-Infinity`. */
  function Clamp(num: int, min: Option<int>, max: Option<int>): (r: int)
    ensures min.Some? ==> r >= min.value
    ensures max.Some? && (min.None? || min.value <= max.value) ==> r <= max.value
    ensures r == num || (min.Some? && r == min.value) || (max.Some? && r == max.value)
  {
    var upper := if max.Some? then Min(num, max.value) else num;
    if min.Some? then Max(upper, min.value) else upper
  }

  /** Whether `num` lies between the bounds that are given. */
  predicate Within(num: int, min: Option<int>, max: Option<int>)
  {
    (min.None? || min.value <= num) && (max.None? || num <= max.value)
  }

  /** A number between the bounds comes back unchanged, and only such a
      number does (when the bounds are ordered). */
  lemma ClampWithin(num: int, min: Option<int>, max: Option<int>)
    requires min.None? || max.None? || min.value <= max.value
    ensures Clamp(num, min, max) == num <==> Within(num, min, max)
  {
  }

  /** Below the lower bound the result is that bound; above the upper
      bound it is that bound, provided the bounds are ordered. */
  lemma ClampOutside(num: int, min: Option<int>, max: Option<int>)
    requires min.None? || max.None? || min.value <= max.value
    ensures min.Some? && num < min.value ==> Clamp(num, min, max) == min.value
    ensures max.Some? && num > max.value ==> Clamp(num, min, max) == max.value
  {
  }

  /** Bounds in the wrong order: `Math.max` is applied last, so the lower
      bound wins. */
  lemma ClampCrossed(num: int, min: int, max: int)
    requires min > max
    ensures Clamp(num, Some(min), Some(max)) == min
  {
  }

  /** Clamping twice with the same bounds is clamping once. */
  lemma ClampIdempotent(num: int, min: Option<int>, max: Option<int>)
    ensures Clamp(Clamp(num, min, max), min, max) == Clamp(num, min, max)
  {
  }

  /** With no bounds at all, every number comes back unchanged. */
  lemma ClampUnbounded(num: int)
    ensures Clamp(num, None, None) == num
  {
  }

  /** The documented examples on integers. */
  lemma ClampExamples()
    ensures Clamp(0, Some(-1), Some(1)) == 0
    ensures Clamp(-2, Some(-1), Some(1)) == -1 && Clamp(2, Some(-1), Some(1)) == 1
    ensures Clamp(10, Some(0), None) == 10 && Clamp(-10, Some(0), None) == 0
    ensures Clamp(10, None, Some(0)) == 0 && Clamp(-10, None, Some(0)) == -10
  {
  }
}
