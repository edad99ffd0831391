/** `range(start, end)` (src/lib/range.js): `|end - start|` consecutive
    integers counting up from `start`. */
module Ranges {

  function Abs(d: int): nat
  {
    if d < 0 then -d else d
  }

  /** `Array.from({ length: Math.abs(end - start) }, (_, i) => start + i)` */
  function Range(start: int, end: int): seq<int>
  {
    seq(Abs(end - start), i => start + i)
  }

  /** The list has `|end - start|` elements, the first being `start` and
      each one more than the one before. */
  lemma RangeShape(start: int, end: int)
    ensures |Range(start, end)| == Abs(end - start)
    ensures |Range(start, end)| > 0 ==> Range(start, end)[0] == start
    ensures forall i :: 0 < i < |Range(start, end)| ==>
      Range(start, end)[i] == Range(start, end)[i - 1] + 1
  {
  }

  /** Built up one element at a time: a range one longer ends with the
      next integer. */
  lemma {:induction false} RangeExtend(start: int, end: int)
    requires start <= end
    ensures Range(start, end + 1) == Range(start, end) + [end]
  {
    assert |Range(start, end + 1)| == |Range(start, end) + [end]|;
  }

  /** For `start <= end`, the list holds exactly the integers of
      `[start, end)`, in increasing order. */
  lemma {:induction false} RangeInterval(start: int, end: int)
    requires start <= end
    ensures forall k :: k in Range(start, end) <==> start <= k < end
    ensures forall i, j :: 0 <= i < j < |Range(start, end)| ==>
      Range(start, end)[i] < Range(start, end)[j]
    decreases end - start
  {
    if start < end {
      RangeInterval(start, end - 1);
      RangeExtend(start, end - 1);
    }
  }

  /** For `start > end` the list does not count down to `end`: it counts up
      from `start` by the same number of steps. */
  lemma RangeBackwards(start: int, end: int)
    requires start > end
    ensures Range(start, end) == Range(start, start + (start - end))
    ensures forall k :: k in Range(start, end) <==> start <= k < 2 * start - end
  {
    RangeInterval(start, 2 * start - end);
  }

  /** A range from a number to itself is empty. */
  lemma RangeEmpty(a: int)
    ensures Range(a, a) == []
  {
  }

  /** The documented examples. */
  lemma RangeExamples()
    ensures Range(1, 2) == [1]
    ensures Range(-1, 2) == [-1, 0, 1]
    ensures |Range(1, 1)| == 0
  {
    assert Range(-1, 2)[1] == 0;
  }
}
