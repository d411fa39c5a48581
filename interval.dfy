/** Half-open time intervals in epoch seconds and the overlap test that every
    controller writes as `!(aEnd <= bStart || aStart >= bEnd)`. */
module Interval {

  /** An interval `[start, end)` of epoch seconds: an appointment's or block's
      `[start_ts, end_ts)`, a business-hour range, or an emitted slot. */
  datatype Span = Span(start: int, end: int)

  /** `overlaps(aStart, aEnd, bStart, bEnd)`. */
  predicate Overlaps(aStart: int, aEnd: int, bStart: int, bEnd: int)
  {
    !(aEnd <= bStart || aStart >= bEnd)
  }

  /** The test does not depend on which interval comes first. */
  lemma OverlapsSymmetric(aStart: int, aEnd: int, bStart: int, bEnd: int)
    ensures Overlaps(aStart, aEnd, bStart, bEnd) == Overlaps(bStart, bEnd, aStart, aEnd)
  {
  }

  /** Intervals that merely touch (one ends where the other starts) do not overlap. */
  lemma TouchingDoNotOverlap(a: int, b: int, c: int)
    ensures !Overlaps(a, b, b, c) && !Overlaps(b, c, a, b)
  {
  }

  /** For non-empty intervals the test is exactly half-open intersection: they
      overlap iff some second lies in both. */
  lemma OverlapsIffCommonSecond(aStart: int, aEnd: int, bStart: int, bEnd: int)
    requires aStart < aEnd && bStart < bEnd
    ensures Overlaps(aStart, aEnd, bStart, bEnd)
            <==> exists t :: Within(t, aStart, aEnd) && Within(t, bStart, bEnd)
  {
    if Overlaps(aStart, aEnd, bStart, bEnd) {
      var t := if aStart < bStart then bStart else aStart;
      assert Within(t, aStart, aEnd) && Within(t, bStart, bEnd);
    }
  }

  /** Second t lies in `[start, end)`. */
  predicate Within(t: int, start: int, end: int)
  {
    start <= t < end
  }

  /** `list.some(([s, e]) => overlaps(slotStart, slotEnd, s, e))`. */
  predicate Clashes(slotStart: int, slotEnd: int, obstacles: seq<Span>)
  {
    exists i :: 0 <= i < |obstacles| && Overlaps(slotStart, slotEnd, obstacles[i].start, obstacles[i].end)
  }

  /** The busy list as `.sort((a, b) => a[0] - b[0])` leaves it. */
  predicate SortedByStart(busy: seq<Span>)
  {
    forall i, j :: 0 <= i < j < |busy| ==> busy[i].start <= busy[j].start
  }

  function Max(a: int, b: int): int { if a >= b then a else b }

  function Min(a: int, b: int): int { if a <= b then a else b }
}
