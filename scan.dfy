/** The two cursor scans over a doctor's busy intervals: `findSlot` of the
    booking handler (the first start of a 40-minute slot in a range) and
    `nextSlotAndCapacity` of the ranking handler (the first start and the number
    of slots). Both walk the busy list in start order with a cursor that begins
    at the range start, skip intervals that end at or before it, and move it past
    the interval they cannot fit in front of. */
module Scan {
  import opened Js
  import opened Interval
  import opened Sorting

  /** A free slot `[t, t + slot)` that overlaps none of `busy`. */
  predicate FreeAt(t: int, slot: int, busy: seq<Span>)
  {
    !Clashes(t, t + slot, busy)
  }

  /** A clash with a non-empty list is a clash with its head or with its tail. */
  lemma ClashesCons(s: int, e: int, busy: seq<Span>)
    requires |busy| > 0
    ensures Clashes(s, e, busy) <==> Overlaps(s, e, busy[0].start, busy[0].end) || Clashes(s, e, busy[1..])
  {
    if Clashes(s, e, busy) && !Overlaps(s, e, busy[0].start, busy[0].end) {
      var i :| 0 <= i < |busy| && Overlaps(s, e, busy[i].start, busy[i].end);
      assert busy[1..][i - 1] == busy[i];
    }
    if Clashes(s, e, busy[1..]) {
      var i :| 0 <= i < |busy[1..]| && Overlaps(s, e, busy[1..][i].start, busy[1..][i].end);
      assert busy[i + 1] == busy[1..][i];
    }
  }

  /** `findSlot(busy, [cursor, rangeEnd])`: the cursor if the next busy interval
      that ends after it leaves `slot` seconds in front of it; otherwise the
      cursor jumps to that interval's end, and the scan gives up once the cursor
      reaches the range end. With no busy interval left, the cursor is returned
      when `slot` seconds remain before the range end. */
  function ScanFirst(busy: seq<Span>, cursor: int, rangeEnd: int, slot: int): Option<int>
    decreases |busy|
  {
    if |busy| == 0 then
      if rangeEnd - cursor >= slot then Some(cursor) else None
    else if busy[0].end <= cursor then
      ScanFirst(busy[1..], cursor, rangeEnd, slot)
    else if busy[0].start - cursor >= slot then
      Some(cursor)
    else
      var c := Max(cursor, busy[0].end);
      if c >= rangeEnd then None else ScanFirst(busy[1..], c, rangeEnd, slot)
  }

  /** What `findSlot` returns is the earliest free start: every start between
      the range start and the returned one clashes with a busy interval, and
      when nothing is returned every slot that fits in the range clashes. This
      holds for any order of the busy list. */
  lemma {:induction false} ScanFirstEarliest(busy: seq<Span>, cursor: int, rangeEnd: int, slot: int)
    requires slot > 0
    ensures var r := ScanFirst(busy, cursor, rangeEnd, slot);
            r.Some? ==> cursor <= r.value && forall t :: cursor <= t < r.value ==> !FreeAt(t, slot, busy)
    ensures ScanFirst(busy, cursor, rangeEnd, slot).None? ==>
              forall t :: cursor <= t && t + slot <= rangeEnd ==> !FreeAt(t, slot, busy)
    decreases |busy|
  {
    if |busy| > 0 {
      var b := busy[0];
      var rest := busy[1..];
      if b.end <= cursor {
        ScanFirstEarliest(rest, cursor, rangeEnd, slot);
        forall t | !FreeAt(t, slot, rest) ensures !FreeAt(t, slot, busy) {
          ClashesCons(t, t + slot, busy);
        }
      } else if b.start - cursor < slot {
        var c := Max(cursor, b.end);
        forall t | cursor <= t < c ensures !FreeAt(t, slot, busy) {
          ClashesCons(t, t + slot, busy);
        }
        if c < rangeEnd {
          ScanFirstEarliest(rest, c, rangeEnd, slot);
          forall t | !FreeAt(t, slot, rest) ensures !FreeAt(t, slot, busy) {
            ClashesCons(t, t + slot, busy);
          }
        }
      }
    }
  }

  /** On a busy list in start order, what `findSlot` returns is a free start. */
  lemma {:induction false} ScanFirstFree(busy: seq<Span>, cursor: int, rangeEnd: int, slot: int)
    requires slot > 0 && SortedByStart(busy)
    ensures var r := ScanFirst(busy, cursor, rangeEnd, slot);
            r.Some? ==> cursor <= r.value && FreeAt(r.value, slot, busy)
    decreases |busy|
  {
    if |busy| > 0 {
      var b := busy[0];
      var rest := busy[1..];
      var r := ScanFirst(busy, cursor, rangeEnd, slot);
      if b.end <= cursor {
        ScanFirstFree(rest, cursor, rangeEnd, slot);
        if r.Some? {
          ClashesCons(r.value, r.value + slot, busy);
        }
      } else if b.start - cursor >= slot {
        forall i | 0 <= i < |busy| ensures !Overlaps(cursor, cursor + slot, busy[i].start, busy[i].end) {
          assert busy[0].start <= busy[i].start;
        }
      } else {
        var c := Max(cursor, b.end);
        if c < rangeEnd {
          ScanFirstFree(rest, c, rangeEnd, slot);
          if r.Some? {
            ClashesCons(r.value, r.value + slot, busy);
          }
        }
      }
    }
  }

  /** A start `findSlot` returns either leaves the slot inside the range or lies
      in front of a busy interval that starts at least `slot` seconds later: the
      in-loop return does not look at the range end. */
  lemma {:induction false} ScanFirstFits(busy: seq<Span>, cursor: int, rangeEnd: int, slot: int)
    ensures var r := ScanFirst(busy, cursor, rangeEnd, slot);
            r.Some? ==> r.value + slot <= rangeEnd || exists i :: 0 <= i < |busy| && busy[i].start - r.value >= slot
    decreases |busy|
  {
    var r := ScanFirst(busy, cursor, rangeEnd, slot);
    if |busy| > 0 && r.Some? {
      var rest := busy[1..];
      if busy[0].end <= cursor {
        ScanFirstFits(rest, cursor, rangeEnd, slot);
      } else if busy[0].start - cursor < slot {
        ScanFirstFits(rest, Max(cursor, busy[0].end), rangeEnd, slot);
      }
      if r.value + slot > rangeEnd && busy[0].start - r.value < slot {
        var i :| 0 <= i < |rest| && rest[i].start - r.value >= slot;
        assert busy[i + 1] == rest[i];
      }
    }
  }

  /** A start `findSlot` returns from a non-empty range lies before the range
      end: the cursor is given up on as soon as it reaches the end. */
  lemma {:induction false} ScanFirstBelow(busy: seq<Span>, cursor: int, rangeEnd: int, slot: int)
    requires slot > 0 && cursor < rangeEnd
    ensures var r := ScanFirst(busy, cursor, rangeEnd, slot);
            r.Some? ==> r.value < rangeEnd
    decreases |busy|
  {
    if |busy| > 0 {
      if busy[0].end <= cursor {
        ScanFirstBelow(busy[1..], cursor, rangeEnd, slot);
      } else if busy[0].start - cursor < slot && Max(cursor, busy[0].end) < rangeEnd {
        ScanFirstBelow(busy[1..], Max(cursor, busy[0].end), rangeEnd, slot);
      }
    }
  }

  /** The booking handler's `findSlot`, loop for loop. */
  method FindSlot(busy: seq<Span>, rangeStart: int, rangeEnd: int, slot: int) returns (r: Option<int>)
    ensures r == ScanFirst(busy, rangeStart, rangeEnd, slot)
  {
    var cursor := rangeStart;
    var i := 0;
    while i < |busy|
      invariant 0 <= i <= |busy|
      invariant ScanFirst(busy[i..], cursor, rangeEnd, slot) == ScanFirst(busy, rangeStart, rangeEnd, slot)
    {
      assert busy[i..][1..] == busy[i + 1..];
      var bs, be := busy[i].start, busy[i].end;
      if be <= cursor {
        i := i + 1;
        continue;
      }
      if bs - cursor >= slot {
        return Some(cursor);
      }
      cursor := Max(cursor, be);
      if cursor >= rangeEnd {
        return None;
      }
      i := i + 1;
    }
    r := if rangeEnd - cursor >= slot then Some(cursor) else None;
  }

  /** The starts `from`, `from + slot`, ... that `while (limit - cursor >= slot)`
      steps through. */
  function Run(from: int, limit: int, slot: int): seq<int>
    requires slot > 0
    decreases limit - from
  {
    if limit - from >= slot then [from] + Run(from + slot, limit, slot) else []
  }

  /** Where that loop leaves the cursor. */
  function RunEnd(from: int, limit: int, slot: int): int
    requires slot > 0
    decreases limit - from
  {
    if limit - from >= slot then RunEnd(from + slot, limit, slot) else from
  }

  /** Starts `slot` or more seconds apart, in increasing order. */
  predicate Spaced(starts: seq<int>, slot: int)
  {
    forall i, j :: 0 <= i < j < |starts| ==> starts[i] + slot <= starts[j]
  }

  /** A run's starts are spaced by the slot, begin at `from`, leave each slot
      before `limit`, and stop where the cursor is left. */
  lemma {:induction false} RunFacts(from: int, limit: int, slot: int)
    requires slot > 0
    ensures Spaced(Run(from, limit, slot), slot)
    ensures forall t :: t in Run(from, limit, slot) ==> from <= t && t + slot <= limit && t + slot <= RunEnd(from, limit, slot)
    ensures from <= RunEnd(from, limit, slot) && limit - RunEnd(from, limit, slot) < slot
    decreases limit - from
  {
    if limit - from >= slot {
      RunFacts(from + slot, limit, slot);
      var r := Run(from, limit, slot);
      var rest := Run(from + slot, limit, slot);
      assert r == [from] + rest;
      forall i, j | 0 <= i < j < |r| ensures r[i] + slot <= r[j] {
        assert r[j] == rest[j - 1] && r[j] in rest;
        if i > 0 {
          assert r[i] == rest[i - 1];
        }
      }
    }
  }

  /** The run is exactly `from`, `from + slot`, ...: one start per whole slot
      that fits between `from` and `limit`, and the cursor is left right after
      the last of them. */
  lemma RunExact(from: int, limit: int, slot: int)
    requires slot > 0
    ensures limit >= from ==> |Run(from, limit, slot)| * slot <= limit - from < |Run(from, limit, slot)| * slot + slot
    ensures limit < from ==> |Run(from, limit, slot)| == 0
    ensures forall k :: 0 <= k < |Run(from, limit, slot)| ==> Run(from, limit, slot)[k] == from + k * slot
    ensures RunEnd(from, limit, slot) == from + |Run(from, limit, slot)| * slot
  {
    RunLength(from, limit, slot);
    RunStarts(from, limit, slot);
    RunEndAt(from, limit, slot);
  }

  lemma {:induction false} RunLength(from: int, limit: int, slot: int)
    requires slot > 0
    ensures limit >= from ==> |Run(from, limit, slot)| * slot <= limit - from < |Run(from, limit, slot)| * slot + slot
    ensures limit < from ==> |Run(from, limit, slot)| == 0
    decreases limit - from
  {
    if limit - from >= slot {
      RunLength(from + slot, limit, slot);
      var n := |Run(from + slot, limit, slot)|;
      assert |Run(from, limit, slot)| == n + 1;
      assert (n + 1) * slot == n * slot + slot;
    }
  }

  lemma {:induction false} RunStarts(from: int, limit: int, slot: int)
    requires slot > 0
    ensures forall k :: 0 <= k < |Run(from, limit, slot)| ==> Run(from, limit, slot)[k] == from + k * slot
    decreases limit - from
  {
    if limit - from >= slot {
      RunStarts(from + slot, limit, slot);
      var r := Run(from, limit, slot);
      var rest := Run(from + slot, limit, slot);
      assert r == [from] + rest;
      forall k | 0 <= k < |r| ensures r[k] == from + k * slot {
        if k > 0 {
          assert r[k] == rest[k - 1] == from + slot + (k - 1) * slot;
        }
      }
    }
  }

  lemma {:induction false} RunEndAt(from: int, limit: int, slot: int)
    requires slot > 0
    ensures RunEnd(from, limit, slot) == from + |Run(from, limit, slot)| * slot
    decreases limit - from
  {
    if limit - from >= slot {
      RunEndAt(from + slot, limit, slot);
      var n := |Run(from + slot, limit, slot)|;
      assert |Run(from, limit, slot)| == n + 1;
      assert from + slot + n * slot == from + (n + 1) * slot;
    }
  }

  /** The starts `nextSlotAndCapacity` counts from `cursor` on, in order: the
      ones in front of each busy interval that ends after the cursor, and after
      the last busy interval those before the range end. An end that is NaN
      (None) never stops the scan and leaves nothing to count after the list. */
  function CountedStarts(busy: seq<Span>, cursor: int, end: Option<int>, slot: int): seq<int>
    requires slot > 0
    decreases |busy|
  {
    if |busy| == 0 then
      if end.Some? then Run(cursor, end.value, slot) else []
    else if busy[0].end <= cursor then
      CountedStarts(busy[1..], cursor, end, slot)
    else
      var c := Max(RunEnd(cursor, busy[0].start, slot), busy[0].end);
      Run(cursor, busy[0].start, slot)
      + (if end.Some? && c >= end.value then [] else CountedStarts(busy[1..], c, end, slot))
  }

  /** On a busy list in start order the counted starts are free slots, at or
      after the range start, pairwise `slot` apart (so the counted slots do not
      overlap one another). */
  lemma {:induction false} CountedStartsFree(busy: seq<Span>, cursor: int, end: Option<int>, slot: int)
    requires slot > 0 && SortedByStart(busy)
    ensures Spaced(CountedStarts(busy, cursor, end, slot), slot)
    ensures forall t :: t in CountedStarts(busy, cursor, end, slot) ==> cursor <= t && FreeAt(t, slot, busy)
    decreases |busy|
  {
    var cs := CountedStarts(busy, cursor, end, slot);
    if |busy| == 0 {
      if end.Some? {
        RunFacts(cursor, end.value, slot);
      }
    } else {
      var b := busy[0];
      var rest := busy[1..];
      if b.end <= cursor {
        CountedStartsFree(rest, cursor, end, slot);
        forall t | t in cs ensures FreeAt(t, slot, busy) {
          ClashesCons(t, t + slot, busy);
        }
      } else {
        var run := Run(cursor, b.start, slot);
        var c := Max(RunEnd(cursor, b.start, slot), b.end);
        var tail := if end.Some? && c >= end.value then [] else CountedStarts(rest, c, end, slot);
        RunFacts(cursor, b.start, slot);
        CountedStartsFree(rest, c, end, slot);
        assert cs == run + tail;
        forall t | t in run ensures FreeAt(t, slot, busy) {
          forall i | 0 <= i < |busy| ensures !Overlaps(t, t + slot, busy[i].start, busy[i].end) {
            assert busy[0].start <= busy[i].start;
          }
        }
        forall t | t in tail ensures FreeAt(t, slot, busy) {
          ClashesCons(t, t + slot, busy);
        }
        forall i, j | 0 <= i < j < |cs| ensures cs[i] + slot <= cs[j] {
          if j < |run| {
            assert cs[i] == run[i] && cs[j] == run[j];
          } else if i < |run| {
            assert cs[i] == run[i] && cs[i] in run;
            assert cs[j] == tail[j - |run|] && cs[j] in tail;
          } else {
            assert cs[i] == tail[i - |run|] && cs[j] == tail[j - |run|];
          }
        }
      }
    }
  }

  /** The first counted start is what `findSlot` would choose in the same range:
      the ranking's `next_available_at` and the booking's slot agree, and there
      is something to count exactly when `findSlot` finds something. */
  lemma {:induction false} CountedStartsFirst(busy: seq<Span>, cursor: int, end: int, slot: int)
    requires slot > 0
    ensures var cs := CountedStarts(busy, cursor, Some(end), slot);
            (cs == [] <==> ScanFirst(busy, cursor, end, slot).None?)
            && (cs != [] ==> ScanFirst(busy, cursor, end, slot) == Some(cs[0]))
    decreases |busy|
  {
    if |busy| > 0 {
      if busy[0].end <= cursor {
        CountedStartsFirst(busy[1..], cursor, end, slot);
      } else if busy[0].start - cursor < slot {
        var c := Max(cursor, busy[0].end);
        assert RunEnd(cursor, busy[0].start, slot) == cursor;
        if c < end {
          CountedStartsFirst(busy[1..], c, end, slot);
        }
      }
    }
  }

  /** A busy interval's start, the sort key of `busy`. */
  function StartOf(s: Span): int { s.start }

  /** Capacity and first start of a range, as counted from its start `s`; a
      NaN start (None) counts nothing, since every comparison with it fails. */
  function RangeStarts(spans: seq<Span>, s: Option<int>, e: Option<int>, slot: int): seq<int>
    requires slot > 0
  {
    if s.None? then [] else CountedStarts(SortBy(spans, StartOf), s.value, e, slot)
  }

  /** A slot from t fits in front of some busy interval. */
  predicate InFront(t: int, slot: int, busy: seq<Span>)
  {
    exists i :: 0 <= i < |busy| && t + slot <= busy[i].start
  }

  /** A counted start either leaves its slot before the range end or lies at
      least a slot in front of some busy interval's start: the counting in front
      of a busy interval does not look at the range end. */
  lemma {:induction false} CountedStartsFit(busy: seq<Span>, cursor: int, end: Option<int>, slot: int)
    requires slot > 0
    ensures forall t :: t in CountedStarts(busy, cursor, end, slot) ==>
              (end.Some? && t + slot <= end.value) || InFront(t, slot, busy)
    decreases |busy|
  {
    if |busy| == 0 {
      if end.Some? {
        RunFacts(cursor, end.value, slot);
      }
    } else {
      var rest := busy[1..];
      forall t | InFront(t, slot, rest) ensures InFront(t, slot, busy) {
        var i :| 0 <= i < |rest| && t + slot <= rest[i].start;
        assert busy[i + 1] == rest[i];
      }
      if busy[0].end <= cursor {
        CountedStartsFit(rest, cursor, end, slot);
      } else {
        var c := Max(RunEnd(cursor, busy[0].start, slot), busy[0].end);
        RunFacts(cursor, busy[0].start, slot);
        CountedStartsFit(rest, c, end, slot);
      }
    }
  }

  /** Clashing does not depend on the order of the busy list. */
  lemma ClashesOfPermutation(s: int, e: int, a: seq<Span>, b: seq<Span>)
    requires multiset(a) == multiset(b)
    ensures Clashes(s, e, a) <==> Clashes(s, e, b)
  {
    if Clashes(s, e, a) {
      var i :| 0 <= i < |a| && Overlaps(s, e, a[i].start, a[i].end);
      assert a[i] in multiset(b);
      var j :| 0 <= j < |b| && b[j] == a[i];
    }
    if Clashes(s, e, b) {
      var j :| 0 <= j < |b| && Overlaps(s, e, b[j].start, b[j].end);
      assert b[j] in multiset(a);
      var i :| 0 <= i < |a| && a[i] == b[j];
    }
  }

  /** The starts a range counts, as `nextSlotAndCapacity` promises them: none
      when the range start is NaN; otherwise each at or after the range start,
      `slot` apart from the next, free of every busy interval of the unsorted
      list, and either ending by the range end or lying a slot in front of a
      busy interval. */
  lemma RangeStartsFacts(spans: seq<Span>, s: Option<int>, e: Option<int>, slot: int)
    requires slot > 0
    ensures s.None? ==> RangeStarts(spans, s, e, slot) == []
    ensures Spaced(RangeStarts(spans, s, e, slot), slot)
    ensures forall t :: t in RangeStarts(spans, s, e, slot) ==>
              s.value <= t && FreeAt(t, slot, spans)
              && ((e.Some? && t + slot <= e.value) || InFront(t, slot, spans))
  {
    if s.Some? {
      var busy := SortBy(spans, StartOf);
      SortBySortedPermutation(spans, StartOf);
      assert SortedByStart(busy) by {
        forall i, j | 0 <= i < j < |busy| ensures busy[i].start <= busy[j].start {
          assert StartOf(busy[i]) <= StartOf(busy[j]);
        }
      }
      CountedStartsFree(busy, s.value, e, slot);
      CountedStartsFit(busy, s.value, e, slot);
      forall t | t in RangeStarts(spans, s, e, slot)
        ensures FreeAt(t, slot, spans)
        ensures (e.Some? && t + slot <= e.value) || InFront(t, slot, spans)
      {
        ClashesOfPermutation(t, t + slot, busy, spans);
        if !(e.Some? && t + slot <= e.value) {
          var k :| 0 <= k < |busy| && t + slot <= busy[k].start;
          assert busy[k] in multiset(spans);
          var i :| 0 <= i < |spans| && spans[i] == busy[k];
        }
      }
    }
  }

  /** The first element of a list of starts, None when there is none. */
  function Head(starts: seq<int>): (h: Option<int>)
    ensures h.None? <==> starts == []
    ensures h.Some? ==> h.value == starts[0]
  {
    if starts == [] then None else Some(starts[0])
  }

  lemma HeadAppend(a: seq<int>, b: seq<int>)
    ensures Head(a + b) == if a == [] then Head(b) else Head(a)
  {
    if a == [] {
      assert a + b == b;
    } else {
      assert (a + b)[0] == a[0];
    }
  }

  /** One step of the scan in front of a busy interval that ends after the
      cursor. */
  lemma CountedStartsStep(busy: seq<Span>, cursor: int, end: Option<int>, slot: int, c: int)
    requires slot > 0 && |busy| > 0 && busy[0].end > cursor
    requires c == Max(RunEnd(cursor, busy[0].start, slot), busy[0].end)
    ensures CountedStarts(busy, cursor, end, slot)
            == Run(cursor, busy[0].start, slot) + (if end.Some? && c >= end.value then [] else CountedStarts(busy[1..], c, end, slot))
  {
  }

  /** `while (limit - cursor >= slotSec)`: takes every slot start in front of
      `limit`, counting it and remembering the first one taken overall. */
  method TakeRun(from: int, limit: int, slot: int, next0: Option<int>, capacity0: nat)
    returns (cursor: int, next: Option<int>, capacity: nat)
    requires slot > 0
    ensures cursor == RunEnd(from, limit, slot)
    ensures capacity == capacity0 + |Run(from, limit, slot)|
    ensures next == if next0.None? then Head(Run(from, limit, slot)) else next0
  {
    cursor, next, capacity := from, next0, capacity0;
    ghost var taken: seq<int> := [];
    while limit - cursor >= slot
      invariant taken + Run(cursor, limit, slot) == Run(from, limit, slot)
      invariant RunEnd(cursor, limit, slot) == RunEnd(from, limit, slot)
      invariant capacity == capacity0 + |taken|
      invariant next == if next0.None? then Head(taken) else next0
      decreases limit - cursor
    {
      if next.None? {
        next := Some(cursor);
      }
      capacity := capacity + 1;
      HeadAppend(taken, [cursor]);
      taken := taken + [cursor];
      cursor := cursor + slot;
    }
    HeadAppend(taken, []);
    assert taken + [] == taken;
  }

  /** The loop body of `nextSlotAndCapacity` for the busy interval
      `rest[0]`: skip it when it ends by the cursor; otherwise take the starts
      in front of it, move the cursor past it, and stop when the cursor
      reaches the range end. */
  method PassBusy(rest: seq<Span>, cursor0: int, next0: Option<int>, capacity0: nat, end: Option<int>, slot: int,
                  ghost counted0: seq<int>)
    returns (cursor: int, next: Option<int>, capacity: nat, stop: bool, ghost counted: seq<int>)
    requires slot > 0 && |rest| > 0
    requires capacity0 == |counted0| && next0 == Head(counted0)
    ensures capacity == |counted| && next == Head(counted)
    ensures cursor >= cursor0 && (rest[0].end > cursor0 ==> cursor >= rest[0].end)
    ensures stop ==> end.Some? && cursor >= end.value
    ensures stop ==> counted == counted0 + CountedStarts(rest, cursor0, end, slot)
    ensures !stop ==> counted + CountedStarts(rest[1..], cursor, end, slot) == counted0 + CountedStarts(rest, cursor0, end, slot)
  {
    if rest[0].end <= cursor0 {
      return cursor0, next0, capacity0, false, counted0;
    }
    ghost var run := Run(cursor0, rest[0].start, slot);
    cursor, next, capacity := TakeRun(cursor0, rest[0].start, slot, next0, capacity0);
    HeadAppend(counted0, run);
    cursor := Max(cursor, rest[0].end);
    CountedStartsStep(rest, cursor0, end, slot, cursor);
    counted := counted0 + run;
    stop := end.Some? && cursor >= end.value;
    if stop {
      assert run + [] == run;
    }
  }

  /** `nextSlotAndCapacity(apps, overlapStart, overlapEnd, slotSec)`: sorts the
      busy intervals by start and walks them; `next` is the first counted start
      (null when none) and `capacity` the number of counted starts. */
  method NextSlotAndCapacity(spans: seq<Span>, overlapStart: Option<int>, overlapEnd: Option<int>, slot: int)
    returns (next: Option<int>, capacity: nat)
    requires slot > 0
    ensures capacity == |RangeStarts(spans, overlapStart, overlapEnd, slot)|
    ensures next == Head(RangeStarts(spans, overlapStart, overlapEnd, slot))
  {
    next, capacity := None, 0;
    if overlapStart.None? {
      return;
    }
    var busy := SortBy(spans, StartOf);
    var cursor := overlapStart.value;
    ghost var target := RangeStarts(spans, overlapStart, overlapEnd, slot);
    ghost var counted: seq<int> := [];
    var i := 0;
    var stopped := false;
    while i < |busy| && !stopped
      invariant 0 <= i <= |busy|
      invariant capacity == |counted| && next == Head(counted)
      invariant !stopped ==> counted + CountedStarts(busy[i..], cursor, overlapEnd, slot) == target
      invariant stopped ==> counted == target
    {
      assert busy[i..][1..] == busy[i + 1..];
      cursor, next, capacity, stopped, counted := PassBusy(busy[i..], cursor, next, capacity, overlapEnd, slot, counted);
      i := i + 1;
    }
    if !stopped {
      assert busy[i..] == [];
      next, capacity := PassEnd(cursor, next, capacity, overlapEnd, slot, counted);
    }
  }

  /** After the last busy interval: the starts before the range end, none
      when the end is NaN. */
  method PassEnd(cursor: int, next0: Option<int>, capacity0: nat, end: Option<int>, slot: int, ghost counted: seq<int>)
    returns (next: Option<int>, capacity: nat)
    requires slot > 0 && capacity0 == |counted| && next0 == Head(counted)
    ensures capacity == |counted + CountedStarts([], cursor, end, slot)|
    ensures next == Head(counted + CountedStarts([], cursor, end, slot))
  {
    next, capacity := next0, capacity0;
    if end.Some? {
      ghost var run := Run(cursor, end.value, slot);
      var last;
      last, next, capacity := TakeRun(cursor, end.value, slot, next, capacity);
      HeadAppend(counted, run);
    } else {
      assert counted + [] == counted;
    }
  }
}
