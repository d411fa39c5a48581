/** The fixed-grid slot walk shared by the slot and calendar controllers: for a
    business-hour range `[start, end)` of a day, the cells `[cur, cur + step)`
    for cur = start, start + step, ... while `cur + step <= end`; a cell is
    emitted (or counted) when it overlaps no taken and no blocked interval, and
    the cursor advances by `step` whether or not the cell was free. */
module Grid {
  import opened Js
  import opened Clock
  import opened Interval
  import opened Records

  /** The `conflict` test of the walk, negated. */
  predicate Free(s: int, e: int, taken: seq<Span>, blocked: seq<Span>)
  {
    !Clashes(s, e, taken) && !Clashes(s, e, blocked)
  }

  /** t is a grid point of a walk that starts at `origin` with stride `step`:
      t is origin, origin + step, origin + 2·step, ... */
  predicate OnGrid(t: int, origin: int, step: int)
    requires step > 0
    decreases t - origin
  {
    t == origin || (origin + step <= t && OnGrid(t, origin + step, step))
  }

  /** The free cells of one range, in walk order. */
  function RuleCells(cur: int, end: int, step: int, taken: seq<Span>, blocked: seq<Span>): seq<Span>
    requires step > 0
    decreases end - cur
  {
    if cur + step <= end then
      (if Free(cur, cur + step, taken, blocked) then [Span(cur, cur + step)] else [])
      + RuleCells(cur + step, end, step, taken, blocked)
    else []
  }

  /** What every emitted cell of a range starting at `origin` satisfies. */
  predicate CellOf(x: Span, origin: int, end: int, step: int, taken: seq<Span>, blocked: seq<Span>)
    requires step > 0
  {
    x.end == x.start + step && OnGrid(x.start, origin, step) && x.end <= end
    && Free(x.start, x.end, taken, blocked)
  }

  /** Every emitted cell is `step` long, starts on the grid of the range, ends
      by the range's end and overlaps no taken and no blocked interval. */
  lemma {:induction false} RuleCellsSound(cur: int, end: int, step: int, taken: seq<Span>, blocked: seq<Span>)
    requires step > 0
    ensures forall x :: x in RuleCells(cur, end, step, taken, blocked) ==> CellOf(x, cur, end, step, taken, blocked)
    decreases end - cur
  {
    if cur + step <= end {
      RuleCellsSound(cur + step, end, step, taken, blocked);
      forall x | x in RuleCells(cur + step, end, step, taken, blocked)
        ensures CellOf(x, cur, end, step, taken, blocked)
      {
        assert OnGrid(x.start, cur, step);
      }
    }
  }

  /** Every free grid cell that fits in the range is emitted: the cursor moves on
      after a conflict, so a busy cell never hides a later free one. */
  lemma {:induction false} RuleCellsComplete(cur: int, end: int, step: int, taken: seq<Span>, blocked: seq<Span>, t: int)
    requires step > 0
    requires OnGrid(t, cur, step) && t + step <= end && Free(t, t + step, taken, blocked)
    ensures Span(t, t + step) in RuleCells(cur, end, step, taken, blocked)
    decreases end - cur
  {
    if t != cur {
      RuleCellsComplete(cur + step, end, step, taken, blocked, t);
    }
  }

  /** Each interval ends before or when the next one starts. */
  predicate Ascending(r: seq<Span>)
  {
    forall i, j :: 0 <= i < j < |r| ==> r[i].end <= r[j].start
  }

  /** An interval in front of an ascending list keeps it ascending. */
  lemma AscendingCons(a: Span, rest: seq<Span>)
    requires Ascending(rest) && forall x :: x in rest ==> a.end <= x.start
    ensures Ascending([a] + rest)
  {
    var r := [a] + rest;
    forall i, j | 0 <= i < j < |r| ensures r[i].end <= r[j].start {
      assert r[j] == rest[j - 1] && r[j] in rest;
      if i > 0 {
        assert r[i] == rest[i - 1];
      }
    }
  }

  /** The cells of one range come out in ascending order and do not overlap one
      another. */
  lemma {:induction false} RuleCellsOrdered(cur: int, end: int, step: int, taken: seq<Span>, blocked: seq<Span>)
    requires step > 0
    ensures Ascending(RuleCells(cur, end, step, taken, blocked))
    decreases end - cur
  {
    if cur + step <= end {
      var r := RuleCells(cur, end, step, taken, blocked);
      var rest := RuleCells(cur + step, end, step, taken, blocked);
      RuleCellsOrdered(cur + step, end, step, taken, blocked);
      if Free(cur, cur + step, taken, blocked) {
        RuleCellsAfter(cur + step, end, step, taken, blocked);
        AscendingCons(Span(cur, cur + step), rest);
        assert r == [Span(cur, cur + step)] + rest;
        assert Ascending(r);
      } else {
        assert r == rest;
        assert Ascending(r);
      }
    } else {
      assert RuleCells(cur, end, step, taken, blocked) == [];
      assert Ascending([]);
    }
  }

  /** No cell starts before the cursor. */
  lemma {:induction false} RuleCellsAfter(cur: int, end: int, step: int, taken: seq<Span>, blocked: seq<Span>)
    requires step > 0
    ensures forall x :: x in RuleCells(cur, end, step, taken, blocked) ==> cur <= x.start
    decreases end - cur
  {
    if cur + step <= end {
      RuleCellsAfter(cur + step, end, step, taken, blocked);
    }
  }

  /** A range of length L holds at most floor(L / step) cells. */
  lemma {:induction false} RuleCellsCount(cur: int, end: int, step: int, taken: seq<Span>, blocked: seq<Span>)
    requires step > 0
    ensures |RuleCells(cur, end, step, taken, blocked)| * step <= if cur <= end then end - cur else 0
    decreases end - cur
  {
    if cur + step <= end {
      var n := |RuleCells(cur + step, end, step, taken, blocked)|;
      RuleCellsCount(cur + step, end, step, taken, blocked);
      assert n * step <= end - cur - step;
      assert (n + 1) * step == n * step + step;
    }
  }

  /** The walk of one range, as the slot and calendar controllers write it
      (`while (cur + slot <= end) { ...; cur += slot }`), collecting free cells. */
  method WalkRule(start: int, end: int, step: int, taken: seq<Span>, blocked: seq<Span>) returns (cells: seq<Span>)
    requires step > 0
    ensures cells == RuleCells(start, end, step, taken, blocked)
  {
    cells := [];
    var cur := start;
    while cur + step <= end
      invariant cells + RuleCells(cur, end, step, taken, blocked) == RuleCells(start, end, step, taken, blocked)
      decreases end - cur
    {
      var slotStart, slotEnd := cur, cur + step;
      var conflict := Clashes(slotStart, slotEnd, taken) || Clashes(slotStart, slotEnd, blocked);
      if !conflict {
        cells := cells + [Span(slotStart, slotEnd)];
      }
      cur := cur + step;
    }
  }

  /** The same walk, counting free cells (`if (!conflict) count++`). */
  method CountRule(start: int, end: int, step: int, taken: seq<Span>, blocked: seq<Span>) returns (count: nat)
    requires step > 0
    ensures count == |RuleCells(start, end, step, taken, blocked)|
  {
    count := 0;
    var cur := start;
    while cur + step <= end
      invariant count + |RuleCells(cur, end, step, taken, blocked)| == |RuleCells(start, end, step, taken, blocked)|
      decreases end - cur
    {
      var conflict := Clashes(cur, cur + step, taken) || Clashes(cur, cur + step, blocked);
      if !conflict {
        count := count + 1;
      }
      cur := cur + step;
    }
  }

  /** `bhs.filter(bh => dayMap[String(bh.day).toLowerCase()] === dow)`: the rows
      whose day name stands for weekday `dow`, in row order; a row whose day is
      not a day name is never selected. */
  function TodaysRules(bhs: seq<BusinessHour>, dow: nat): (r: seq<BusinessHour>)
    ensures forall x :: x in r <==> x in bhs && RuleWeekday(x.day) == Some(dow)
  {
    if |bhs| == 0 then []
    else (if RuleWeekday(bhs[0].day) == Some(dow) then [bhs[0]] else []) + TodaysRules(bhs[1..], dow)
  }

  /** The cells of one business-hour row on `day`. */
  function RowCells(day: int, row: BusinessHour, step: int, taken: seq<Span>, blocked: seq<Span>): seq<Span>
    requires step > 0
  {
    RuleCells(ClockSecond(day, row.start), ClockSecond(day, row.end), step, taken, blocked)
  }

  /** The cells of the rows of a day, row after row. */
  function RulesSlots(day: int, rules: seq<BusinessHour>, step: int, taken: seq<Span>, blocked: seq<Span>): seq<Span>
    requires step > 0
  {
    if |rules| == 0 then []
    else RulesSlots(day, rules[..|rules| - 1], step, taken, blocked) + RowCells(day, rules[|rules| - 1], step, taken, blocked)
  }

  /** The inner loop of the slot handlers: the walk of each of a day's rows in
      turn, collecting the free cells. */
  method WalkRules(day: int, rules: seq<BusinessHour>, step: int, taken: seq<Span>, blocked: seq<Span>) returns (out: seq<Span>)
    requires step > 0
    ensures out == RulesSlots(day, rules, step, taken, blocked)
  {
    out := [];
    var k := 0;
    while k < |rules|
      invariant 0 <= k <= |rules|
      invariant out == RulesSlots(day, rules[..k], step, taken, blocked)
    {
      var bh := rules[k];
      var cells := WalkRule(ClockSecond(day, bh.start), ClockSecond(day, bh.end), step, taken, blocked);
      RulesSlotsStep(day, rules, k, step, taken, blocked);
      out := out + cells;
      k := k + 1;
    }
    assert rules[..|rules|] == rules;
  }

  /** One more row appends its cells. */
  lemma RulesSlotsStep(day: int, rules: seq<BusinessHour>, k: nat, step: int, taken: seq<Span>, blocked: seq<Span>)
    requires step > 0 && k < |rules|
    ensures RulesSlots(day, rules[..k + 1], step, taken, blocked)
            == RulesSlots(day, rules[..k], step, taken, blocked) + RowCells(day, rules[k], step, taken, blocked)
  {
    assert rules[..k + 1][..k] == rules[..k] && rules[..k + 1][k] == rules[k];
  }

  /** The inner loop of the calendar's day count: the count of free cells over
      each of a day's rows in turn. */
  method CountRules(day: int, rules: seq<BusinessHour>, step: int, taken: seq<Span>, blocked: seq<Span>) returns (count: nat)
    requires step > 0
    ensures count == |RulesSlots(day, rules, step, taken, blocked)|
  {
    count := 0;
    var k := 0;
    while k < |rules|
      invariant 0 <= k <= |rules|
      invariant count == |RulesSlots(day, rules[..k], step, taken, blocked)|
    {
      var bh := rules[k];
      var c := CountRule(ClockSecond(day, bh.start), ClockSecond(day, bh.end), step, taken, blocked);
      RulesSlotsStep(day, rules, k, step, taken, blocked);
      count := count + c;
      k := k + 1;
    }
    assert rules[..|rules|] == rules;
  }

  /** The free slots of one day: the walk over that weekday's rows. */
  function DaySlots(day: int, bhs: seq<BusinessHour>, step: int, taken: seq<Span>, blocked: seq<Span>): seq<Span>
    requires step > 0
  {
    RulesSlots(day, TodaysRules(bhs, Weekday(day)), step, taken, blocked)
  }

  /** The per-day lists of `days` consecutive days from `first`, day after day. */
  function Concat(first: int, days: nat, perDay: int -> seq<Span>): seq<Span>
  {
    if days == 0 then [] else Concat(first, days - 1, perDay) + perDay(first + days - 1)
  }

  /** One more day appends that day's list. */
  lemma ConcatNext(first: int, days: nat, perDay: int -> seq<Span>, day: int)
    requires day == first + days
    ensures Concat(first, days + 1, perDay) == Concat(first, days, perDay) + perDay(day)
  {
    assert first + (days + 1) - 1 == first + days;
  }

  lemma {:induction false} ConcatHas(first: int, days: nat, perDay: int -> seq<Span>, day: int, x: Span)
    requires first <= day < first + days && x in perDay(day)
    ensures x in Concat(first, days, perDay)
  {
    if day < first + days - 1 {
      ConcatHas(first, days - 1, perDay, day, x);
    }
  }

  lemma {:induction false} ConcatFrom(first: int, days: nat, perDay: int -> seq<Span>, x: Span)
    requires x in Concat(first, days, perDay)
    ensures exists day :: first <= day < first + days && x in perDay(day)
  {
    if x !in perDay(first + days - 1) {
      ConcatFrom(first, days - 1, perDay, x);
    }
  }

  /** The free slots of `days` consecutive days from `first`, day after day. */
  function WindowSlots(first: int, days: nat, bhs: seq<BusinessHour>, step: int, taken: seq<Span>, blocked: seq<Span>): seq<Span>
    requires step > 0
  {
    Concat(first, days, PerDay(bhs, step, taken, blocked))
  }

  /** The day-to-slots function a window concatenates. */
  function PerDay(bhs: seq<BusinessHour>, step: int, taken: seq<Span>, blocked: seq<Span>): int -> seq<Span>
    requires step > 0
  {
    d => DaySlots(d, bhs, step, taken, blocked)
  }

  /** The per-day function gives each day's slots. */
  lemma PerDayApply(day: int, bhs: seq<BusinessHour>, step: int, taken: seq<Span>, blocked: seq<Span>)
    requires step > 0
    ensures PerDay(bhs, step, taken, blocked)(day) == DaySlots(day, bhs, step, taken, blocked)
  {
  }

  /** x is a slot of business-hour row `row` on `day`. */
  predicate RowSlot(x: Span, day: int, row: BusinessHour, step: int, taken: seq<Span>, blocked: seq<Span>)
    requires step > 0
  {
    CellOf(x, ClockSecond(day, row.start), ClockSecond(day, row.end), step, taken, blocked)
  }

  lemma {:induction false} RulesSlotsSound(day: int, rules: seq<BusinessHour>, step: int, taken: seq<Span>, blocked: seq<Span>)
    requires step > 0
    ensures forall x :: x in RulesSlots(day, rules, step, taken, blocked) ==>
              exists row :: row in rules && RowSlot(x, day, row, step, taken, blocked)
  {
    if |rules| > 0 {
      var init := rules[..|rules| - 1];
      var last := rules[|rules| - 1];
      RulesSlotsSound(day, init, step, taken, blocked);
      RuleCellsSound(ClockSecond(day, last.start), ClockSecond(day, last.end), step, taken, blocked);
      forall x | x in RulesSlots(day, rules, step, taken, blocked)
        ensures exists row :: row in rules && RowSlot(x, day, row, step, taken, blocked)
      {
        if x in RulesSlots(day, init, step, taken, blocked) {
          var row :| row in init && RowSlot(x, day, row, step, taken, blocked);
          assert row in rules;
        } else {
          assert RowSlot(x, day, last, step, taken, blocked);
        }
      }
    }
  }

  /** A row other than the last is a row of the others. */
  lemma InInit(rules: seq<BusinessHour>, row: BusinessHour)
    requires row in rules && row != rules[|rules| - 1]
    ensures row in rules[..|rules| - 1]
  {
    var k :| 0 <= k < |rules| && rules[k] == row;
    assert rules[..|rules| - 1][k] == row;
  }

  lemma {:induction false} RulesSlotsComplete(day: int, rules: seq<BusinessHour>, step: int, taken: seq<Span>, blocked: seq<Span>, row: BusinessHour, t: int)
    requires step > 0 && row in rules
    requires OnGrid(t, ClockSecond(day, row.start), step) && t + step <= ClockSecond(day, row.end)
    requires Free(t, t + step, taken, blocked)
    ensures Span(t, t + step) in RulesSlots(day, rules, step, taken, blocked)
  {
    var init := rules[..|rules| - 1];
    var last := rules[|rules| - 1];
    assert RulesSlots(day, rules, step, taken, blocked) == RulesSlots(day, init, step, taken, blocked) + RowCells(day, last, step, taken, blocked);
    if row == last {
      RuleCellsComplete(ClockSecond(day, row.start), ClockSecond(day, row.end), step, taken, blocked, t);
      assert Span(t, t + step) in RowCells(day, last, step, taken, blocked);
    } else {
      InInit(rules, row);
      RulesSlotsComplete(day, init, step, taken, blocked, row, t);
    }
  }

  /** Slot soundness over a day: every slot belongs to a business-hour row whose
      day name is that day's weekday, is `step` long, lies inside that row's
      range on that day, starts on its grid and overlaps neither a taken nor a
      blocked interval. */
  lemma DaySlotsSound(day: int, bhs: seq<BusinessHour>, step: int, taken: seq<Span>, blocked: seq<Span>, x: Span)
    requires step > 0 && x in DaySlots(day, bhs, step, taken, blocked)
    ensures exists row :: row in bhs && RuleWeekday(row.day) == Some(Weekday(day)) && RowSlot(x, day, row, step, taken, blocked)
  {
    RulesSlotsSound(day, TodaysRules(bhs, Weekday(day)), step, taken, blocked);
  }

  /** Slot completeness over a day: every free grid cell of a row for that
      day's weekday is emitted. */
  lemma DaySlotsComplete(day: int, bhs: seq<BusinessHour>, step: int, taken: seq<Span>, blocked: seq<Span>, row: BusinessHour, t: int)
    requires step > 0
    requires row in bhs && RuleWeekday(row.day) == Some(Weekday(day))
    requires OnGrid(t, ClockSecond(day, row.start), step) && t + step <= ClockSecond(day, row.end)
    requires Free(t, t + step, taken, blocked)
    ensures Span(t, t + step) in DaySlots(day, bhs, step, taken, blocked)
  {
    RulesSlotsComplete(day, TodaysRules(bhs, Weekday(day)), step, taken, blocked, row, t);
  }

  /** Soundness over a window: every slot is a slot of one of its days. */
  lemma WindowSlotsSound(first: int, days: nat, bhs: seq<BusinessHour>, step: int, taken: seq<Span>, blocked: seq<Span>, x: Span)
    requires step > 0 && x in WindowSlots(first, days, bhs, step, taken, blocked)
    ensures exists day :: first <= day < first + days && x in DaySlots(day, bhs, step, taken, blocked)
  {
    ConcatFrom(first, days, PerDay(bhs, step, taken, blocked), x);
  }

  /** Completeness over a window: every slot of every day of it is emitted. */
  lemma WindowSlotsComplete(first: int, days: nat, bhs: seq<BusinessHour>, step: int, taken: seq<Span>, blocked: seq<Span>, day: int, x: Span)
    requires step > 0 && first <= day < first + days && x in DaySlots(day, bhs, step, taken, blocked)
    ensures x in WindowSlots(first, days, bhs, step, taken, blocked)
  {
    ConcatHas(first, days, PerDay(bhs, step, taken, blocked), day, x);
  }

  /** Interval `[s, e)` overlaps no active appointment of the doctor at the
      clinic and no active block of the doctor anywhere in the store. */
  predicate StoreFree(s: int, e: int, apps: seq<Appointment>, blocks: seq<Block>, doc: int, cli: int)
  {
    (forall a :: a in apps && LiveAt(a, doc, cli) ==> !Overlaps(s, e, a.startTs, a.endTs))
    && (forall b :: b in blocks && BlocksDoctor(b, doc) ==> !Overlaps(s, e, b.startTs, b.endTs))
  }

  /** A window of whole days covers each of its days. */
  lemma DaysCover(first: int, days: nat, day: int)
    requires first <= day < first + days
    ensures Covers(DayStart(first), DayStart(first + days), day)
  {
    assert DayStart(day) + DaySeconds == DayStart(day + 1);
  }

  /** Every active appointment of the doctor at the clinic, in store order. */
  function LiveApps(apps: seq<Appointment>, doc: int, cli: int): (r: seq<Appointment>)
    ensures forall a :: a in r <==> a in apps && LiveAt(a, doc, cli)
  {
    if |apps| == 0 then []
    else (if LiveAt(apps[0], doc, cli) then [apps[0]] else []) + LiveApps(apps[1..], doc, cli)
  }

  /** Every active block of the doctor, in store order. */
  function ActiveBlocks(blocks: seq<Block>, doc: int): (r: seq<Block>)
    ensures forall b :: b in r <==> b in blocks && BlocksDoctor(b, doc)
  {
    if |blocks| == 0 then []
    else (if BlocksDoctor(blocks[0], doc) then [blocks[0]] else []) + ActiveBlocks(blocks[1..], doc)
  }

  /** The obstacle lists a walk would use with no fetch window at all. */
  function StoreTaken(apps: seq<Appointment>, doc: int, cli: int): seq<Span>
  {
    Spans(LiveApps(apps, doc, cli), AppSpan)
  }

  function StoreBlocked(blocks: seq<Block>, doc: int): seq<Span>
  {
    Spans(ActiveBlocks(blocks, doc), BlockSpan)
  }

  lemma StoreListsFree(apps: seq<Appointment>, blocks: seq<Block>, doc: int, cli: int, s: int, e: int)
    ensures Free(s, e, StoreTaken(apps, doc, cli), StoreBlocked(blocks, doc)) <==> StoreFree(s, e, apps, blocks, doc, cli)
  {
    var la, tk := LiveApps(apps, doc, cli), StoreTaken(apps, doc, cli);
    var ab, bk := ActiveBlocks(blocks, doc), StoreBlocked(blocks, doc);
    if Clashes(s, e, tk) {
      var k :| 0 <= k < |tk| && Overlaps(s, e, tk[k].start, tk[k].end);
      assert la[k] in la;
    }
    if Clashes(s, e, bk) {
      var k :| 0 <= k < |bk| && Overlaps(s, e, bk[k].start, bk[k].end);
      assert ab[k] in ab;
    }
    if !StoreFree(s, e, apps, blocks, doc, cli) {
      if exists a :: a in apps && LiveAt(a, doc, cli) && Overlaps(s, e, a.startTs, a.endTs) {
        var a :| a in apps && LiveAt(a, doc, cli) && Overlaps(s, e, a.startTs, a.endTs);
        var k :| 0 <= k < |la| && la[k] == a;
        assert Overlaps(s, e, tk[k].start, tk[k].end);
      } else {
        var b :| b in blocks && BlocksDoctor(b, doc) && Overlaps(s, e, b.startTs, b.endTs);
        var k :| 0 <= k < |ab| && ab[k] == b;
        assert Overlaps(s, e, bk[k].start, bk[k].end);
      }
    }
  }

  /** Inside the fetch window, being free of the fetched lists is being free of
      the whole store. */
  lemma FetchedFree(apps: seq<Appointment>, blocks: seq<Block>, doc: int, cli: int, windowStart: int, windowEnd: int, s: int, e: int)
    requires windowStart <= s && e <= windowEnd
    ensures Free(s, e, TakenIn(apps, doc, cli, windowStart, windowEnd), BlockedIn(blocks, doc, windowStart, windowEnd))
            <==> StoreFree(s, e, apps, blocks, doc, cli)
  {
    TakenInClashes(apps, doc, cli, windowStart, windowEnd, s, e);
    BlockedInClashes(blocks, doc, windowStart, windowEnd, s, e);
  }

  /** A business-hour row whose end time is no later than midnight, so that its
      cells on a day lie within that day. */
  predicate RowInDay(row: BusinessHour)
  {
    var hm := ParseHHMM(row.end);
    3600 * hm.h + 60 * hm.m <= DaySeconds
  }

  /** The window of whole days `[first, first + days)` covers `day`. */
  predicate Covers(windowStart: int, windowEnd: int, day: int)
  {
    windowStart <= DayStart(day) && DayStart(day) + DaySeconds <= windowEnd
  }

  /** A cell `[t, t + step)` of the free-test of one walk. */
  predicate CellFree(t: int, step: int, taken: seq<Span>, blocked: seq<Span>)
  {
    Free(t, t + step, taken, blocked)
  }

  /** Two walks over the same range agree when their obstacle lists agree on
      every cell of the range. */
  lemma {:induction false} RuleCellsSameFree(cur: int, end: int, step: int, taken1: seq<Span>, blocked1: seq<Span>, taken2: seq<Span>, blocked2: seq<Span>)
    requires step > 0
    requires forall t :: cur <= t && t + step <= end ==> (CellFree(t, step, taken1, blocked1) <==> CellFree(t, step, taken2, blocked2))
    ensures RuleCells(cur, end, step, taken1, blocked1) == RuleCells(cur, end, step, taken2, blocked2)
    decreases end - cur
  {
    if cur + step <= end {
      assert CellFree(cur, step, taken1, blocked1) <==> CellFree(cur, step, taken2, blocked2);
      RuleCellsSameFree(cur + step, end, step, taken1, blocked1, taken2, blocked2);
    }
  }

  /** Inside a window, a cell is free of the window's fetch iff it is free of
      the store's lists. */
  lemma CellFreeOfStore(t: int, step: int, apps: seq<Appointment>, blocks: seq<Block>, doc: int, cli: int,
                        windowStart: int, windowEnd: int)
    requires windowStart <= t && t + step <= windowEnd
    ensures CellFree(t, step, TakenIn(apps, doc, cli, windowStart, windowEnd), BlockedIn(blocks, doc, windowStart, windowEnd))
            <==> CellFree(t, step, StoreTaken(apps, doc, cli), StoreBlocked(blocks, doc))
  {
    FetchedFree(apps, blocks, doc, cli, windowStart, windowEnd, t, t + step);
    StoreListsFree(apps, blocks, doc, cli, t, t + step);
  }

  /** The cells of a row that ends by midnight, tested against what any window
      covering the day fetched, are the cells tested against the whole store. */
  lemma RowCellsOfStore(day: int, row: BusinessHour, step: int, apps: seq<Appointment>, blocks: seq<Block>, doc: int, cli: int,
                        windowStart: int, windowEnd: int)
    requires step > 0 && RowInDay(row) && Covers(windowStart, windowEnd, day)
    ensures RowCells(day, row, step, TakenIn(apps, doc, cli, windowStart, windowEnd), BlockedIn(blocks, doc, windowStart, windowEnd))
            == RowCells(day, row, step, StoreTaken(apps, doc, cli), StoreBlocked(blocks, doc))
  {
    var lo, hi := ClockSecond(day, row.start), ClockSecond(day, row.end);
    var t1, b1 := TakenIn(apps, doc, cli, windowStart, windowEnd), BlockedIn(blocks, doc, windowStart, windowEnd);
    var t2, b2 := StoreTaken(apps, doc, cli), StoreBlocked(blocks, doc);
    assert windowStart <= lo && hi <= windowEnd;
    forall t | lo <= t && t + step <= hi
      ensures CellFree(t, step, t1, b1) <==> CellFree(t, step, t2, b2)
    {
      CellFreeOfStore(t, step, apps, blocks, doc, cli, windowStart, windowEnd);
    }
    RuleCellsSameFree(lo, hi, step, t1, b1, t2, b2);
  }

  /** The same for all rows of a day. */
  lemma {:induction false} RulesSlotsOfStore(day: int, rules: seq<BusinessHour>, step: int, apps: seq<Appointment>, blocks: seq<Block>,
                                             doc: int, cli: int, windowStart: int, windowEnd: int)
    requires step > 0 && Covers(windowStart, windowEnd, day)
    requires forall row :: row in rules ==> RowInDay(row)
    ensures RulesSlots(day, rules, step, TakenIn(apps, doc, cli, windowStart, windowEnd), BlockedIn(blocks, doc, windowStart, windowEnd))
            == RulesSlots(day, rules, step, StoreTaken(apps, doc, cli), StoreBlocked(blocks, doc))
  {
    if |rules| > 0 {
      RulesSlotsOfStore(day, rules[..|rules| - 1], step, apps, blocks, doc, cli, windowStart, windowEnd);
      RowCellsOfStore(day, rules[|rules| - 1], step, apps, blocks, doc, cli, windowStart, windowEnd);
    }
  }

  /** A day's slots do not depend on the fetch window, as long as it covers the
      day and the rows end by midnight: they are the day's slots against every
      active appointment and block in the store. */
  lemma DaySlotsOfStore(day: int, bhs: seq<BusinessHour>, step: int, apps: seq<Appointment>, blocks: seq<Block>,
                        doc: int, cli: int, windowStart: int, windowEnd: int)
    requires step > 0 && Covers(windowStart, windowEnd, day)
    requires forall row :: row in bhs ==> RowInDay(row)
    ensures DaySlots(day, bhs, step, TakenIn(apps, doc, cli, windowStart, windowEnd), BlockedIn(blocks, doc, windowStart, windowEnd))
            == DaySlots(day, bhs, step, StoreTaken(apps, doc, cli), StoreBlocked(blocks, doc))
  {
    RulesSlotsOfStore(day, TodaysRules(bhs, Weekday(day)), step, apps, blocks, doc, cli, windowStart, windowEnd);
  }

  /** x is a cell of the walk over `row` on `day`: `step` long, on the row's
      grid, ending by the row's end. */
  predicate GridCell(x: Span, day: int, row: BusinessHour, step: int)
    requires step > 0
  {
    x.end == x.start + step && OnGrid(x.start, ClockSecond(day, row.start), step) && x.end <= ClockSecond(day, row.end)
  }

  /** x is a slot the handlers should offer for doctor `doc` at clinic `cli` on
      `day`: a cell of one of the doctor's rows at that clinic for that weekday,
      clear of every active appointment and block in the store. */
  predicate Offered(x: Span, day: int, row: BusinessHour, step: int, apps: seq<Appointment>, blocks: seq<Block>, doc: int, cli: int)
    requires step > 0
  {
    row.doc == doc && row.clin == cli && RuleWeekday(row.day) == Some(Weekday(day))
    && GridCell(x, day, row, step) && StoreFree(x.start, x.end, apps, blocks, doc, cli)
  }

  /** Soundness against the store: every slot of a day, computed from what a
      window covering the day fetched, is an offered slot of that day. */
  lemma DaySlotsStoreSound(day: int, hours: seq<BusinessHour>, step: int, apps: seq<Appointment>, blocks: seq<Block>,
                           doc: int, cli: int, windowStart: int, windowEnd: int, x: Span)
    requires step > 0 && Covers(windowStart, windowEnd, day)
    requires forall row :: row in hours ==> RowInDay(row)
    requires x in DaySlots(day, HoursOf(hours, doc, cli), step, TakenIn(apps, doc, cli, windowStart, windowEnd), BlockedIn(blocks, doc, windowStart, windowEnd))
    ensures exists row :: row in hours && Offered(x, day, row, step, apps, blocks, doc, cli)
  {
    var bhs := HoursOf(hours, doc, cli);
    var tk, bk := StoreTaken(apps, doc, cli), StoreBlocked(blocks, doc);
    DaySlotsOfStore(day, bhs, step, apps, blocks, doc, cli, windowStart, windowEnd);
    assert x in DaySlots(day, bhs, step, tk, bk);
    DaySlotsSound(day, bhs, step, tk, bk, x);
    var row :| row in bhs && RuleWeekday(row.day) == Some(Weekday(day)) && RowSlot(x, day, row, step, tk, bk);
    StoreListsFree(apps, blocks, doc, cli, x.start, x.end);
    assert row in hours && Offered(x, day, row, step, apps, blocks, doc, cli);
  }

  /** Completeness against the store: every offered slot of a day is among the
      day's slots computed from what a window covering the day fetched. */
  lemma DaySlotsStoreComplete(day: int, hours: seq<BusinessHour>, step: int, apps: seq<Appointment>, blocks: seq<Block>,
                              doc: int, cli: int, windowStart: int, windowEnd: int, row: BusinessHour, x: Span)
    requires step > 0 && Covers(windowStart, windowEnd, day)
    requires forall row :: row in hours ==> RowInDay(row)
    requires row in hours && Offered(x, day, row, step, apps, blocks, doc, cli)
    ensures x in DaySlots(day, HoursOf(hours, doc, cli), step, TakenIn(apps, doc, cli, windowStart, windowEnd), BlockedIn(blocks, doc, windowStart, windowEnd))
  {
    var bhs := HoursOf(hours, doc, cli);
    var tk, bk := StoreTaken(apps, doc, cli), StoreBlocked(blocks, doc);
    assert row in bhs;
    assert GridCell(x, day, row, step) && StoreFree(x.start, x.end, apps, blocks, doc, cli);
    StoreListsFree(apps, blocks, doc, cli, x.start, x.end);
    assert Free(x.start, x.start + step, tk, bk);
    DaySlotsComplete(day, bhs, step, tk, bk, row, x.start);
    assert x == Span(x.start, x.start + step);
    assert x in DaySlots(day, bhs, step, tk, bk);
    DaySlotsOfStore(day, bhs, step, apps, blocks, doc, cli, windowStart, windowEnd);
  }

  /** Both directions at once: a window covering the day loses nothing, so the
      walk against the window's fetch lists exactly the offered cells. */
  lemma DaySlotsStoreExact(day: int, hours: seq<BusinessHour>, step: int, apps: seq<Appointment>, blocks: seq<Block>,
                           doc: int, cli: int, windowStart: int, windowEnd: int, x: Span)
    requires step > 0 && Covers(windowStart, windowEnd, day)
    requires forall row :: row in hours ==> RowInDay(row)
    ensures x in DaySlots(day, HoursOf(hours, doc, cli), step, TakenIn(apps, doc, cli, windowStart, windowEnd), BlockedIn(blocks, doc, windowStart, windowEnd))
            <==> exists row :: row in hours && Offered(x, day, row, step, apps, blocks, doc, cli)
  {
    if x in DaySlots(day, HoursOf(hours, doc, cli), step, TakenIn(apps, doc, cli, windowStart, windowEnd), BlockedIn(blocks, doc, windowStart, windowEnd)) {
      DaySlotsStoreSound(day, hours, step, apps, blocks, doc, cli, windowStart, windowEnd, x);
    }
    if exists row :: row in hours && Offered(x, day, row, step, apps, blocks, doc, cli) {
      var row :| row in hours && Offered(x, day, row, step, apps, blocks, doc, cli);
      DaySlotsStoreComplete(day, hours, step, apps, blocks, doc, cli, windowStart, windowEnd, row, x);
    }
  }

  /* The walks as the handlers are written. Their loop test is
     `cur.add(slotMinutes, 'minute').isSameOrBefore(end)`, but `isSameOrBefore`
     is a dayjs plugin method and the handlers extend dayjs with `utc` only, so
     evaluating the test throws a TypeError and the handler's catch answers
     500 `internal_error`. The test is evaluated as soon as a visited day has
     a row for its weekday; the walks above are what the loops are evidently
     meant to do. */

  /** Some day of the `days` days from `first` has a row for its weekday, so
      the handler's loop test is evaluated. */
  predicate ReachesLoopTest(first: int, days: nat, bhs: seq<BusinessHour>)
  {
    exists day :: first <= day < first + days && TodaysRules(bhs, Weekday(day)) != []
  }

  /** The day loop as written (`for (let d = 0; d < days; d++)` around
      `for (const bh of todays)` around the throwing `while` test): whether it
      throws. */
  method DaysLoopThrows(first: int, days: nat, bhs: seq<BusinessHour>) returns (throws: bool)
    ensures throws <==> ReachesLoopTest(first, days, bhs)
  {
    var d := 0;
    while d < days
      invariant 0 <= d <= days
      invariant forall day :: first <= day < first + d ==> TodaysRules(bhs, Weekday(day)) == []
    {
      var todays := TodaysRules(bhs, Weekday(first + d));
      if |todays| > 0 {
        // the first row of `todays` evaluates the loop test
        return true;
      }
      d := d + 1;
    }
    return false;
  }

  /** When no visited day has a row for its weekday, the intended walk lists
      nothing either: there the handlers as written and as meant agree. */
  lemma {:induction false} WindowSlotsUnreached(first: int, days: nat, bhs: seq<BusinessHour>, step: int, taken: seq<Span>, blocked: seq<Span>)
    requires step > 0 && !ReachesLoopTest(first, days, bhs)
    ensures WindowSlots(first, days, bhs, step, taken, blocked) == []
  {
    if days > 0 {
      var day := first + days - 1;
      WindowSlotsUnreached(first, days - 1, bhs, step, taken, blocked);
      assert TodaysRules(bhs, Weekday(day)) == [];
      PerDayApply(day, bhs, step, taken, blocked);
    }
  }
}
