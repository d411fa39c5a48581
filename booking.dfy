/** `POST /appointments` as a function of the request body and the store: the
    shift mode that picks the first free 40-minute slot of a doctor in a
    clinic's AM or PM shift, the direct mode with explicit times, and the
    record either mode inserts. */
module Booking {
  import opened Js
  import opened Clock
  import opened Interval
  import opened Sorting
  import opened Records
  import opened Scan
  import opened Schedule

  /** The fields of the request body the handler reads. */
  datatype BookingBody = BookingBody(
    appid: JsValue, startTs: JsValue, endTs: JsValue, price: JsValue,
    cli: JsValue, doc: JsValue, treat: JsValue, pat: JsValue,
    date: JsValue, shift: JsValue)

  /** The 201 answer `{ id, start_ts, end_ts }`. */
  datatype Created = Created(id: int, startTs: int, endTs: int)

  /** `(!start_ts || !end_ts) && cli && doc && pat && date && shift`. */
  predicate ShiftMode(b: BookingBody)
  {
    (!Truthy(b.startTs) || !Truthy(b.endTs))
    && Truthy(b.cli) && Truthy(b.doc) && Truthy(b.pat) && Truthy(b.date) && Truthy(b.shift)
  }

  /** `isInt`: `Number(v)` is a non-negative integer. */
  predicate IsInt(v: JsValue)
  {
    ToNumber(v).Some? && ToNumber(v).value >= 0
  }

  /** The clinic's hours text of the shift: AM for "AM", PM for anything else. */
  function ShiftText(meta: ClinicMeta, shift: JsValue): string
  {
    if shift == Str("AM") then meta.amHours else meta.pmHours
  }

  /** `BusinessHour.findAll({ doc, clin, day })`, in store order; an id that is
      not a number matches no row. */
  function DoctorRows(hours: seq<BusinessHour>, doc: Option<int>, cli: Option<int>, dayName: string): (r: seq<BusinessHour>)
    ensures forall x :: x in r <==> x in hours && doc == Some(x.doc) && cli == Some(x.clin) && x.day == dayName
  {
    if |hours| == 0 then []
    else
      var x := hours[0];
      (if doc == Some(x.doc) && cli == Some(x.clin) && x.day == dayName then [x] else [])
      + DoctorRows(hours[1..], doc, cli, dayName)
  }

  /** `if (e > s)`: both ends are numbers and the range is not empty. */
  predicate Kept(g: Range)
  {
    g.s.Some? && g.e.Some? && g.e.value > g.s.value
  }

  /** Each row cut to the shift, in row order. */
  function CutRows(day: int, rows: seq<BusinessHour>, turnoStart: Option<int>, turnoEnd: Option<int>): (gs: seq<Range>)
    ensures |gs| == |rows|
    ensures forall k :: 0 <= k < |rows| ==> gs[k] == RowRange(day, rows[k], turnoStart, turnoEnd)
  {
    seq(|rows|, k requires 0 <= k < |rows| => RowRange(day, rows[k], turnoStart, turnoEnd))
  }

  /** The non-empty ranges among `gs`, in order, as intervals. */
  function NonEmpty(gs: seq<Range>): seq<Span>
  {
    if |gs| == 0 then []
    else
      var g := gs[|gs| - 1];
      NonEmpty(gs[..|gs| - 1]) + (if Kept(g) then [Span(g.s.value, g.e.value)] else [])
  }

  /** The `overlaps` list: each row cut to the shift, in row order, kept when
      not empty. */
  function KeptRanges(day: int, rows: seq<BusinessHour>, turnoStart: Option<int>, turnoEnd: Option<int>): seq<Span>
  {
    NonEmpty(CutRows(day, rows, turnoStart, turnoEnd))
  }

  /** `NonEmpty` keeps exactly the non-empty ranges. */
  lemma {:induction false} NonEmptyFacts(gs: seq<Range>)
    ensures forall sp :: sp in NonEmpty(gs) ==> exists k :: 0 <= k < |gs| && Kept(gs[k]) && sp == Span(gs[k].s.value, gs[k].e.value)
    ensures forall k :: 0 <= k < |gs| && Kept(gs[k]) ==> Span(gs[k].s.value, gs[k].e.value) in NonEmpty(gs)
  {
    if |gs| > 0 {
      var n := |gs| - 1;
      var init := gs[..n];
      NonEmptyFacts(init);
      var g := gs[n];
      assert NonEmpty(gs) == NonEmpty(init) + (if Kept(g) then [Span(g.s.value, g.e.value)] else []);
      forall k | 0 <= k < n ensures gs[k] == init[k] {
      }
    }
  }

  /** The range lies inside the row's own hours on `day`. */
  predicate InsideRow(day: int, r: BusinessHour, sp: Span)
  {
    ToTs(day, r.start).Some? && ToTs(day, r.end).Some?
    && ToTs(day, r.start).value <= sp.start && sp.end <= ToTs(day, r.end).value
  }

  /** The range lies inside the shift. */
  predicate InsideShift(turnoStart: Option<int>, turnoEnd: Option<int>, sp: Span)
  {
    turnoStart.Some? && turnoEnd.Some? && turnoStart.value <= sp.start && sp.end <= turnoEnd.value
  }

  /** Every kept range is non-empty and lies inside the shift and inside one of
      the rows; every row whose cut is not empty gives a kept range. */
  lemma KeptRangesFacts(day: int, rows: seq<BusinessHour>, turnoStart: Option<int>, turnoEnd: Option<int>)
    ensures forall sp :: sp in KeptRanges(day, rows, turnoStart, turnoEnd) ==>
              sp.start < sp.end && InsideShift(turnoStart, turnoEnd, sp)
              && exists r :: r in rows && InsideRow(day, r, sp)
    ensures forall k :: 0 <= k < |rows| && Kept(RowRange(day, rows[k], turnoStart, turnoEnd)) ==>
              Span(RowRange(day, rows[k], turnoStart, turnoEnd).s.value, RowRange(day, rows[k], turnoStart, turnoEnd).e.value)
              in KeptRanges(day, rows, turnoStart, turnoEnd)
  {
    var gs := CutRows(day, rows, turnoStart, turnoEnd);
    NonEmptyFacts(gs);
    forall sp | sp in KeptRanges(day, rows, turnoStart, turnoEnd)
      ensures sp.start < sp.end && InsideShift(turnoStart, turnoEnd, sp) && exists r :: r in rows && InsideRow(day, r, sp)
    {
      var k :| 0 <= k < |gs| && Kept(gs[k]) && sp == Span(gs[k].s.value, gs[k].e.value);
      assert rows[k] in rows && InsideRow(day, rows[k], sp);
    }
  }

  lemma NonEmptyStep(gs: seq<Range>, i: nat)
    requires i < |gs|
    ensures NonEmpty(gs[..i + 1]) == NonEmpty(gs[..i]) + (if Kept(gs[i]) then [Span(gs[i].s.value, gs[i].e.value)] else [])
  {
    assert gs[..i + 1][..i] == gs[..i];
  }

  /** The loop that fills `overlaps`. */
  method KeepRanges(day: int, rows: seq<BusinessHour>, turnoStart: Option<int>, turnoEnd: Option<int>) returns (overlaps: seq<Span>)
    ensures overlaps == KeptRanges(day, rows, turnoStart, turnoEnd)
  {
    ghost var gs := CutRows(day, rows, turnoStart, turnoEnd);
    overlaps := [];
    var i := 0;
    while i < |rows|
      invariant 0 <= i <= |rows|
      invariant overlaps == NonEmpty(gs[..i])
    {
      NonEmptyStep(gs, i);
      var g := RowRange(day, rows[i], turnoStart, turnoEnd);
      assert g == gs[i];
      if g.s.Some? && g.e.Some? && g.e.value > g.s.value {
        overlaps := overlaps + [Span(g.s.value, g.e.value)];
      }
      i := i + 1;
    }
    assert gs[..i] == gs;
  }

  /** `if (s)`: a start counts only when it is not null and not 0. */
  predicate Picked(s: Option<int>)
  {
    s.Some? && s.value != 0
  }

  /** What `findSlot` gives for one range. */
  function ScanRange(busy: seq<Span>, range: Span): Option<int>
  {
    ScanFirst(busy, range.start, range.end, SlotSeconds)
  }

  /** `chosen`: the first range, in order, whose `findSlot` result counts. */
  function ChooseSlot(busy: seq<Span>, ranges: seq<Span>): Option<int>
  {
    if |ranges| == 0 then None
    else if Picked(ScanRange(busy, ranges[0])) then ScanRange(busy, ranges[0])
    else ChooseSlot(busy, ranges[1..])
  }

  /** The range `k` is the first whose result counts, and it gives `c`. */
  predicate ChosenFrom(busy: seq<Span>, ranges: seq<Span>, k: int, c: int)
  {
    0 <= k < |ranges| && ScanRange(busy, ranges[k]) == Some(c) && c != 0
    && forall j :: 0 <= j < k ==> !Picked(ScanRange(busy, ranges[j]))
  }

  /** `chosen` is the result of the first range that gives one, and nothing
      is chosen only when no range gives one. */
  lemma {:induction false} ChooseSlotFirst(busy: seq<Span>, ranges: seq<Span>)
    ensures ChooseSlot(busy, ranges).Some? ==> exists k :: ChosenFrom(busy, ranges, k, ChooseSlot(busy, ranges).value)
    ensures ChooseSlot(busy, ranges).None? ==> forall k :: 0 <= k < |ranges| ==> !Picked(ScanRange(busy, ranges[k]))
  {
    if |ranges| > 0 && Picked(ScanRange(busy, ranges[0])) {
      assert ChosenFrom(busy, ranges, 0, ChooseSlot(busy, ranges).value);
    } else if |ranges| > 0 {
      var rest := ranges[1..];
      ChooseSlotFirst(busy, rest);
      if ChooseSlot(busy, rest).Some? {
        var c := ChooseSlot(busy, rest).value;
        var k :| ChosenFrom(busy, rest, k, c);
        forall j | 0 <= j < k + 1 ensures !Picked(ScanRange(busy, ranges[j])) {
          if j > 0 {
            assert ranges[j] == rest[j - 1];
          }
        }
        assert ChosenFrom(busy, ranges, k + 1, c);
      } else {
        forall k | 0 <= k < |ranges| ensures !Picked(ScanRange(busy, ranges[k])) {
          if k > 0 {
            assert ranges[k] == rest[k - 1];
          }
        }
      }
    }
  }

  /** The `for (const rng of overlaps)` loop with its `break`. */
  method PickSlot(busy: seq<Span>, ranges: seq<Span>) returns (chosen: Option<int>)
    ensures chosen == ChooseSlot(busy, ranges)
  {
    chosen := None;
    var i := 0;
    while i < |ranges|
      invariant 0 <= i <= |ranges|
      invariant ChooseSlot(busy, ranges[i..]) == ChooseSlot(busy, ranges)
    {
      assert ranges[i..][1..] == ranges[i + 1..];
      var s := FindSlot(busy, ranges[i].start, ranges[i].end, SlotSeconds);
      if s.Some? && s.value != 0 {
        chosen := s;
        return;
      }
      i := i + 1;
    }
  }

  /** What `findSlot` returns for a non-empty range, on a busy list in start
      order: a start inside the range, free of every busy interval, with no free
      start before it, whose slot ends by the range end or in front of a busy
      interval. */
  lemma ScanRangeFacts(busy: seq<Span>, range: Span, c: int)
    requires SortedByStart(busy) && range.start < range.end
    requires ScanRange(busy, range) == Some(c)
    ensures range.start <= c < range.end
    ensures FreeAt(c, SlotSeconds, busy)
    ensures forall t :: range.start <= t < c ==> !FreeAt(t, SlotSeconds, busy)
    ensures c + SlotSeconds <= range.end || InFront(c, SlotSeconds, busy)
  {
    ScanFirstEarliest(busy, range.start, range.end, SlotSeconds);
    ScanFirstFree(busy, range.start, range.end, SlotSeconds);
    ScanFirstBelow(busy, range.start, range.end, SlotSeconds);
    ScanFirstFits(busy, range.start, range.end, SlotSeconds);
    if c + SlotSeconds > range.end {
      var i :| 0 <= i < |busy| && busy[i].start - c >= SlotSeconds;
      assert c + SlotSeconds <= busy[i].start;
    }
  }

  /** The doctor's active appointments at the clinic that touch the day, as
      `[start, end]` pairs sorted by start. */
  function DayBusy(store: seq<Appointment>, doc: int, cli: int, day: int): seq<Span>
  {
    SortBy(Spans(DayApps(store, doc, cli, DayStart(day)), AppSpan), StartOf)
  }

  /** The shift's `[turnoStart, turnoEnd]` from its "start-end" text; None
      when the text has no '-', where `toTs(undefined)` throws. */
  function ShiftBounds(day: int, text: string): Option<(Option<int>, Option<int>)>
  {
    var parts := Split(text, '-');
    if |parts| < 2 then None else Some((ToTs(day, parts[0]), ToTs(day, parts[1])))
  }

  /** The slot the shift mode books, or the error it answers. */
  function ShiftSlot(b: BookingBody, day: Option<int>, meta: ClinicMeta, hours: seq<BusinessHour>, store: seq<Appointment>): (r: Result<Span>)
    ensures r.Ok? ==> ToNumber(b.doc).Some? && ToNumber(b.cli).Some? && r.value.end == r.value.start + SlotSeconds
  {
    var text := ShiftText(meta, b.shift);
    if !OpenOn(meta, day) || text == "" then Err(TurnClosed)
    else
      var d := day.value;
      match ShiftBounds(d, text)
      case None => Err(InternalError)
      case Some(bounds) =>
        var rows := DoctorRows(hours, ToNumber(b.doc), ToNumber(b.cli), DowName[Weekday(d)]);
        DoctorSlot(d, rows, bounds.0, bounds.1, store, ToNumber(b.doc), ToNumber(b.cli))
  }

  /** The part of the shift mode after the shift is known: the doctor's rows
      that weekday, their cuts, and the first free slot. */
  function DoctorSlot(d: int, rows: seq<BusinessHour>, turnoStart: Option<int>, turnoEnd: Option<int>, store: seq<Appointment>,
                      doc: Option<int>, cli: Option<int>): (r: Result<Span>)
    requires forall x :: x in rows ==> doc == Some(x.doc) && cli == Some(x.clin)
    ensures r.Ok? ==> doc.Some? && cli.Some? && r.value.end == r.value.start + SlotSeconds
  {
    if rows == [] then Err(DoctorNotInTurn)
    else
      var ranges := KeptRanges(d, rows, turnoStart, turnoEnd);
      if ranges == [] then Err(NoOverlap)
      else
        assert rows[0] in rows;
        SlotAt(ChooseSlot(DayBusy(store, doc.value, cli.value, d), ranges))
  }

  /** After the loop over the ranges: `no_free_slot` when nothing was chosen,
      otherwise the 40-minute slot from the chosen start. */
  function SlotAt(chosen: Option<int>): (r: Result<Span>)
    ensures r.Ok? <==> chosen.Some?
    ensures r.Ok? ==> r.value == Span(chosen.value, chosen.value + SlotSeconds)
    ensures r.Err? ==> r.error == NoFreeSlot
  {
    if chosen.None? then Err(NoFreeSlot) else Ok(Span(chosen.value, chosen.value + SlotSeconds))
  }

  /** The shift mode's errors, in the order the handler checks them:
      `turn_closed`, a shift text without '-' (where `toTs` throws),
      `doctor_not_in_turn`, `no_overlap`, `no_free_slot`. */
  lemma ShiftSlotErrors(b: BookingBody, day: Option<int>, meta: ClinicMeta, hours: seq<BusinessHour>, store: seq<Appointment>)
    ensures var r := ShiftSlot(b, day, meta, hours, store);
            (r == Err(TurnClosed) <==> !OpenOn(meta, day) || ShiftText(meta, b.shift) == "")
            && (r == Err(InternalError) <==>
                  OpenOn(meta, day) && ShiftText(meta, b.shift) != "" && ShiftBounds(day.value, ShiftText(meta, b.shift)).None?)
            && (r == Err(DoctorNotInTurn) <==>
                  OpenOn(meta, day) && ShiftText(meta, b.shift) != "" && ShiftBounds(day.value, ShiftText(meta, b.shift)).Some?
                  && forall x :: x in hours ==> !(ToNumber(b.doc) == Some(x.doc) && ToNumber(b.cli) == Some(x.clin)
                                                   && x.day == DowName[Weekday(day.value)]))
            && (r.Err? ==> r.error in {TurnClosed, InternalError, DoctorNotInTurn, NoOverlap, NoFreeSlot})
  {
    var text := ShiftText(meta, b.shift);
    if OpenOn(meta, day) && text != "" && ShiftBounds(day.value, text).Some? {
      var rows := DoctorRows(hours, ToNumber(b.doc), ToNumber(b.cli), DowName[Weekday(day.value)]);
      if rows != [] {
        assert rows[0] in rows;
      }
    }
  }

  /** Once the doctor has rows, `no_overlap` answers exactly when no row cut
      to the shift is non-empty, and `no_free_slot` exactly when no kept range
      gives a start that counts. */
  lemma DoctorSlotErrors(d: int, rows: seq<BusinessHour>, turnoStart: Option<int>, turnoEnd: Option<int>, store: seq<Appointment>,
                         doc: int, cli: int)
    requires rows != [] && forall x :: x in rows ==> doc == x.doc && cli == x.clin
    ensures var r := DoctorSlot(d, rows, turnoStart, turnoEnd, store, Some(doc), Some(cli));
            var ranges := KeptRanges(d, rows, turnoStart, turnoEnd);
            (r == Err(NoOverlap) <==> forall k :: 0 <= k < |rows| ==> !Kept(RowRange(d, rows[k], turnoStart, turnoEnd)))
            && (r == Err(NoFreeSlot) <==>
                  ranges != [] && forall k :: 0 <= k < |ranges| ==> !Picked(ScanRange(DayBusy(store, doc, cli, d), ranges[k])))
  {
    var busy := DayBusy(store, doc, cli, d);
    var ranges := KeptRanges(d, rows, turnoStart, turnoEnd);
    var r := DoctorSlot(d, rows, turnoStart, turnoEnd, store, Some(doc), Some(cli));
    KeptRangesFacts(d, rows, turnoStart, turnoEnd);
    if ranges == [] {
      assert r == Err(NoOverlap);
      assert forall k :: 0 <= k < |rows| ==> !Kept(RowRange(d, rows[k], turnoStart, turnoEnd));
    } else {
      var gs := CutRows(d, rows, turnoStart, turnoEnd);
      NonEmptyFacts(gs);
      assert ranges[0] in NonEmpty(gs);
      var k :| 0 <= k < |gs| && Kept(gs[k]) && ranges[0] == Span(gs[k].s.value, gs[k].e.value);
      assert Kept(RowRange(d, rows[k], turnoStart, turnoEnd));
      assert r == SlotAt(ChooseSlot(busy, ranges));
      ChooseSlotFirst(busy, ranges);
      if ChooseSlot(busy, ranges).Some? {
        var j :| ChosenFrom(busy, ranges, j, ChooseSlot(busy, ranges).value);
        assert Picked(ScanRange(busy, ranges[j]));
        assert r.Ok?;
      } else {
        assert r == Err(NoFreeSlot);
      }
    }
  }

  /** A slot the shift mode books is the one `chosen` gives. */
  lemma DoctorSlotChosen(d: int, rows: seq<BusinessHour>, turnoStart: Option<int>, turnoEnd: Option<int>, store: seq<Appointment>,
                         doc: int, cli: int)
    requires forall x :: x in rows ==> doc == x.doc && cli == x.clin
    requires DoctorSlot(d, rows, turnoStart, turnoEnd, store, Some(doc), Some(cli)).Ok?
    ensures ChooseSlot(DayBusy(store, doc, cli, d), KeptRanges(d, rows, turnoStart, turnoEnd))
            == Some(DoctorSlot(d, rows, turnoStart, turnoEnd, store, Some(doc), Some(cli)).value.start)
  {
  }

  /** A slot the shift mode books is the first free 40-minute slot of the first
      kept range, in row order, where `findSlot` finds one: it lies in that
      range, which lies in the shift and in one of the doctor's rows, and no
      earlier start of the range is free. */
  lemma DoctorSlotFacts(d: int, rows: seq<BusinessHour>, turnoStart: Option<int>, turnoEnd: Option<int>, store: seq<Appointment>,
                        doc: int, cli: int)
    requires forall x :: x in rows ==> doc == x.doc && cli == x.clin
    requires DoctorSlot(d, rows, turnoStart, turnoEnd, store, Some(doc), Some(cli)).Ok?
    ensures var sp := DoctorSlot(d, rows, turnoStart, turnoEnd, store, Some(doc), Some(cli)).value;
            var ranges := KeptRanges(d, rows, turnoStart, turnoEnd);
            var busy := DayBusy(store, doc, cli, d);
            exists k :: ChosenFrom(busy, ranges, k, sp.start) && ranges[k].start <= sp.start < ranges[k].end
                        && InsideShift(turnoStart, turnoEnd, ranges[k]) && (exists r :: r in rows && InsideRow(d, r, ranges[k]))
                        && forall t :: ranges[k].start <= t < sp.start ==> !FreeAt(t, SlotSeconds, busy)
  {
    var c := DoctorSlot(d, rows, turnoStart, turnoEnd, store, Some(doc), Some(cli)).value.start;
    DoctorSlotChosen(d, rows, turnoStart, turnoEnd, store, doc, cli);
    BusySorted(store, doc, cli, d);
    ChosenRange(DayBusy(store, doc, cli, d), d, rows, turnoStart, turnoEnd, c);
  }

  /** The same, for any busy list in start order. */
  lemma ChosenRange(busy: seq<Span>, d: int, rows: seq<BusinessHour>, turnoStart: Option<int>, turnoEnd: Option<int>, c: int)
    requires SortedByStart(busy)
    requires ChooseSlot(busy, KeptRanges(d, rows, turnoStart, turnoEnd)) == Some(c)
    ensures var ranges := KeptRanges(d, rows, turnoStart, turnoEnd);
            exists k :: ChosenFrom(busy, ranges, k, c) && ranges[k].start <= c < ranges[k].end
                        && InsideShift(turnoStart, turnoEnd, ranges[k]) && (exists r :: r in rows && InsideRow(d, r, ranges[k]))
                        && forall t :: ranges[k].start <= t < c ==> !FreeAt(t, SlotSeconds, busy)
  {
    var ranges := KeptRanges(d, rows, turnoStart, turnoEnd);
    ChooseSlotFirst(busy, ranges);
    var k :| ChosenFrom(busy, ranges, k, c);
    KeptRangeInside(d, rows, turnoStart, turnoEnd, ranges[k]);
    ScanRangeFacts(busy, ranges[k], c);
    assert ranges[k].start <= c < ranges[k].end;
    assert ChosenFrom(busy, ranges, k, c);
  }

  /** One kept range is non-empty and lies inside the shift and one row. */
  lemma KeptRangeInside(day: int, rows: seq<BusinessHour>, turnoStart: Option<int>, turnoEnd: Option<int>, sp: Span)
    requires sp in KeptRanges(day, rows, turnoStart, turnoEnd)
    ensures sp.start < sp.end && InsideShift(turnoStart, turnoEnd, sp)
    ensures exists r :: r in rows && InsideRow(day, r, sp)
  {
    KeptRangesFacts(day, rows, turnoStart, turnoEnd);
  }

  /** A slot the shift mode books overlaps none of the doctor's active
      appointments at the clinic that touch the day. */
  lemma DoctorSlotFree(d: int, rows: seq<BusinessHour>, turnoStart: Option<int>, turnoEnd: Option<int>, store: seq<Appointment>,
                       doc: int, cli: int)
    requires forall x :: x in rows ==> doc == x.doc && cli == x.clin
    requires DoctorSlot(d, rows, turnoStart, turnoEnd, store, Some(doc), Some(cli)).Ok?
    ensures var sp := DoctorSlot(d, rows, turnoStart, turnoEnd, store, Some(doc), Some(cli)).value;
            forall a :: a in store && LiveAt(a, doc, cli) && a.startTs < DayStart(d) + 86400 && a.endTs > DayStart(d) ==>
              !Overlaps(sp.start, sp.end, a.startTs, a.endTs)
  {
    var sp := DoctorSlot(d, rows, turnoStart, turnoEnd, store, Some(doc), Some(cli)).value;
    DoctorSlotChosen(d, rows, turnoStart, turnoEnd, store, doc, cli);
    var busy := DayBusy(store, doc, cli, d);
    var ranges := KeptRanges(d, rows, turnoStart, turnoEnd);
    BusySorted(store, doc, cli, d);
    ChosenRange(busy, d, rows, turnoStart, turnoEnd, sp.start);
    var k :| ChosenFrom(busy, ranges, k, sp.start) && InsideShift(turnoStart, turnoEnd, ranges[k]);
    KeptRangesFacts(d, rows, turnoStart, turnoEnd);
    assert ranges[k] in ranges;
    ScanRangeFacts(busy, ranges[k], sp.start);
    var spans := Spans(DayApps(store, doc, cli, DayStart(d)), AppSpan);
    SortBySortedPermutation(spans, StartOf);
    ClashesOfPermutation(sp.start, sp.end, busy, spans);
    DayFree(store, doc, cli, d, sp);
  }

  lemma BusySorted(store: seq<Appointment>, doc: int, cli: int, d: int)
    ensures SortedByStart(DayBusy(store, doc, cli, d))
  {
    var busy := DayBusy(store, doc, cli, d);
    SortBySortedPermutation(Spans(DayApps(store, doc, cli, DayStart(d)), AppSpan), StartOf);
    forall i, j | 0 <= i < j < |busy| ensures busy[i].start <= busy[j].start {
      assert StartOf(busy[i]) <= StartOf(busy[j]);
    }
  }

  /** A slot free of the day's spans overlaps none of the day's appointments. */
  lemma DayFree(store: seq<Appointment>, doc: int, cli: int, d: int, sp: Span)
    requires !Clashes(sp.start, sp.end, Spans(DayApps(store, doc, cli, DayStart(d)), AppSpan))
    ensures forall a :: a in store && LiveAt(a, doc, cli) && a.startTs < DayStart(d) + 86400 && a.endTs > DayStart(d) ==>
              !Overlaps(sp.start, sp.end, a.startTs, a.endTs)
  {
    var apps := DayApps(store, doc, cli, DayStart(d));
    var spans := Spans(apps, AppSpan);
    forall a | a in store && LiveAt(a, doc, cli) && a.startTs < DayStart(d) + 86400 && a.endTs > DayStart(d)
      ensures !Overlaps(sp.start, sp.end, a.startTs, a.endTs)
    {
      var i :| 0 <= i < |apps| && apps[i] == a;
      assert spans[i] == Span(a.startTs, a.endTs);
    }
  }

  /** The direct mode's checks, in order, on the body alone. */
  function DirectTimes(b: BookingBody): (r: Result<Span>)
    ensures r == Err(MissingFields) <==>
              !Truthy(b.startTs) || !Truthy(b.endTs) || !Truthy(b.cli) || !Truthy(b.doc) || !Truthy(b.pat)
    ensures r.Ok? ==> IsInt(b.startTs) && IsInt(b.endTs) && IsInt(b.cli) && IsInt(b.doc) && IsInt(b.pat)
                      && r.value == Span(ToNumber(b.startTs).value, ToNumber(b.endTs).value)
                      && 0 <= r.value.start < r.value.end <= r.value.start + 40 * 60
  {
    if !Truthy(b.startTs) || !Truthy(b.endTs) || !Truthy(b.cli) || !Truthy(b.doc) || !Truthy(b.pat) then Err(MissingFields)
    else if !IsInt(b.startTs) || !IsInt(b.endTs) || ToNumber(b.startTs).value >= ToNumber(b.endTs).value then Err(InvalidTimes)
    else if !IsInt(b.cli) || !IsInt(b.doc) || !IsInt(b.pat) then Err(InvalidIds)
    else if b.price != Absent && !(ToNumber(b.price).Some? && ToNumber(b.price).value >= 0) then Err(InvalidPrice)
    else if ToNumber(b.endTs).value - ToNumber(b.startTs).value > 40 * 60 then Err(DurationExceeds40m)
    else Ok(Span(ToNumber(b.startTs).value, ToNumber(b.endTs).value))
  }

  /** Each later check of the direct mode answers only when every earlier one
      passed: times, then ids, then price, then duration. */
  lemma DirectTimesOrder(b: BookingBody)
    ensures var r := DirectTimes(b);
            var present := Truthy(b.startTs) && Truthy(b.endTs) && Truthy(b.cli) && Truthy(b.doc) && Truthy(b.pat);
            var times := IsInt(b.startTs) && IsInt(b.endTs) && ToNumber(b.startTs).value < ToNumber(b.endTs).value;
            var ids := IsInt(b.cli) && IsInt(b.doc) && IsInt(b.pat);
            var price := b.price == Absent || (ToNumber(b.price).Some? && ToNumber(b.price).value >= 0);
            (r == Err(InvalidTimes) <==> present && !times)
            && (r == Err(InvalidIds) <==> present && times && !ids)
            && (r == Err(InvalidPrice) <==> present && times && ids && !price)
            && (r == Err(DurationExceeds40m) <==>
                  present && times && ids && price && ToNumber(b.endTs).value - ToNumber(b.startTs).value > 2400)
  {
  }

  /** The greatest `key` over the store, 0 when it is empty
      (`Number(max || 0)`). */
  function Greatest(store: seq<Appointment>, key: Appointment -> int): (m: int)
    ensures forall a :: a in store ==> key(a) <= m
    ensures store == [] ==> m == 0
    ensures store != [] ==> exists a :: a in store && key(a) == m
  {
    if |store| == 0 then 0
    else
      var rest := Greatest(store[1..], key);
      assert forall a :: a in store[1..] ==> a in store;
      if |store| == 1 || key(store[0]) >= rest then key(store[0]) else rest
  }

  function IdOf(a: Appointment): int { a.id }

  function AppidOf(a: Appointment): int { a.appid }

  /** `findOne` of an active appointment of the doctor at the clinic that
      overlaps `[s, e)`. */
  predicate Conflict(store: seq<Appointment>, doc: int, cli: int, s: int, e: int)
  {
    exists i :: 0 <= i < |store| && LiveAt(store[i], doc, cli) && Overlaps(s, e, store[i].startTs, store[i].endTs)
  }

  /** The body values the insert writes to numeric columns (`appid`, `price`,
      `treat` when given, and `pat`) are numbers. */
  predicate Storable(b: BookingBody)
  {
    (!Truthy(b.appid) || ToNumber(b.appid).Some?) && (!Truthy(b.price) || ToNumber(b.price).Some?)
    && (!Truthy(b.treat) || ToNumber(b.treat).Some?) && ToNumber(b.pat).Some?
  }

  /** The overlap re-check and the record `Appointment.create` inserts, for
      both modes. A body value the numeric columns cannot take (an `appid`,
      `price`, `treat` or `pat` that is not a number) fails the insert. */
  function Insertion(b: BookingBody, sp: Span, doc: int, cli: int, store: seq<Appointment>): (r: Result<Appointment>)
    ensures r == Err(Overlap) <==> Conflict(store, doc, cli, sp.start, sp.end)
    ensures r == Err(InternalError) <==> !Conflict(store, doc, cli, sp.start, sp.end) && !Storable(b)
    ensures r.Err? ==> r.error in {Overlap, InternalError}
    ensures r.Ok? ==> r.value.startTs == sp.start && r.value.endTs == sp.end && r.value.doc == doc && r.value.cli == cli
  {
    if Conflict(store, doc, cli, sp.start, sp.end) then Err(Overlap)
    else
      var appid := if Truthy(b.appid) then ToNumber(b.appid) else Some(Greatest(store, AppidOf) + 1);
      var price := if Truthy(b.price) then ToNumber(b.price) else Some(0);
      var treat := if Truthy(b.treat) then ToNumber(b.treat) else Some(0);
      var pat := ToNumber(b.pat);
      if appid.None? || price.None? || treat.None? || pat.None? then Err(InternalError)
      else Ok(Appointment(Greatest(store, IdOf) + 1, appid.value, sp.start, sp.end, cli, doc, treat.value, pat.value, 0, 1, 0))
  }

  /** The interval either mode books, or the error it answers first. */
  function Slot(b: BookingBody, day: Option<int>, meta: ClinicMeta, hours: seq<BusinessHour>, store: seq<Appointment>): (r: Result<Span>)
    ensures r.Ok? ==> ToNumber(b.doc).Some? && ToNumber(b.cli).Some?
                      && r.value.start < r.value.end <= r.value.start + 40 * 60
                      && (ShiftMode(b) ==> r.value.end == r.value.start + SlotSeconds)
  {
    if ShiftMode(b) then ShiftSlot(b, day, meta, hours, store) else DirectTimes(b)
  }

  /** The record `addAppointment` inserts, or the error it answers. */
  function Plan(b: BookingBody, day: Option<int>, meta: ClinicMeta, hours: seq<BusinessHour>, store: seq<Appointment>): Result<Appointment>
  {
    match Slot(b, day, meta, hours, store)
    case Err(e) => Err(e)
    case Ok(sp) => Insertion(b, sp, ToNumber(b.doc).value, ToNumber(b.cli).value, store)
  }

  /** A booking whose slot is found answers `overlap` exactly when an active
      appointment of the doctor at the clinic overlaps it, and succeeds exactly
      when none does and the body's numeric values are numbers; otherwise the
      slot's own error is the answer. */
  lemma PlanOutcome(b: BookingBody, day: Option<int>, meta: ClinicMeta, hours: seq<BusinessHour>, store: seq<Appointment>)
    ensures var p, sl := Plan(b, day, meta, hours, store), Slot(b, day, meta, hours, store);
            (sl.Err? ==> p == Err(sl.error))
            && (sl.Ok? ==>
                  (p == Err(Overlap) <==> Conflict(store, ToNumber(b.doc).value, ToNumber(b.cli).value, sl.value.start, sl.value.end))
                  && (p.Ok? <==> !Conflict(store, ToNumber(b.doc).value, ToNumber(b.cli).value, sl.value.start, sl.value.end) && Storable(b)))
  {
  }

  /** The answer of `addAppointment`. */
  function BookingResponse(b: BookingBody, day: Option<int>, meta: ClinicMeta, hours: seq<BusinessHour>, store: seq<Appointment>): (r: Result<Created>)
    ensures r.Err? <==> Plan(b, day, meta, hours, store).Err?
    ensures r.Err? ==> r.error == Plan(b, day, meta, hours, store).error
    ensures r.Ok? ==> var a := Plan(b, day, meta, hours, store).value; r.value == Created(a.id, a.startTs, a.endTs)
  {
    match Plan(b, day, meta, hours, store)
    case Err(e) => Err(e)
    case Ok(a) => Ok(Created(a.id, a.startTs, a.endTs))
  }

  /** The inserted record: a fresh ID one above every ID in the store, the
      supplied appid or one above the greatest, the doctor, clinic and patient
      of the body, active, unpaid, without parent, and times that make a
      non-empty interval of at most 40 minutes (exactly 40 in shift mode) that
      overlaps no active appointment of that doctor at that clinic. */
  lemma PlanRecord(b: BookingBody, day: Option<int>, meta: ClinicMeta, hours: seq<BusinessHour>, store: seq<Appointment>)
    requires Plan(b, day, meta, hours, store).Ok?
    ensures var a := Plan(b, day, meta, hours, store).value;
            a.id == Greatest(store, IdOf) + 1 && (forall x :: x in store ==> x.id < a.id)
            && a.appid == (if Truthy(b.appid) then ToNumber(b.appid).value else Greatest(store, AppidOf) + 1)
            && Some(a.doc) == ToNumber(b.doc) && Some(a.cli) == ToNumber(b.cli) && Some(a.pat) == ToNumber(b.pat)
            && a.active == 1 && a.paid == 0 && a.parent == 0
            && a.startTs < a.endTs <= a.startTs + 40 * 60
            && (ShiftMode(b) ==> a.endTs == a.startTs + SlotSeconds)
            && forall x :: x in store && LiveAt(x, a.doc, a.cli) ==> !Overlaps(a.startTs, a.endTs, x.startTs, x.endTs)
  {
    var sp := Slot(b, day, meta, hours, store).value;
    var a := Insertion(b, sp, ToNumber(b.doc).value, ToNumber(b.cli).value, store).value;
    assert Plan(b, day, meta, hours, store).value == a;
    forall x | x in store && LiveAt(x, a.doc, a.cli) ensures !Overlaps(a.startTs, a.endTs, x.startTs, x.endTs) {
      var i :| 0 <= i < |store| && store[i] == x;
    }
  }

  /** The active appointments of each doctor at each clinic are pairwise
      disjoint. */
  predicate Disjoint(store: seq<Appointment>)
  {
    forall i, j :: 0 <= i < j < |store| && store[i].active == 1 && LiveAt(store[j], store[i].doc, store[i].cli) ==>
      !Overlaps(store[i].startTs, store[i].endTs, store[j].startTs, store[j].endTs)
  }

  /** No two rows share an ID. */
  predicate DistinctIds(store: seq<Appointment>)
  {
    forall i, j :: 0 <= i < j < |store| ==> store[i].id != store[j].id
  }

  /** A successful booking keeps the active appointments of each doctor and
      clinic disjoint and the IDs distinct. */
  lemma PlanKeepsInvariants(b: BookingBody, day: Option<int>, meta: ClinicMeta, hours: seq<BusinessHour>, store: seq<Appointment>)
    requires Plan(b, day, meta, hours, store).Ok?
    ensures Disjoint(store) ==> Disjoint(store + [Plan(b, day, meta, hours, store).value])
    ensures DistinctIds(store) ==> DistinctIds(store + [Plan(b, day, meta, hours, store).value])
  {
    PlanRecord(b, day, meta, hours, store);
    AppendKeeps(store, Plan(b, day, meta, hours, store).value);
  }

  /** Appending an active record with a fresh ID that overlaps no active
      record of its doctor and clinic keeps both invariants. */
  lemma AppendKeeps(store: seq<Appointment>, a: Appointment)
    requires forall x :: x in store ==> x.id < a.id
    requires forall x :: x in store && LiveAt(x, a.doc, a.cli) ==> !Overlaps(a.startTs, a.endTs, x.startTs, x.endTs)
    ensures Disjoint(store) ==> Disjoint(store + [a])
    ensures DistinctIds(store) ==> DistinctIds(store + [a])
  {
    var s := store + [a];
    forall i | 0 <= i < |store| ensures s[i] == store[i] && s[i] in store {
    }
    forall i | 0 <= i < |store| && store[i].active == 1 && LiveAt(a, store[i].doc, store[i].cli)
      ensures !Overlaps(store[i].startTs, store[i].endTs, a.startTs, a.endTs)
    {
      assert store[i] in store && LiveAt(store[i], a.doc, a.cli);
      OverlapsSymmetric(store[i].startTs, store[i].endTs, a.startTs, a.endTs);
    }
  }
}
