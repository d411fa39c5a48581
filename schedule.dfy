/** `GET /schedules` (the open days of a clinic with their shifts) and
    `GET /doctors/available` (the doctors who can still take a 40-minute
    appointment in one shift of one day, ranked by their first free start). */
module Schedule {
  import opened Js
  import opened Clock
  import opened Interval
  import opened Sorting
  import opened Records
  import opened Scan
  import opened Slots

  datatype Shift = AM | PM

  /** The query of `/schedules`: `clinic_id` and `days`, "" when absent. */
  datatype ScheduleQuery = ScheduleQuery(clinicId: string, days: string)

  /** One entry of `/schedules`: `{ date, weekday, shifts }`. */
  datatype ScheduleDay = ScheduleDay(date: int, weekday: string, shifts: seq<Shift>)

  /** `invalid_clinic_id` when the id is not all digits, then `invalid_days`
      outside 1..60; otherwise the number of days (default 14). */
  function ValidateSchedule(q: ScheduleQuery): (r: Result<nat>)
    ensures r.Ok? <==> IsDigitString(q.clinicId) && InRange(NumberOr(q.days, 14), 1, 60)
    ensures r.Ok? ==> 1 <= r.value <= 60 && Some(r.value as int) == NumberOr(q.days, 14)
    ensures r.Err? ==> r.error == (if !IsDigitString(q.clinicId) then InvalidClinicId else InvalidDays)
  {
    var days := NumberOr(q.days, 14);
    if !IsDigitString(q.clinicId) then Err(InvalidClinicId)
    else if !InRange(days, 1, 60) then Err(InvalidDays)
    else Ok(days.value)
  }

  /** The shifts a clinic offers: AM when its AM hours parse, then PM when its
      PM hours parse. */
  function ShiftsOf(am: Option<Hours>, pm: Option<Hours>): (shifts: seq<Shift>)
    ensures AM in shifts <==> am.Some?
    ensures PM in shifts <==> pm.Some?
    ensures |shifts| <= 2 && (|shifts| == 2 ==> shifts == [AM, PM])
  {
    (if am.Some? then [AM] else []) + (if pm.Some? then [PM] else [])
  }

  /** The listing of `days` days from `first`: a day is listed when its short
      weekday name is one of the open days and the clinic has a shift. */
  function OpenListing(first: int, days: nat, open: seq<string>, shifts: seq<Shift>): seq<ScheduleDay>
  {
    if days == 0 then []
    else
      var day := first + days - 1;
      var short := DowShort[Weekday(day)];
      OpenListing(first, days - 1, open, shifts)
      + (if short in open && |shifts| > 0 then [ScheduleDay(day, short, shifts)] else [])
  }

  lemma OpenListingNext(first: int, days: nat, open: seq<string>, shifts: seq<Shift>, day: int)
    requires day == first + days
    ensures OpenListing(first, days + 1, open, shifts)
            == OpenListing(first, days, open, shifts)
               + (if DowShort[Weekday(day)] in open && |shifts| > 0 then [ScheduleDay(day, DowShort[Weekday(day)], shifts)] else [])
  {
    var n: nat := days + 1;
    assert n - 1 == days && first + n - 1 == day;
    var short := DowShort[Weekday(day)];
    assert OpenListing(first, n, open, shifts)
           == OpenListing(first, days, open, shifts) + (if short in open && |shifts| > 0 then [ScheduleDay(day, short, shifts)] else []);
  }

  /** The response of `/schedules` for a clinic whose settings are `meta`, with
      `today` the current day (UTC). */
  function SchedulesResponse(q: ScheduleQuery, today: int, meta: ClinicMeta): Result<seq<ScheduleDay>>
  {
    match ValidateSchedule(q)
    case Err(e) => Err(e)
    case Ok(days) => Ok(OpenListing(today, days, OpenDays(meta.openDays), ShiftsOf(ParseHours(meta.amHours), ParseHours(meta.pmHours))))
  }

  /** `getSchedules`. */
  method GetSchedules(q: ScheduleQuery, today: int, meta: ClinicMeta) returns (r: Result<seq<ScheduleDay>>)
    ensures r == SchedulesResponse(q, today, meta)
  {
    var v := ValidateSchedule(q);
    if v.Err? {
      return Err(v.error);
    }
    var open := OpenDays(meta.openDays);
    var am, pm := ParseHours(meta.amHours), ParseHours(meta.pmHours);
    var out := ListOpenDays(today, v.value, open, am, pm);
    return Ok(out);
  }

  /** The loop of `getSchedules` over the days from `first`. */
  method ListOpenDays(first: int, days: nat, open: seq<string>, am: Option<Hours>, pm: Option<Hours>)
    returns (out: seq<ScheduleDay>)
    ensures out == OpenListing(first, days, open, ShiftsOf(am, pm))
  {
    ghost var offered := ShiftsOf(am, pm);
    out := [];
    var d := 0;
    while d < days
      invariant 0 <= d <= days
      invariant out == OpenListing(first, d, open, offered)
    {
      var day := first + d;
      var short := DowShort[Weekday(day)];
      OpenListingNext(first, d, open, offered, day);
      d := d + 1;
      if short !in open {
        continue;
      }
      var shifts := (if am.Some? then [AM] else []) + (if pm.Some? then [PM] else []);
      if |shifts| > 0 {
        out := out + [ScheduleDay(day, short, shifts)];
      }
    }
  }

  /** Dates strictly increase along a listing. */
  predicate Ascending(listing: seq<ScheduleDay>)
  {
    forall i, j :: 0 <= i < j < |listing| ==> listing[i].date < listing[j].date
  }

  /** What the listing promises: at most one entry per day, in increasing date
      order; each entry is a day of the range, carries that day's short weekday
      name, which is an open day, and the clinic's shifts, which are not none. */
  lemma {:induction false} OpenListingFacts(first: int, days: nat, open: seq<string>, shifts: seq<Shift>)
    ensures |OpenListing(first, days, open, shifts)| <= days
    ensures Ascending(OpenListing(first, days, open, shifts))
    ensures forall x :: x in OpenListing(first, days, open, shifts) ==> ListedDay(x, first, days, open, shifts)
  {
    if days > 0 {
      OpenListingFacts(first, days - 1, open, shifts);
      var prev := OpenListing(first, days - 1, open, shifts);
      var l := OpenListing(first, days, open, shifts);
      var day := first + days - 1;
      var short := DowShort[Weekday(day)];
      forall x | x in prev ensures ListedDay(x, first, days, open, shifts) {
        assert ListedDay(x, first, days - 1, open, shifts);
      }
      if short in open && |shifts| > 0 {
        var entry := ScheduleDay(day, short, shifts);
        assert l == prev + [entry];
        assert ListedDay(entry, first, days, open, shifts);
        forall i, j | 0 <= i < j < |l| ensures l[i].date < l[j].date {
          assert l[i] == prev[i] && prev[i] in prev;
          if j < |prev| {
            assert l[j] == prev[j];
          }
        }
      } else {
        assert l == prev;
      }
    }
  }

  /** Every day of the range whose short weekday name is an open day is
      listed, when the clinic has a shift. */
  lemma {:induction false} OpenListingComplete(first: int, days: nat, open: seq<string>, shifts: seq<Shift>, day: int)
    requires first <= day < first + days && DowShort[Weekday(day)] in open && |shifts| > 0
    ensures ScheduleDay(day, DowShort[Weekday(day)], shifts) in OpenListing(first, days, open, shifts)
  {
    var last := first + days - 1;
    var prev := OpenListing(first, days - 1, open, shifts);
    if day < last {
      OpenListingComplete(first, days - 1, open, shifts, day);
      assert OpenListing(first, days, open, shifts) == prev + (if DowShort[Weekday(last)] in open then [ScheduleDay(last, DowShort[Weekday(last)], shifts)] else []);
    } else {
      assert OpenListing(first, days, open, shifts) == prev + [ScheduleDay(last, DowShort[Weekday(last)], shifts)];
    }
  }

  /** An entry of the listing of `days` days from `first`: a day of the range,
      with that day's short weekday name, which is an open day, and the clinic's
      shifts, which are not none. */
  predicate ListedDay(x: ScheduleDay, first: int, days: nat, open: seq<string>, shifts: seq<Shift>)
  {
    first <= x.date < first + days && x.weekday == DowShort[Weekday(x.date)]
    && x.weekday in open && x.shifts == shifts && |shifts| > 0
  }

  lemma {:induction false} OpenListingUnshifted(first: int, days: nat, open: seq<string>)
    ensures OpenListing(first, days, open, []) == []
  {
    if days > 0 {
      OpenListingUnshifted(first, days - 1, open);
    }
  }

  /** A clinic with neither shift's hours set lists no day at all. */
  lemma NoShiftsNoListing(q: ScheduleQuery, today: int, meta: ClinicMeta)
    requires ValidateSchedule(q).Ok?
    requires ParseHours(meta.amHours).None? && ParseHours(meta.pmHours).None?
    ensures SchedulesResponse(q, today, meta) == Ok([])
  {
    var days := ValidateSchedule(q).value;
    OpenListingUnshifted(today, days, OpenDays(meta.openDays));
  }

  /** The query of `/doctors/available`: `clinic_id`, `date` and `shift`, ""
      when absent. */
  datatype AvailQuery = AvailQuery(clinicId: string, date: string, shift: string)

  /** One entry of the ranking: `{ id, next_available_at, capacity_remaining }`
      (the display name is not part of this model). */
  datatype Ranked = Ranked(id: int, next: Option<int>, capacity: nat)

  /** The fixed appointment length of the ranking, 40 minutes. */
  const SlotSeconds: int := 2400

  /** `/^\d{4}-\d{2}-\d{2}$/`. */
  predicate DateShaped(date: string)
  {
    |date| == 10 && date[4] == '-' && date[7] == '-'
    && forall i :: 0 <= i < 10 && i != 4 && i != 7 ==> IsDigit(date[i])
  }

  datatype AvailParams = AvailParams(clinic: nat, shift: Shift)

  /** The checks, in order: `invalid_clinic_id`, `invalid_date` (by shape
      only), `invalid_shift` unless the shift is exactly "AM" or "PM". */
  function ValidateAvail(q: AvailQuery): (r: Result<AvailParams>)
    ensures r.Ok? <==> IsDigitString(q.clinicId) && DateShaped(q.date) && q.shift in ["AM", "PM"]
    ensures r.Err? ==> r.error == (if !IsDigitString(q.clinicId) then InvalidClinicId
                                   else if !DateShaped(q.date) then InvalidDate else InvalidShift)
    ensures r.Ok? ==> r.value.clinic == DigitsValue(q.clinicId) && (r.value.shift == AM <==> q.shift == "AM")
  {
    if !IsDigitString(q.clinicId) then Err(InvalidClinicId)
    else if !DateShaped(q.date) then Err(InvalidDate)
    else if q.shift != "AM" && q.shift != "PM" then Err(InvalidShift)
    else Ok(AvailParams(DigitsValue(q.clinicId), if q.shift == "AM" then AM else PM))
  }

  /** The clinic's hours for a shift. */
  function ShiftHours(meta: ClinicMeta, shift: Shift): Option<Hours>
  {
    ParseHours(if shift == AM then meta.amHours else meta.pmHours)
  }

  /** The clinic is open on the day the date denotes; an invalid date (None)
      has no weekday, so it is never open. */
  predicate OpenOn(meta: ClinicMeta, day: Option<int>)
  {
    day.Some? && DowShort[Weekday(day.value)] in OpenDays(meta.openDays)
  }

  /** `BusinessHour.findAll({ clin, day: dayName })`, in store order. */
  function DayRows(hours: seq<BusinessHour>, clin: int, dayName: string): (r: seq<BusinessHour>)
    ensures forall x :: x in r <==> x in hours && x.clin == clin && x.day == dayName
  {
    if |hours| == 0 then []
    else (if hours[0].clin == clin && hours[0].day == dayName then [hours[0]] else []) + DayRows(hours[1..], clin, dayName)
  }

  /** The keys of `byDoc`: the doctors of the rows in order of first appearance. */
  function DocOrder(rows: seq<BusinessHour>): seq<int>
  {
    if |rows| == 0 then []
    else
      var ids := DocOrder(rows[..|rows| - 1]);
      if rows[|rows| - 1].doc in ids then ids else ids + [rows[|rows| - 1].doc]
  }

  /** No doctor twice. */
  predicate Distinct(ids: seq<int>)
  {
    forall i, j :: 0 <= i < j < |ids| ==> ids[i] != ids[j]
  }

  /** A doctor has a row. */
  predicate HasRow(rows: seq<BusinessHour>, doc: int)
  {
    exists r :: r in rows && r.doc == doc
  }

  /** The keys of `byDoc` are the doctors with a row, each once. */
  lemma {:induction false} DocOrderFacts(rows: seq<BusinessHour>)
    ensures Distinct(DocOrder(rows))
    ensures forall d :: d in DocOrder(rows) <==> HasRow(rows, d)
  {
    if |rows| > 0 {
      var init := rows[..|rows| - 1];
      var last := rows[|rows| - 1];
      DocOrderFacts(init);
      forall d | HasRow(rows, d) ensures HasRow(init, d) || d == last.doc {
        var r :| r in rows && r.doc == d;
        if r != last {
          var k :| 0 <= k < |rows| && rows[k] == r;
          assert init[k] == r;
        }
      }
      forall d | HasRow(init, d) ensures HasRow(rows, d) {
        var r :| r in init && r.doc == d;
        assert r in rows;
      }
      assert last in rows;
    }
  }

  /** `byDoc.get(doc)`: the doctor's rows, in store order. */
  function RowsOf(rows: seq<BusinessHour>, doc: int): (r: seq<BusinessHour>)
    ensures forall x :: x in r <==> x in rows && x.doc == doc
  {
    if |rows| == 0 then []
    else RowsOf(rows[..|rows| - 1], doc) + (if rows[|rows| - 1].doc == doc then [rows[|rows| - 1]] else [])
  }

  /** `docIds.filter(id => activeDocIds.includes(String(id)))`: the doctors that
      hold the capability, in the same order. */
  function ActiveIds(ids: seq<int>, active: set<int>): (r: seq<int>)
    ensures forall d :: d in r <==> d in ids && d in active
    ensures Distinct(ids) ==> Distinct(r)
  {
    if |ids| == 0 then []
    else (if ids[0] in active then [ids[0]] else []) + ActiveIds(ids[1..], active)
  }

  /** `Math.max`, `Math.min` with NaN as None: NaN wins. */
  function MaxOf(a: Option<int>, b: Option<int>): Option<int>
  {
    if a.Some? && b.Some? then Some(Max(a.value, b.value)) else None
  }

  function MinOf(a: Option<int>, b: Option<int>): Option<int>
  {
    if a.Some? && b.Some? then Some(Min(a.value, b.value)) else None
  }

  /** A range `[s, e)` whose ends may be NaN. */
  datatype Range = Range(s: Option<int>, e: Option<int>)

  /** A business-hour row cut down to the shift on `day`. */
  function RowRange(day: int, r: BusinessHour, turnoStart: Option<int>, turnoEnd: Option<int>): (g: Range)
    ensures g.s.Some? ==> ToTs(day, r.start).Some? && turnoStart.Some?
                          && g.s.value >= ToTs(day, r.start).value && g.s.value >= turnoStart.value
    ensures g.e.Some? ==> ToTs(day, r.end).Some? && turnoEnd.Some?
                          && g.e.value <= ToTs(day, r.end).value && g.e.value <= turnoEnd.value
  {
    Range(MaxOf(ToTs(day, r.start), turnoStart), MinOf(ToTs(day, r.end), turnoEnd))
  }

  /** `if (e <= s) continue;`: false whenever an end is NaN. */
  predicate Skipped(g: Range)
  {
    g.s.Some? && g.e.Some? && g.e.value <= g.s.value
  }

  /** A doctor's running `bestNext` and `totalCap`. */
  datatype Capacity = Capacity(best: Option<int>, total: nat)

  /** `if (bestNext === null || (next !== null && next < bestNext)) bestNext = next`. */
  function Better(best: Option<int>, next: Option<int>): Option<int>
  {
    if best.None? || (next.Some? && next.value < best.value) then next else best
  }

  /** What a row contributes: the starts `nextSlotAndCapacity` counts in the
      row's range, none when the range is skipped. */
  function RowStarts(day: int, r: BusinessHour, turnoStart: Option<int>, turnoEnd: Option<int>, busy: seq<Span>): seq<int>
  {
    var g := RowRange(day, r, turnoStart, turnoEnd);
    if Skipped(g) then [] else RangeStarts(busy, g.s, g.e, SlotSeconds)
  }

  /** The starts each of the doctor's rows contributes, row by row. */
  function RowsStarts(day: int, rows: seq<BusinessHour>, turnoStart: Option<int>, turnoEnd: Option<int>, busy: seq<Span>): (ss: seq<seq<int>>)
    ensures |ss| == |rows|
    ensures forall k :: 0 <= k < |rows| ==> ss[k] == RowStarts(day, rows[k], turnoStart, turnoEnd, busy)
  {
    seq(|rows|, k requires 0 <= k < |rows| => RowStarts(day, rows[k], turnoStart, turnoEnd, busy))
  }

  /** `bestNext` and `totalCap` after a sequence of rows' starts, in order. */
  function Fold(ss: seq<seq<int>>): Capacity
  {
    if |ss| == 0 then Capacity(None, 0) else AddRow(Fold(ss[..|ss| - 1]), ss[|ss| - 1])
  }

  /** `bestNext` and `totalCap` after the doctor's rows, in order. */
  function Aggregate(day: int, rows: seq<BusinessHour>, turnoStart: Option<int>, turnoEnd: Option<int>, busy: seq<Span>): Capacity
  {
    Fold(RowsStarts(day, rows, turnoStart, turnoEnd, busy))
  }

  /** One row's step of the aggregation: a row with starts adds their number
      and offers its first start as a better `bestNext`. */
  function AddRow(acc: Capacity, starts: seq<int>): Capacity
  {
    if |starts| > 0 then Capacity(Better(acc.best, Head(starts)), acc.total + |starts|) else acc
  }

  /** A doctor's busy intervals that day: the appointments the day's query
      returns for the doctor at the clinic. */
  function DoctorBusy(apps: seq<Appointment>, doc: int, clinic: int, day: int): seq<Span>
  {
    Spans(DayApps(apps, doc, clinic, DayStart(day)), AppSpan)
  }

  /** `bestNext` and `totalCap` of one doctor. */
  function DoctorAggregate(day: int, id: int, rows: seq<BusinessHour>, turnoStart: Option<int>, turnoEnd: Option<int>,
                           apps: seq<Appointment>, clinic: int): Capacity
  {
    Aggregate(day, RowsOf(rows, id), turnoStart, turnoEnd, DoctorBusy(apps, id, clinic, day))
  }

  /** One entry per doctor of `ids`, in order, for those `agg` gives capacity. */
  function Entries(ids: seq<int>, agg: int -> Capacity): seq<Ranked>
  {
    if |ids| == 0 then []
    else
      var id := ids[|ids| - 1];
      var c := agg(id);
      Entries(ids[..|ids| - 1], agg) + (if c.total > 0 then [Ranked(id, c.best, c.total)] else [])
  }

  /** The unsorted `out`: one entry per doctor, in order, with capacity left. */
  function Candidates(day: int, ids: seq<int>, rows: seq<BusinessHour>, turnoStart: Option<int>, turnoEnd: Option<int>,
                      apps: seq<Appointment>, clinic: int): seq<Ranked>
  {
    Entries(ids, id => DoctorAggregate(day, id, rows, turnoStart, turnoEnd, apps, clinic))
  }

  /** The sort key `a.next_available_at || 0`. */
  function RankKey(x: Ranked): int
  {
    if x.next.Some? then x.next.value else 0
  }

  /** The ranking of an open shift: the candidates in `out` order, sorted by
      their first free start. */
  function Ranking(day: int, clinic: int, shift: Hours, hours: seq<BusinessHour>, active: set<int>, apps: seq<Appointment>): seq<Ranked>
  {
    var rows := DayRows(hours, clinic, DowName[Weekday(day)]);
    SortBy(Candidates(day, ActiveIds(DocOrder(rows), active), rows, ToTs(day, shift.start), ToTs(day, shift.end), apps, clinic), RankKey)
  }

  /** The response of `/doctors/available`, with `day` the day the date string
      denotes (None when it is no valid date), `meta` the clinic's settings,
      `active` the doctors holding the capability, and the store's rows. */
  function AvailResponse(q: AvailQuery, day: Option<int>, meta: ClinicMeta, hours: seq<BusinessHour>, active: set<int>,
                         apps: seq<Appointment>): (r: Result<seq<Ranked>>)
    ensures r.Err? <==> ValidateAvail(q).Err?
    ensures r.Err? ==> r.error == ValidateAvail(q).error
    ensures r.Ok? && (!OpenOn(meta, day) || ShiftHours(meta, ValidateAvail(q).value.shift).None?) ==> r.value == []
  {
    match ValidateAvail(q)
    case Err(e) => Err(e)
    case Ok(p) =>
      var hrs := ShiftHours(meta, p.shift);
      if !OpenOn(meta, day) || hrs.None? then Ok([])
      else Ok(Ranking(day.value, p.clinic, hrs.value, hours, active, apps))
  }

  /** `getAvailableDoctors`. */
  method GetAvailableDoctors(q: AvailQuery, day: Option<int>, meta: ClinicMeta, hours: seq<BusinessHour>, active: set<int>,
                             apps: seq<Appointment>) returns (r: Result<seq<Ranked>>)
    ensures r == AvailResponse(q, day, meta, hours, active, apps)
  {
    var v := ValidateAvail(q);
    if v.Err? {
      return Err(v.error);
    }
    var p := v.value;
    var hrs := ShiftHours(meta, p.shift);
    if !OpenOn(meta, day) || hrs.None? {
      return Ok([]);
    }
    var out := RankShift(day.value, p.clinic, hrs.value, hours, active, apps);
    return Ok(out);
  }

  /** The part of `getAvailableDoctors` after the clinic is known to be open. */
  method RankShift(day: int, clinic: int, shift: Hours, hours: seq<BusinessHour>, active: set<int>, apps: seq<Appointment>)
    returns (out: seq<Ranked>)
    ensures out == Ranking(day, clinic, shift, hours, active, apps)
  {
    var turnoStart, turnoEnd := ToTs(day, shift.start), ToTs(day, shift.end);
    var rows := DayRows(hours, clinic, DowName[Weekday(day)]);
    var docIds, byDoc := GroupByDoctor(rows);
    if |docIds| == 0 {
      return [];
    }
    var finalIds := ActiveIds(docIds, active);
    if |finalIds| == 0 {
      return [];
    }
    out := RankDoctors(day, finalIds, rows, byDoc, turnoStart, turnoEnd, apps, clinic);
    out := SortBy(out, RankKey);
  }

  lemma {:induction false} RowsOfNone(rows: seq<BusinessHour>, doc: int)
    requires !HasRow(rows, doc)
    ensures RowsOf(rows, doc) == []
  {
    if |rows| > 0 {
      assert rows[|rows| - 1] in rows;
      assert !HasRow(rows[..|rows| - 1], doc) by {
        forall r | r in rows[..|rows| - 1] ensures r.doc != doc {
          assert r in rows;
        }
      }
      RowsOfNone(rows[..|rows| - 1], doc);
    }
  }

  /** `docIds` and `byDoc` as the loop leaves them after `rows`. */
  ghost predicate Grouped(rows: seq<BusinessHour>, docIds: seq<int>, byDoc: map<int, seq<BusinessHour>>)
  {
    docIds == DocOrder(rows)
    && (forall d :: d in byDoc <==> d in docIds)
    && forall d :: d in byDoc ==> byDoc[d] == RowsOf(rows, d)
  }

  /** The loop that fills `byDoc`: each doctor's rows in store order, keyed in
      order of first appearance. */
  method GroupByDoctor(rows: seq<BusinessHour>) returns (docIds: seq<int>, byDoc: map<int, seq<BusinessHour>>)
    ensures docIds == DocOrder(rows)
    ensures forall d :: d in byDoc <==> d in docIds
    ensures forall d :: d in byDoc ==> byDoc[d] == RowsOf(rows, d)
  {
    docIds, byDoc := [], map[];
    var i := 0;
    while i < |rows|
      invariant 0 <= i <= |rows|
      invariant Grouped(rows[..i], docIds, byDoc)
    {
      var row := rows[i];
      GroupStep(rows, i, docIds, byDoc);
      if row.doc !in byDoc {
        byDoc := byDoc[row.doc := []];
        docIds := docIds + [row.doc];
      }
      byDoc := byDoc[row.doc := byDoc[row.doc] + [row]];
      i := i + 1;
    }
    assert rows[..i] == rows;
  }

  /** One turn of that loop keeps `docIds` and `byDoc` in step with the rows
      seen so far. */
  lemma GroupStep(rows: seq<BusinessHour>, i: nat, docIds: seq<int>, byDoc: map<int, seq<BusinessHour>>)
    requires i < |rows| && Grouped(rows[..i], docIds, byDoc)
    ensures var doc := rows[i].doc;
            var docIds' := if doc in byDoc then docIds else docIds + [doc];
            var byDoc' := if doc in byDoc then byDoc else byDoc[doc := []];
            Grouped(rows[..i + 1], docIds', byDoc'[doc := byDoc'[doc] + [rows[i]]])
  {
    var doc := rows[i].doc;
    var docIds' := if doc in byDoc then docIds else docIds + [doc];
    var byDoc' := if doc in byDoc then byDoc else byDoc[doc := []];
    var next := byDoc'[doc := byDoc'[doc] + [rows[i]]];
    assert rows[..i + 1][..i] == rows[..i] && rows[..i + 1][i] == rows[i];
    assert docIds' == DocOrder(rows[..i + 1]);
    if doc !in byDoc {
      DocOrderFacts(rows[..i]);
      RowsOfNone(rows[..i], doc);
    }
    forall d | d in next ensures next[d] == RowsOf(rows[..i + 1], d) {
      assert RowsOf(rows[..i + 1], d) == RowsOf(rows[..i], d) + (if doc == d then [rows[i]] else []);
    }
  }

  /** The loop over one doctor's rows: cuts each to the shift, skips empty
      ranges and adds up what `nextSlotAndCapacity` counts. */
  method DoctorCapacity(day: int, rows: seq<BusinessHour>, turnoStart: Option<int>, turnoEnd: Option<int>, busy: seq<Span>)
    returns (bestNext: Option<int>, totalCap: nat)
    ensures Capacity(bestNext, totalCap) == Aggregate(day, rows, turnoStart, turnoEnd, busy)
  {
    bestNext, totalCap := None, 0;
    var j := 0;
    while j < |rows|
      invariant 0 <= j <= |rows|
      invariant Capacity(bestNext, totalCap) == Aggregate(day, rows[..j], turnoStart, turnoEnd, busy)
    {
      AggregateStep(day, rows, j, turnoStart, turnoEnd, busy);
      ghost var starts := RowStarts(day, rows[j], turnoStart, turnoEnd, busy);
      var next, capacity := RowCapacity(day, rows[j], turnoStart, turnoEnd, busy);
      assert Capacity(bestNext, totalCap) == Aggregate(day, rows[..j], turnoStart, turnoEnd, busy);
      j := j + 1;
      if capacity > 0 {
        totalCap := totalCap + capacity;
        if bestNext.None? || (next.Some? && next.value < bestNext.value) {
          bestNext := next;
        }
      }
    }
    assert rows[..j] == rows;
  }

  /** One row of that loop: its range cut to the shift, skipped when empty,
      otherwise handed to `nextSlotAndCapacity`. */
  method RowCapacity(day: int, r: BusinessHour, turnoStart: Option<int>, turnoEnd: Option<int>, busy: seq<Span>)
    returns (next: Option<int>, capacity: nat)
    ensures capacity == |RowStarts(day, r, turnoStart, turnoEnd, busy)|
    ensures next == Head(RowStarts(day, r, turnoStart, turnoEnd, busy))
  {
    var g := RowRange(day, r, turnoStart, turnoEnd);
    if g.s.Some? && g.e.Some? && g.e.value <= g.s.value {
      return None, 0;
    }
    next, capacity := NextSlotAndCapacity(busy, g.s, g.e, SlotSeconds);
  }

  lemma AggregateStep(day: int, rows: seq<BusinessHour>, j: nat, turnoStart: Option<int>, turnoEnd: Option<int>, busy: seq<Span>)
    requires j < |rows|
    ensures Aggregate(day, rows[..j + 1], turnoStart, turnoEnd, busy)
            == AddRow(Aggregate(day, rows[..j], turnoStart, turnoEnd, busy), RowStarts(day, rows[j], turnoStart, turnoEnd, busy))
  {
    var ss := RowsStarts(day, rows[..j + 1], turnoStart, turnoEnd, busy);
    assert ss[..j] == RowsStarts(day, rows[..j], turnoStart, turnoEnd, busy);
  }

  lemma CandidatesStep(day: int, ids: seq<int>, k: nat, rows: seq<BusinessHour>, turnoStart: Option<int>, turnoEnd: Option<int>,
                       apps: seq<Appointment>, clinic: int)
    requires k < |ids|
    ensures var c := DoctorAggregate(day, ids[k], rows, turnoStart, turnoEnd, apps, clinic);
            Candidates(day, ids[..k + 1], rows, turnoStart, turnoEnd, apps, clinic)
            == Candidates(day, ids[..k], rows, turnoStart, turnoEnd, apps, clinic)
               + (if c.total > 0 then [Ranked(ids[k], c.best, c.total)] else [])
  {
    var agg := id => DoctorAggregate(day, id, rows, turnoStart, turnoEnd, apps, clinic);
    assert ids[..k + 1][..k] == ids[..k] && ids[..k + 1][k] == ids[k];
    assert Entries(ids[..k + 1], agg) == Entries(ids[..k], agg)
           + (if agg(ids[k]).total > 0 then [Ranked(ids[k], agg(ids[k]).best, agg(ids[k]).total)] else []);
  }

  /** The loop over the capable doctors that fills `out`. */
  method RankDoctors(day: int, ids: seq<int>, rows: seq<BusinessHour>, byDoc: map<int, seq<BusinessHour>>,
                     turnoStart: Option<int>, turnoEnd: Option<int>, apps: seq<Appointment>, clinic: int)
    returns (out: seq<Ranked>)
    requires forall d :: d in ids ==> d in byDoc && byDoc[d] == RowsOf(rows, d)
    ensures out == Candidates(day, ids, rows, turnoStart, turnoEnd, apps, clinic)
  {
    out := [];
    var k := 0;
    while k < |ids|
      invariant 0 <= k <= |ids|
      invariant out == Candidates(day, ids[..k], rows, turnoStart, turnoEnd, apps, clinic)
    {
      CandidatesStep(day, ids, k, rows, turnoStart, turnoEnd, apps, clinic);
      var id := ids[k];
      var bestNext, totalCap := DoctorCapacity(day, byDoc[id], turnoStart, turnoEnd, DoctorBusy(apps, id, clinic, day));
      if totalCap > 0 {
        out := out + [Ranked(id, bestNext, totalCap)];
      }
      k := k + 1;
    }
    assert ids[..k] == ids;
  }

  /** The first start a row offers, if any. */
  function FirstStart(day: int, r: BusinessHour, turnoStart: Option<int>, turnoEnd: Option<int>, busy: seq<Span>): Option<int>
  {
    Head(RowStarts(day, r, turnoStart, turnoEnd, busy))
  }

  /** A doctor has capacity exactly when some row offers a start; `bestNext`
      is then the earliest of the rows' first starts. */
  lemma {:induction false} AggregateFacts(day: int, rows: seq<BusinessHour>, turnoStart: Option<int>, turnoEnd: Option<int>, busy: seq<Span>)
    ensures Aggregate(day, rows, turnoStart, turnoEnd, busy).best.Some? <==> Aggregate(day, rows, turnoStart, turnoEnd, busy).total > 0
    ensures Aggregate(day, rows, turnoStart, turnoEnd, busy).best.Some? ==>
              exists k :: 0 <= k < |rows| && FirstStart(day, rows[k], turnoStart, turnoEnd, busy) == Aggregate(day, rows, turnoStart, turnoEnd, busy).best
    ensures forall k :: 0 <= k < |rows| && FirstStart(day, rows[k], turnoStart, turnoEnd, busy).Some? ==>
              Aggregate(day, rows, turnoStart, turnoEnd, busy).best.Some?
              && Aggregate(day, rows, turnoStart, turnoEnd, busy).best.value <= FirstStart(day, rows[k], turnoStart, turnoEnd, busy).value
  {
    var ss := RowsStarts(day, rows, turnoStart, turnoEnd, busy);
    FoldFacts(ss);
    if Fold(ss).best.Some? {
      var k :| 0 <= k < |ss| && Head(ss[k]) == Fold(ss).best;
      assert FirstStart(day, rows[k], turnoStart, turnoEnd, busy) == Head(ss[k]);
    }
    forall k | 0 <= k < |rows| && FirstStart(day, rows[k], turnoStart, turnoEnd, busy).Some?
      ensures Fold(ss).best.Some? && Fold(ss).best.value <= FirstStart(day, rows[k], turnoStart, turnoEnd, busy).value
    {
      assert ss[k] != [];
    }
  }

  /** The same, for any sequence of per-row starts. */
  lemma {:induction false} FoldFacts(ss: seq<seq<int>>)
    ensures Fold(ss).best.Some? <==> Fold(ss).total > 0
    ensures Fold(ss).best.Some? ==> exists k :: 0 <= k < |ss| && Head(ss[k]) == Fold(ss).best
    ensures forall k :: 0 <= k < |ss| && ss[k] != [] ==> Fold(ss).best.Some? && Fold(ss).best.value <= ss[k][0]
  {
    if |ss| > 0 {
      var n := |ss| - 1;
      var init := ss[..n];
      FoldFacts(init);
      var acc := Fold(init);
      var c := Fold(ss);
      assert c == AddRow(acc, ss[n]);
      forall k | 0 <= k < |ss| && ss[k] != []
        ensures c.best.Some? && c.best.value <= ss[k][0]
      {
        if k < n {
          assert init[k] == ss[k];
        }
      }
      if c.best.Some? && c.best != Head(ss[n]) {
        var k :| 0 <= k < |init| && Head(init[k]) == acc.best;
        assert Head(ss[k]) == c.best;
      }
    }
  }

  /** Every candidate is a listed doctor with capacity, a first free start and
      exactly that doctor's aggregate; every listed doctor with capacity is a
      candidate; distinct doctors give distinct entries. */
  lemma {:induction false} CandidatesFacts(day: int, ids: seq<int>, rows: seq<BusinessHour>, turnoStart: Option<int>, turnoEnd: Option<int>,
                                          apps: seq<Appointment>, clinic: int)
    ensures forall x :: x in Candidates(day, ids, rows, turnoStart, turnoEnd, apps, clinic) ==>
              x.id in ids && x.capacity > 0 && x.next.Some?
              && x.next == DoctorAggregate(day, x.id, rows, turnoStart, turnoEnd, apps, clinic).best
              && x.capacity == DoctorAggregate(day, x.id, rows, turnoStart, turnoEnd, apps, clinic).total
    ensures forall id :: id in ids && DoctorAggregate(day, id, rows, turnoStart, turnoEnd, apps, clinic).total > 0 ==>
              Ranked(id, DoctorAggregate(day, id, rows, turnoStart, turnoEnd, apps, clinic).best,
                     DoctorAggregate(day, id, rows, turnoStart, turnoEnd, apps, clinic).total)
              in Candidates(day, ids, rows, turnoStart, turnoEnd, apps, clinic)
    ensures Distinct(ids) ==> UniqueIds(Candidates(day, ids, rows, turnoStart, turnoEnd, apps, clinic))
  {
    var agg := id => DoctorAggregate(day, id, rows, turnoStart, turnoEnd, apps, clinic);
    EntriesFacts(ids, agg);
    forall x | x in Entries(ids, agg)
      ensures x.next.Some?
    {
      AggregateFacts(day, RowsOf(rows, x.id), turnoStart, turnoEnd, DoctorBusy(apps, x.id, clinic, day));
    }
  }

  /** The same, for any per-doctor aggregate. */
  lemma {:induction false} EntriesFacts(ids: seq<int>, agg: int -> Capacity)
    ensures forall x :: x in Entries(ids, agg) ==>
              x.id in ids && x.capacity > 0 && x.next == agg(x.id).best && x.capacity == agg(x.id).total
    ensures forall id :: id in ids && agg(id).total > 0 ==> Ranked(id, agg(id).best, agg(id).total) in Entries(ids, agg)
    ensures Distinct(ids) ==> UniqueIds(Entries(ids, agg))
  {
    if |ids| > 0 {
      var n := |ids| - 1;
      var init := ids[..n];
      var id := ids[n];
      EntriesFacts(init, agg);
      var prev := Entries(init, agg);
      var c := agg(id);
      var tail := if c.total > 0 then [Ranked(id, c.best, c.total)] else [];
      assert Entries(ids, agg) == prev + tail;
      assert forall d :: d in init ==> d in ids;
      assert forall d :: d in ids ==> d in init || d == id;
      if Distinct(ids) {
        assert Distinct(init);
        assert id !in init;
      }
    }
  }

  /** No doctor twice among the entries. */
  predicate UniqueIds(out: seq<Ranked>)
  {
    forall i, j :: 0 <= i < j < |out| ==> out[i].id != out[j].id
  }

  /** `t` lies in row `r` cut to the shift: it begins no earlier than both
      starts, and the 40-minute slot from `t` ends by both ends or before one
      of the busy intervals. */
  predicate InRowRange(day: int, r: BusinessHour, turnoStart: Option<int>, turnoEnd: Option<int>, busy: seq<Span>, t: int)
  {
    turnoStart.Some? && turnoStart.value <= t && ToTs(day, r.start).Some? && ToTs(day, r.start).value <= t
    && ((turnoEnd.Some? && ToTs(day, r.end).Some? && t + SlotSeconds <= turnoEnd.value && t + SlotSeconds <= ToTs(day, r.end).value)
        || InFront(t, SlotSeconds, busy))
  }

  /** Every start a row offers is free and lies in the row's range. */
  lemma RowStartsFacts(day: int, r: BusinessHour, turnoStart: Option<int>, turnoEnd: Option<int>, busy: seq<Span>, t: int)
    requires t in RowStarts(day, r, turnoStart, turnoEnd, busy)
    ensures FreeAt(t, SlotSeconds, busy) && InRowRange(day, r, turnoStart, turnoEnd, busy, t)
  {
    var g := RowRange(day, r, turnoStart, turnoEnd);
    assert !Skipped(g) && RowStarts(day, r, turnoStart, turnoEnd, busy) == RangeStarts(busy, g.s, g.e, SlotSeconds);
    RangeStartsFacts(busy, g.s, g.e, SlotSeconds);
  }

  /** A doctor's `next_available_at` is a start free of the doctor's
      appointments that day, inside the shift and one of the doctor's rows. */
  lemma RankedNextFree(day: int, id: int, rows: seq<BusinessHour>, turnoStart: Option<int>, turnoEnd: Option<int>,
                       apps: seq<Appointment>, clinic: int)
    requires DoctorAggregate(day, id, rows, turnoStart, turnoEnd, apps, clinic).total > 0
    ensures DoctorAggregate(day, id, rows, turnoStart, turnoEnd, apps, clinic).best.Some?
    ensures var t := DoctorAggregate(day, id, rows, turnoStart, turnoEnd, apps, clinic).best.value;
            var busy := DoctorBusy(apps, id, clinic, day);
            FreeAt(t, SlotSeconds, busy)
            && exists r :: r in rows && r.doc == id && InRowRange(day, r, turnoStart, turnoEnd, busy, t)
  {
    var mine := RowsOf(rows, id);
    var busy := DoctorBusy(apps, id, clinic, day);
    AggregateFacts(day, mine, turnoStart, turnoEnd, busy);
    var t := DoctorAggregate(day, id, rows, turnoStart, turnoEnd, apps, clinic).best.value;
    var k :| 0 <= k < |mine| && FirstStart(day, mine[k], turnoStart, turnoEnd, busy) == Some(t);
    var r := mine[k];
    assert r in mine;
    var starts := RowStarts(day, r, turnoStart, turnoEnd, busy);
    assert starts[0] in starts;
    RowStartsFacts(day, r, turnoStart, turnoEnd, busy, t);
  }

  /** The ranking lists each capable doctor with a row that day and capacity
      left in the shift, once, with that doctor's capacity and earliest free
      start, and no one else; it is the candidates reordered, by first free
      start. */
  lemma RankingFacts(day: int, clinic: int, shift: Hours, hours: seq<BusinessHour>, active: set<int>, apps: seq<Appointment>)
    ensures var rows := DayRows(hours, clinic, DowName[Weekday(day)]);
            var ts, te := ToTs(day, shift.start), ToTs(day, shift.end);
            var cands := Candidates(day, ActiveIds(DocOrder(rows), active), rows, ts, te, apps, clinic);
            var out := Ranking(day, clinic, shift, hours, active, apps);
            SortedBy(out, RankKey) && multiset(out) == multiset(cands) && UniqueIds(cands)
            && (forall x :: x in out ==>
                  x.id in active && HasRow(rows, x.id) && x.capacity > 0 && x.next.Some?
                  && x.next == DoctorAggregate(day, x.id, rows, ts, te, apps, clinic).best
                  && x.capacity == DoctorAggregate(day, x.id, rows, ts, te, apps, clinic).total)
            && (forall id :: id in active && HasRow(rows, id) && DoctorAggregate(day, id, rows, ts, te, apps, clinic).total > 0 ==>
                  Ranked(id, DoctorAggregate(day, id, rows, ts, te, apps, clinic).best,
                         DoctorAggregate(day, id, rows, ts, te, apps, clinic).total) in out)
  {
    var rows := DayRows(hours, clinic, DowName[Weekday(day)]);
    var ts, te := ToTs(day, shift.start), ToTs(day, shift.end);
    var ids := ActiveIds(DocOrder(rows), active);
    var cands := Candidates(day, ids, rows, ts, te, apps, clinic);
    var out := Ranking(day, clinic, shift, hours, active, apps);
    assert out == SortBy(cands, RankKey);
    DocOrderFacts(rows);
    CandidatesFacts(day, ids, rows, ts, te, apps, clinic);
    SortBySortedPermutation(cands, RankKey);
    forall x ensures x in out <==> x in cands {
      assert x in out <==> x in multiset(out);
    }
  }

  /** Doctors with the same first free start keep the order of the candidates,
      which is the first-appearance order of `docIds`, as the stable
      `Array.prototype.sort` keeps it. */
  lemma RankingTies(day: int, clinic: int, shift: Hours, hours: seq<BusinessHour>, active: set<int>, apps: seq<Appointment>, k: int)
    ensures var rows := DayRows(hours, clinic, DowName[Weekday(day)]);
            var cands := Candidates(day, ActiveIds(DocOrder(rows), active), rows, ToTs(day, shift.start), ToTs(day, shift.end), apps, clinic);
            WithKey(Ranking(day, clinic, shift, hours, active, apps), RankKey, k) == WithKey(cands, RankKey, k)
  {
    var rows := DayRows(hours, clinic, DowName[Weekday(day)]);
    var cands := Candidates(day, ActiveIds(DocOrder(rows), active), rows, ToTs(day, shift.start), ToTs(day, shift.end), apps, clinic);
    SortByStable(cands, RankKey, k);
  }
}

