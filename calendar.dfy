/** `GET /calendar/days` (how many free slots each day of a range has) and
    `GET /calendar/slots` (the free slots of one date), for one doctor at one
    clinic. Both walk the same grid as `GET /slots`. */
module Calendar {
  import opened Js
  import opened Clock
  import opened Interval
  import opened Records
  import opened Grid
  import opened Slots

  /** The query of `/calendar/days`. `from` is the day number the date string
      denotes, None when it is not a valid date (an absent `from` is today's
      date, which the caller supplies); `days` and `slot` are "" when absent. */
  datatype DaysQuery = DaysQuery(locationId: string, doctorId: string, from: Option<int>, days: string, slot: string)

  /** The query of `/calendar/slots`; `date` as `from` above. */
  datatype DateQuery = DateQuery(locationId: string, doctorId: string, date: Option<int>, slot: string)

  /** One entry of the `/calendar/days` response: `{ date, slots }`. */
  datatype DayCount = DayCount(date: int, slots: nat)

  /** `/^\d+$/` on both ids. */
  predicate IdsValid(locationId: string, doctorId: string)
  {
    IsDigitString(locationId) && IsDigitString(doctorId)
  }

  /** The checked parameters of `/calendar/days`: the ids, the first day, how
      many days the loop visits, and the slot length in minutes (None is NaN). */
  datatype DaysParams = DaysParams(location: nat, doctor: nat, first: int, days: nat, slotMinutes: Option<int>)

  /** The handler's checks, in order: `invalid_ids` when an id is not all
      digits (an absent id is ""), then `invalid_from` when the date is not
      valid. `days` and `slot` are not checked. */
  function ValidateDays(q: DaysQuery): (r: Result<DaysParams>)
    ensures r.Err? <==> !IdsValid(q.locationId, q.doctorId) || q.from.None?
    ensures r.Err? ==> r.error == (if !IdsValid(q.locationId, q.doctorId) then InvalidIds else InvalidFrom)
    ensures r.Ok? ==> r.value.location == DigitsValue(q.locationId) && r.value.doctor == DigitsValue(q.doctorId)
                      && r.value.first == q.from.value && r.value.days == DayIterations(q.days)
                      && r.value.slotMinutes == NumberOr(q.slot, 30)
  {
    if !IdsValid(q.locationId, q.doctorId) then Err(InvalidIds)
    else if q.from.None? then Err(InvalidFrom)
    else Ok(DaysParams(DigitsValue(q.locationId), DigitsValue(q.doctorId), q.from.value, DayIterations(q.days), NumberOr(q.slot, 30)))
  }

  /** How many times `for (let d = 0; d < days; d++)` runs: `days` is not
      validated, and a NaN `days` runs it no time. */
  function DayIterations(days: string): nat
  {
    var n := NumberOr(days, 14);
    if n.Some? && n.value >= 0 then n.value else 0
  }

  /** The entries of `days` consecutive days from `first`: a day is listed, with
      its count, when the count is positive. */
  function Tally(first: int, days: nat, count: int -> nat): seq<DayCount>
  {
    if days == 0 then []
    else
      var day := first + days - 1;
      Tally(first, days - 1, count) + (if count(day) > 0 then [DayCount(day, count(day))] else [])
  }

  lemma TallyNext(first: int, days: nat, count: int -> nat, day: int)
    requires day == first + days
    ensures Tally(first, days + 1, count) == Tally(first, days, count) + (if count(day) > 0 then [DayCount(day, count(day))] else [])
  {
    assert first + (days + 1) - 1 == day;
  }

  /** Dates strictly increase along the list. */
  predicate DatesIncrease(entries: seq<DayCount>)
  {
    forall i, j :: 0 <= i < j < |entries| ==> entries[i].date < entries[j].date
  }

  /** Every entry is a day of the range with its positive count, the dates
      increase, and every day of the range with a positive count is listed. */
  lemma {:induction false} TallyFacts(first: int, days: nat, count: int -> nat)
    ensures forall e :: e in Tally(first, days, count) ==> first <= e.date < first + days && e.slots == count(e.date) && e.slots > 0
    ensures DatesIncrease(Tally(first, days, count))
    ensures forall day :: first <= day < first + days && count(day) > 0 ==> DayCount(day, count(day)) in Tally(first, days, count)
  {
    if days > 0 {
      var day := first + days - 1;
      TallyFacts(first, days - 1, count);
      var prev := Tally(first, days - 1, count);
      var t := Tally(first, days, count);
      if count(day) > 0 {
        assert t == prev + [DayCount(day, count(day))];
        forall i, j | 0 <= i < j < |t| ensures t[i].date < t[j].date {
          assert t[i] == prev[i] && prev[i] in prev;
          if j < |prev| {
            assert t[j] == prev[j];
          }
        }
      } else {
        assert t == prev;
      }
    }
  }

  /** The day-to-count function of a range: the number of free cells the walk
      finds on each day. */
  function CountPerDay(bhs: seq<BusinessHour>, step: int, taken: seq<Span>, blocked: seq<Span>): int -> nat
    requires step > 0
  {
    d => |DaySlots(d, bhs, step, taken, blocked)|
  }

  lemma CountPerDayApply(day: int, bhs: seq<BusinessHour>, step: int, taken: seq<Span>, blocked: seq<Span>)
    requires step > 0
    ensures CountPerDay(bhs, step, taken, blocked)(day) == |DaySlots(day, bhs, step, taken, blocked)|
  {
  }

  /** The response of `/calendar/days`: the validation error, or one entry
      per day of the range with a free slot, counted against what was fetched
      for the range. A NaN slot length makes every walk stop at once, so nothing
      is listed. */
  function CalendarDaysResponse(q: DaysQuery, hours: seq<BusinessHour>, apps: seq<Appointment>, blocks: seq<Block>): (r: Result<seq<DayCount>>)
    requires NumberOr(q.slot, 30) != Some(0)
    ensures r.Err? <==> ValidateDays(q).Err?
    ensures r.Err? ==> r.error == ValidateDays(q).error
    ensures r.Ok? && (NumberOr(q.slot, 30).None? || ValidateDays(q).value.days == 0) ==> r.value == []
  {
    match ValidateDays(q)
    case Err(e) => Err(e)
    case Ok(p) =>
      if p.slotMinutes.None? then Ok([])
      else
        var s, e := WindowStart(p.first), WindowEnd(p.first, p.days);
        Ok(Tally(p.first, p.days, CountPerDay(HoursOf(hours, p.doctor, p.location), p.slotMinutes.value * 60,
                                               TakenIn(apps, p.doctor, p.location, s, e), BlockedIn(blocks, p.doctor, s, e))))
  }

  /** The loop of `getCalendarDays`: for each of `days` days from `first`, the
      number of free cells the walk finds, listed when positive. */
  method CountDays(first: int, days: nat, bhs: seq<BusinessHour>, step: int, taken: seq<Span>, blocked: seq<Span>)
    returns (out: seq<DayCount>)
    requires step > 0
    ensures out == Tally(first, days, CountPerDay(bhs, step, taken, blocked))
  {
    ghost var count := CountPerDay(bhs, step, taken, blocked);
    out := [];
    var d := 0;
    while d < days
      invariant 0 <= d <= days
      invariant out == Tally(first, d, count)
    {
      var day := first + d;
      var todays := TodaysRules(bhs, Weekday(day));
      var c := CountRules(day, todays, step, taken, blocked);
      CountPerDayApply(day, bhs, step, taken, blocked);
      TallyNext(first, d, count, day);
      if c > 0 {
        out := out + [DayCount(day, c)];
      }
      d := d + 1;
    }
  }

  /** An accepted numeric slot length other than 0 is positive. */
  lemma DaysSlotPositive(q: DaysQuery, p: DaysParams)
    requires NumberOr(q.slot, 30) != Some(0)
    requires ValidateDays(q) == Ok(p) && p.slotMinutes.Some?
    ensures p.slotMinutes.value > 0
  {
  }

  /** `getCalendarDays`. The source loops forever when the slot length is 0, so
      that input is excluded. */
  method GetCalendarDays(q: DaysQuery, hours: seq<BusinessHour>, apps: seq<Appointment>, blocks: seq<Block>)
    returns (r: Result<seq<DayCount>>)
    requires NumberOr(q.slot, 30) != Some(0)
    ensures r == CalendarDaysResponse(q, hours, apps, blocks)
  {
    var v := ValidateDays(q);
    if v.Err? {
      return Err(v.error);
    }
    var p := v.value;
    if p.slotMinutes.None? {
      return Ok([]);
    }
    var startTs, endTs := WindowStart(p.first), WindowEnd(p.first, p.days);
    var bhs := HoursOf(hours, p.doctor, p.location);
    var taken := TakenIn(apps, p.doctor, p.location, startTs, endTs);
    var blocked := BlockedIn(blocks, p.doctor, startTs, endTs);
    DaysSlotPositive(q, p);
    var out := CountDays(p.first, p.days, bhs, p.slotMinutes.value * 60, taken, blocked);
    CalendarDaysListed(q, hours, apps, blocks, p);
    return Ok(out);
  }

  /** The checked parameters of `/calendar/slots`. */
  datatype DateParams = DateParams(location: nat, doctor: nat, day: int, slotMinutes: Option<int>)

  /** `invalid_ids`, then `invalid_date`; `slot` is not checked. */
  function ValidateDate(q: DateQuery): (r: Result<DateParams>)
    ensures r.Err? <==> !IdsValid(q.locationId, q.doctorId) || q.date.None?
    ensures r.Err? ==> r.error == (if !IdsValid(q.locationId, q.doctorId) then InvalidIds else InvalidDate)
    ensures r.Ok? ==> r.value.location == DigitsValue(q.locationId) && r.value.doctor == DigitsValue(q.doctorId)
                      && r.value.day == q.date.value && r.value.slotMinutes == NumberOr(q.slot, 30)
  {
    if !IdsValid(q.locationId, q.doctorId) then Err(InvalidIds)
    else if q.date.None? then Err(InvalidDate)
    else Ok(DateParams(DigitsValue(q.locationId), DigitsValue(q.doctorId), q.date.value, NumberOr(q.slot, 30)))
  }

  /** The response of `/calendar/slots`: the validation error, or the free
      slots of the date against what was fetched for that day. */
  function CalendarSlotsResponse(q: DateQuery, hours: seq<BusinessHour>, apps: seq<Appointment>, blocks: seq<Block>): (r: Result<seq<Span>>)
    requires NumberOr(q.slot, 30) != Some(0)
    ensures r.Err? <==> ValidateDate(q).Err?
    ensures r.Err? ==> r.error == ValidateDate(q).error
    ensures r.Ok? && NumberOr(q.slot, 30).None? ==> r.value == []
  {
    match ValidateDate(q)
    case Err(e) => Err(e)
    case Ok(p) =>
      if p.slotMinutes.None? then Ok([])
      else
        var s, e := WindowStart(p.day), WindowEnd(p.day, 1);
        Ok(DaySlots(p.day, HoursOf(hours, p.doctor, p.location), p.slotMinutes.value * 60,
                    TakenIn(apps, p.doctor, p.location, s, e), BlockedIn(blocks, p.doctor, s, e)))
  }

  /** An accepted numeric slot length other than 0 is positive. */
  lemma DateSlotPositive(q: DateQuery, p: DateParams)
    requires NumberOr(q.slot, 30) != Some(0)
    requires ValidateDate(q) == Ok(p) && p.slotMinutes.Some?
    ensures p.slotMinutes.value > 0
  {
  }

  /** `getCalendarSlots`. */
  method GetCalendarSlots(q: DateQuery, hours: seq<BusinessHour>, apps: seq<Appointment>, blocks: seq<Block>)
    returns (r: Result<seq<Span>>)
    requires NumberOr(q.slot, 30) != Some(0)
    ensures r == CalendarSlotsResponse(q, hours, apps, blocks)
  {
    var v := ValidateDate(q);
    if v.Err? {
      return Err(v.error);
    }
    var p := v.value;
    if p.slotMinutes.None? {
      return Ok([]);
    }
    var startTs, endTs := WindowStart(p.day), WindowEnd(p.day, 1);
    var bhs := HoursOf(hours, p.doctor, p.location);
    var taken := TakenIn(apps, p.doctor, p.location, startTs, endTs);
    var blocked := BlockedIn(blocks, p.doctor, startTs, endTs);
    var todays := TodaysRules(bhs, Weekday(p.day));
    DateSlotPositive(q, p);
    var out := WalkRules(p.day, todays, p.slotMinutes.value * 60, taken, blocked);
    CalendarSlotsListed(q, hours, apps, blocks, p);
    return Ok(out);
  }

  /** `/calendar/days` lists, in increasing date order, exactly the days of the
      range that have a free slot, each with its positive count of free slots. */
  lemma CalendarDaysListing(q: DaysQuery, hours: seq<BusinessHour>, apps: seq<Appointment>, blocks: seq<Block>, p: DaysParams)
    requires NumberOr(q.slot, 30) != Some(0)
    requires ValidateDays(q) == Ok(p)
    ensures var out := CalendarDaysResponse(q, hours, apps, blocks).value;
            DatesIncrease(out) && forall e :: e in out ==> p.first <= e.date < p.first + p.days && e.slots > 0
  {
    if p.slotMinutes.Some? {
      assert p.slotMinutes.value > 0 by {
        assert p.slotMinutes == NumberOr(q.slot, 30);
      }
      var s, e := WindowStart(p.first), WindowEnd(p.first, p.days);
      CalendarDaysListed(q, hours, apps, blocks, p);
      TallyFacts(p.first, p.days, CountPerDay(HoursOf(hours, p.doctor, p.location), p.slotMinutes.value * 60,
                                              TakenIn(apps, p.doctor, p.location, s, e), BlockedIn(blocks, p.doctor, s, e)));
    }
  }

  /** What `/calendar/days` lists once the query is accepted with a numeric
      slot length: the tally of the range against the range's fetch. */
  lemma CalendarDaysListed(q: DaysQuery, hours: seq<BusinessHour>, apps: seq<Appointment>, blocks: seq<Block>, p: DaysParams)
    requires NumberOr(q.slot, 30) != Some(0)
    requires ValidateDays(q) == Ok(p) && p.slotMinutes.Some?
    ensures var s, e := WindowStart(p.first), WindowEnd(p.first, p.days);
            CalendarDaysResponse(q, hours, apps, blocks)
            == Ok(Tally(p.first, p.days, CountPerDay(HoursOf(hours, p.doctor, p.location), p.slotMinutes.value * 60,
                                                     TakenIn(apps, p.doctor, p.location, s, e), BlockedIn(blocks, p.doctor, s, e))))
  {
  }

  /** The two calendar endpoints agree: when every business-hour row ends by
      midnight, for any date of the range, `/calendar/slots` with the same ids
      and slot length lists some slots exactly when `/calendar/days` lists the
      date, and it then lists as many as `/calendar/days` counts. */
  lemma CalendarCountMatchesSlots(q: DaysQuery, hours: seq<BusinessHour>, apps: seq<Appointment>, blocks: seq<Block>, p: DaysParams, day: int)
    requires ValidateDays(q) == Ok(p) && p.slotMinutes.Some? && p.slotMinutes.value > 0
    requires p.first <= day < p.first + p.days
    requires forall row :: row in hours ==> RowInDay(row)
    ensures var listed := CalendarSlotsResponse(DateQuery(q.locationId, q.doctorId, Some(day), q.slot), hours, apps, blocks);
            var out := CalendarDaysResponse(q, hours, apps, blocks);
            listed.Ok? && out.Ok?
            && (listed.value != [] <==> DayCount(day, |listed.value|) in out.value)
            && forall e :: e in out.value && e.date == day ==> e.slots == |listed.value|
  {
    var step := p.slotMinutes.value * 60;
    var s, e := WindowStart(p.first), WindowEnd(p.first, p.days);
    var bhs := HoursOf(hours, p.doctor, p.location);
    var tk, bk := TakenIn(apps, p.doctor, p.location, s, e), BlockedIn(blocks, p.doctor, s, e);
    var count := CountPerDay(bhs, step, tk, bk);
    CalendarDaysListed(q, hours, apps, blocks, p);
    TallyFacts(p.first, p.days, count);
    CountPerDayApply(day, bhs, step, tk, bk);
    DaysCover(p.first, p.days, day);
    DaySlotsOfStore(day, bhs, step, apps, blocks, p.doctor, p.location, s, e);
    var dq := DateQuery(q.locationId, q.doctorId, Some(day), q.slot);
    var dp := DateParams(p.location, p.doctor, day, p.slotMinutes);
    assert ValidateDate(dq) == Ok(dp);
    CalendarSlotsListed(dq, hours, apps, blocks, dp);
    DaysCover(day, 1, day);
    DaySlotsOfStore(day, bhs, step, apps, blocks, p.doctor, p.location, WindowStart(day), WindowEnd(day, 1));
    var listed := DaySlots(day, bhs, step, StoreTaken(apps, p.doctor, p.location), StoreBlocked(blocks, p.doctor));
    assert CalendarSlotsResponse(dq, hours, apps, blocks) == Ok(listed);
    assert count(day) == |listed|;
  }

  /** What `/calendar/slots` lists once the query is accepted: the walk of
      the date against the day's fetch. */
  lemma CalendarSlotsListed(q: DateQuery, hours: seq<BusinessHour>, apps: seq<Appointment>, blocks: seq<Block>, p: DateParams)
    requires NumberOr(q.slot, 30) != Some(0)
    requires ValidateDate(q) == Ok(p) && p.slotMinutes.Some?
    ensures var s, e := WindowStart(p.day), WindowEnd(p.day, 1);
            CalendarSlotsResponse(q, hours, apps, blocks)
            == Ok(DaySlots(p.day, HoursOf(hours, p.doctor, p.location), p.slotMinutes.value * 60,
                           TakenIn(apps, p.doctor, p.location, s, e), BlockedIn(blocks, p.doctor, s, e)))
  {
  }

  /** `/calendar/slots` lists exactly the offered slots of the date: grid cells
      of the doctor's rows at the clinic for that weekday, clear of every active
      appointment and block in the store (rows ending by midnight). */
  lemma CalendarSlotsExact(q: DateQuery, hours: seq<BusinessHour>, apps: seq<Appointment>, blocks: seq<Block>, p: DateParams, x: Span)
    requires ValidateDate(q) == Ok(p) && p.slotMinutes.Some? && p.slotMinutes.value > 0
    requires forall row :: row in hours ==> RowInDay(row)
    ensures x in CalendarSlotsResponse(q, hours, apps, blocks).value
            <==> exists row :: row in hours && Offered(x, p.day, row, p.slotMinutes.value * 60, apps, blocks, p.doctor, p.location)
  {
    var step := p.slotMinutes.value * 60;
    var s, e := WindowStart(p.day), WindowEnd(p.day, 1);
    DaysCover(p.day, 1, p.day);
    CalendarSlotsListed(q, hours, apps, blocks, p);
    DaySlotsStoreExact(p.day, hours, step, apps, blocks, p.doctor, p.location, s, e, x);
  }

  /** `getCalendarDays` as written: the validation error; otherwise 500
      `internal_error` when a day of the range has a row for its weekday (the
      loop test throws, see `Grid.ReachesLoopTest`), and `[]` when none has.
      Neither `slot` (NaN and 0 included) nor the fetched rows matter. */
  function CalendarDaysAsWritten(q: DaysQuery, hours: seq<BusinessHour>): Result<seq<DayCount>>
  {
    match ValidateDays(q)
    case Err(e) => Err(e)
    case Ok(p) =>
      if ReachesLoopTest(p.first, p.days, HoursOf(hours, p.doctor, p.location)) then Err(InternalError) else Ok([])
  }

  /** `getCalendarDays` with its loops as written. */
  method GetCalendarDaysAsWritten(q: DaysQuery, hours: seq<BusinessHour>) returns (r: Result<seq<DayCount>>)
    ensures r == CalendarDaysAsWritten(q, hours)
  {
    var v := ValidateDays(q);
    if v.Err? {
      return Err(v.error);
    }
    var p := v.value;
    var bhs := HoursOf(hours, p.doctor, p.location);
    var throws := DaysLoopThrows(p.first, p.days, bhs);
    if throws {
      return Err(InternalError);
    }
    return Ok([]);
  }

  /** Where `/calendar/days` as written departs from the intended count: for
      an accepted query it answers 500 exactly when a day of the range has one
      of the doctor's rows at the clinic for its weekday, and it answers what
      the intended count answers exactly when none has. */
  lemma CalendarDaysAsWrittenDiffers(q: DaysQuery, hours: seq<BusinessHour>, apps: seq<Appointment>, blocks: seq<Block>, p: DaysParams)
    requires NumberOr(q.slot, 30) != Some(0)
    requires ValidateDays(q) == Ok(p)
    ensures CalendarDaysAsWritten(q, hours) == Err(InternalError)
            <==> ReachesLoopTest(p.first, p.days, HoursOf(hours, p.doctor, p.location))
    ensures CalendarDaysAsWritten(q, hours) == CalendarDaysResponse(q, hours, apps, blocks)
            <==> !ReachesLoopTest(p.first, p.days, HoursOf(hours, p.doctor, p.location))
  {
    var bhs := HoursOf(hours, p.doctor, p.location);
    if !ReachesLoopTest(p.first, p.days, bhs) && p.slotMinutes.Some? {
      assert p.slotMinutes.value > 0;
      var step := p.slotMinutes.value * 60;
      var s, e := WindowStart(p.first), WindowEnd(p.first, p.days);
      var tk, bk := TakenIn(apps, p.doctor, p.location, s, e), BlockedIn(blocks, p.doctor, s, e);
      CalendarDaysListed(q, hours, apps, blocks, p);
      TallyUnreached(p.first, p.days, bhs, step, tk, bk);
    }
  }

  /** With no row on any day of the range, every count is 0 and nothing is
      listed. */
  lemma {:induction false} TallyUnreached(first: int, days: nat, bhs: seq<BusinessHour>, step: int, taken: seq<Span>, blocked: seq<Span>)
    requires step > 0 && !ReachesLoopTest(first, days, bhs)
    ensures Tally(first, days, CountPerDay(bhs, step, taken, blocked)) == []
  {
    if days > 0 {
      var day := first + days - 1;
      TallyUnreached(first, days - 1, bhs, step, taken, blocked);
      assert TodaysRules(bhs, Weekday(day)) == [];
      CountPerDayApply(day, bhs, step, taken, blocked);
    }
  }

  /** `getCalendarSlots` as written: the validation error; otherwise 500
      `internal_error` when the date has a row for its weekday, and `[]` when
      it has none. */
  function CalendarSlotsAsWritten(q: DateQuery, hours: seq<BusinessHour>): Result<seq<Span>>
  {
    match ValidateDate(q)
    case Err(e) => Err(e)
    case Ok(p) =>
      if TodaysRules(HoursOf(hours, p.doctor, p.location), Weekday(p.day)) != [] then Err(InternalError) else Ok([])
  }

  /** `getCalendarSlots` with its loop as written. */
  method GetCalendarSlotsAsWritten(q: DateQuery, hours: seq<BusinessHour>) returns (r: Result<seq<Span>>)
    ensures r == CalendarSlotsAsWritten(q, hours)
  {
    var v := ValidateDate(q);
    if v.Err? {
      return Err(v.error);
    }
    var p := v.value;
    var todays := TodaysRules(HoursOf(hours, p.doctor, p.location), Weekday(p.day));
    if |todays| > 0 {
      // the first row of `todays` evaluates the throwing loop test
      return Err(InternalError);
    }
    return Ok([]);
  }

  /** Where `/calendar/slots` as written departs from the intended walk: for
      an accepted query it answers 500 exactly when the date has one of the
      doctor's rows at the clinic for its weekday, and what the intended walk
      answers exactly when it has none. */
  lemma CalendarSlotsAsWrittenDiffers(q: DateQuery, hours: seq<BusinessHour>, apps: seq<Appointment>, blocks: seq<Block>, p: DateParams)
    requires NumberOr(q.slot, 30) != Some(0)
    requires ValidateDate(q) == Ok(p)
    ensures CalendarSlotsAsWritten(q, hours) == Err(InternalError)
            <==> TodaysRules(HoursOf(hours, p.doctor, p.location), Weekday(p.day)) != []
    ensures CalendarSlotsAsWritten(q, hours) == CalendarSlotsResponse(q, hours, apps, blocks)
            <==> TodaysRules(HoursOf(hours, p.doctor, p.location), Weekday(p.day)) == []
  {
    if p.slotMinutes.Some? {
      assert p.slotMinutes.value > 0;
      CalendarSlotsListed(q, hours, apps, blocks, p);
    }
  }

  /** An instance: `/calendar/days?location_id=1&doctor_id=1&from=1970-01-05&days=1`
      (day 4, a Monday) with one "monday" row for that doctor and clinic,
      whatever its hours. As written the handler answers 500, where the
      intended count answers a listing. */
  lemma CalendarDaysAsWrittenMonday(start: string, end: string)
    ensures var hours := [BusinessHour(1, 1, "monday", start, end)];
            var q := DaysQuery("1", "1", Some(4), "1", "");
            NumberOr(q.slot, 30) == Some(30)
            && CalendarDaysAsWritten(q, hours) == Err(InternalError)
            && CalendarDaysResponse(q, hours, [], []).Ok?
  {
    var hours := [BusinessHour(1, 1, "monday", start, end)];
    var q := DaysQuery("1", "1", Some(4), "1", "");
    DigitStringNumber("1");
    assert DigitsValue("1") == 1;
    assert ValidateDays(q) == Ok(DaysParams(1, 1, 4, 1, Some(30)));
    MondayRow(start, end);
    assert ReachesLoopTest(4, 1, HoursOf(hours, 1, 1));
  }

  /** An instance: `/calendar/slots?location_id=1&doctor_id=1&date=1970-01-05`
      with one "monday" row for that doctor and clinic. As written the handler
      answers 500, where the intended walk answers the row's free cells. */
  lemma CalendarSlotsAsWrittenMonday(start: string, end: string)
    ensures var hours := [BusinessHour(1, 1, "monday", start, end)];
            var q := DateQuery("1", "1", Some(4), "");
            NumberOr(q.slot, 30) == Some(30)
            && CalendarSlotsAsWritten(q, hours) == Err(InternalError)
            && CalendarSlotsResponse(q, hours, [], []).Ok?
  {
    var hours := [BusinessHour(1, 1, "monday", start, end)];
    var q := DateQuery("1", "1", Some(4), "");
    DigitStringNumber("1");
    assert DigitsValue("1") == 1;
    assert ValidateDate(q) == Ok(DateParams(1, 1, 4, Some(30)));
    MondayRow(start, end);
  }
}
