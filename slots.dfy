/** `GET /slots?location_id&doctor_id&days&slot`: the free fixed-grid slots of
    one doctor at one clinic over `days` days starting today (UTC). */
module Slots {
  import opened Js
  import opened Clock
  import opened Interval
  import opened Records
  import opened Grid

  /** The query string. An absent parameter is the empty string: every use
      reads it as `x || default`, which treats both alike. */
  datatype SlotsQuery = SlotsQuery(locationId: string, doctorId: string, days: string, slot: string)

  /** The validated parameters. */
  datatype SlotsParams = SlotsParams(location: nat, doctor: nat, days: nat, slotMinutes: nat)

  /** `Number(x || dflt)`; None is NaN. */
  function NumberOr(x: string, dflt: nat): (n: Option<int>)
    ensures x == "" ==> n == Some(dflt)
    ensures n.Some? ==> n.value >= 0
  {
    if x == "" then Some(dflt) else StrToNumber(x)
  }

  /** `Number.isFinite(n) && lo <= n && n <= hi`. */
  predicate InRange(n: Option<int>, lo: int, hi: int)
  {
    n.Some? && lo <= n.value <= hi
  }

  /** The handler's checks, in order: `missing_params` when an id is empty,
      `invalid_ids` when one is not all digits, `invalid_days` outside 1..60,
      `invalid_slot` outside 10..120 minutes. */
  function ValidateSlots(q: SlotsQuery): (r: Result<SlotsParams>)
    ensures r.Ok? ==> 1 <= r.value.days <= 60 && 10 <= r.value.slotMinutes <= 120
    ensures r.Ok? ==> IsDigitString(q.locationId) && IsDigitString(q.doctorId)
                      && r.value.location == DigitsValue(q.locationId) && r.value.doctor == DigitsValue(q.doctorId)
    ensures r.Ok? <==> q.locationId != "" && q.doctorId != "" && IsDigitString(q.locationId) && IsDigitString(q.doctorId)
                       && InRange(NumberOr(q.days, 14), 1, 60) && InRange(NumberOr(q.slot, 30), 10, 120)
    ensures r.Err? ==> r.error == (if q.locationId == "" || q.doctorId == "" then MissingParams
                                   else if !IsDigitString(q.locationId) || !IsDigitString(q.doctorId) then InvalidIds
                                   else if !InRange(NumberOr(q.days, 14), 1, 60) then InvalidDays
                                   else InvalidSlot)
    ensures r.Ok? ==> r.value.days == NumberOr(q.days, 14).value && r.value.slotMinutes == NumberOr(q.slot, 30).value
  {
    var days := NumberOr(q.days, 14);
    var slot := NumberOr(q.slot, 30);
    if q.locationId == "" || q.doctorId == "" then Err(MissingParams)
    else if !IsDigitString(q.locationId) || !IsDigitString(q.doctorId) then Err(InvalidIds)
    else if !InRange(days, 1, 60) then Err(InvalidDays)
    else if !InRange(slot, 10, 120) then Err(InvalidSlot)
    else Ok(SlotsParams(DigitsValue(q.locationId), DigitsValue(q.doctorId), days.value, slot.value))
  }

  /** Any ids written in decimal, with `days` and `slot` left out, are accepted
      with the defaults of 14 days and 30-minute slots. */
  lemma ValidateSlotsDefaults(location: nat, doctor: nat)
    ensures ValidateSlots(SlotsQuery(DecimalString(location), DecimalString(doctor), "", ""))
            == Ok(SlotsParams(location, doctor, 14, 30))
  {
    DecimalStringRoundTrip(location);
    DecimalStringRoundTrip(doctor);
  }

  /** Parameters written in decimal within the bounds are read back exactly. */
  lemma ValidateSlotsRoundTrip(location: nat, doctor: nat, days: nat, slotMinutes: nat)
    requires 1 <= days <= 60 && 10 <= slotMinutes <= 120
    ensures ValidateSlots(SlotsQuery(DecimalString(location), DecimalString(doctor), DecimalString(days), DecimalString(slotMinutes)))
            == Ok(SlotsParams(location, doctor, days, slotMinutes))
  {
    var q := SlotsQuery(DecimalString(location), DecimalString(doctor), DecimalString(days), DecimalString(slotMinutes));
    DecimalStringRoundTrip(location);
    DecimalStringRoundTrip(doctor);
    DecimalStringRoundTrip(days);
    DecimalStringRoundTrip(slotMinutes);
    DigitStringNumber(q.days);
    DigitStringNumber(q.slot);
    ValidateSlotsAccepts(q, location, doctor, days, slotMinutes);
  }

  /** The accepting case of the checks, for digit-string ids. */
  lemma ValidateSlotsAccepts(q: SlotsQuery, location: nat, doctor: nat, days: nat, slotMinutes: nat)
    requires IsDigitString(q.locationId) && q.locationId != "" && DigitsValue(q.locationId) == location
    requires IsDigitString(q.doctorId) && q.doctorId != "" && DigitsValue(q.doctorId) == doctor
    requires q.days != "" && StrToNumber(q.days) == Some(days) && 1 <= days <= 60
    requires q.slot != "" && StrToNumber(q.slot) == Some(slotMinutes) && 10 <= slotMinutes <= 120
    ensures ValidateSlots(q) == Ok(SlotsParams(location, doctor, days, slotMinutes))
  {
  }

  /** The window the handler fetches: today's midnight to `days` days later. */
  function WindowStart(today: int): int { DayStart(today) }

  function WindowEnd(today: int, days: nat): int { DayStart(today + days) }

  /** The response: the validation error, or the slots of `days` days from
      today, day after day, row after row within a day, in walk order within a
      row, against the appointments and blocks fetched for the window. */
  function SlotsResponse(q: SlotsQuery, today: int, hours: seq<BusinessHour>, apps: seq<Appointment>, blocks: seq<Block>): Result<seq<Span>>
  {
    match ValidateSlots(q)
    case Err(e) => Err(e)
    case Ok(p) =>
      var s, e := WindowStart(today), WindowEnd(today, p.days);
      Ok(WindowSlots(today, p.days, HoursOf(hours, p.doctor, p.location), p.slotMinutes * 60,
                     TakenIn(apps, p.doctor, p.location, s, e), BlockedIn(blocks, p.doctor, s, e)))
  }

  /** `getSlots`, with the store's rows and today's day number as inputs. */
  method GetSlots(q: SlotsQuery, today: int, hours: seq<BusinessHour>, apps: seq<Appointment>, blocks: seq<Block>)
    returns (r: Result<seq<Span>>)
    ensures r == SlotsResponse(q, today, hours, apps, blocks)
  {
    var v := ValidateSlots(q);
    if v.Err? {
      return Err(v.error);
    }
    var p := v.value;
    var bhs := HoursOf(hours, p.doctor, p.location);
    var startTs, endTs := WindowStart(today), WindowEnd(today, p.days);
    var taken := TakenIn(apps, p.doctor, p.location, startTs, endTs);
    var blocked := BlockedIn(blocks, p.doctor, startTs, endTs);
    var step := p.slotMinutes * 60;
    var out := WalkDays(today, p.days, bhs, step, taken, blocked);
    assert SlotsResponse(q, today, hours, apps, blocks) == Ok(WindowSlots(today, p.days, bhs, step, taken, blocked));
    return Ok(out);
  }

  /** The handler's loop over the days of the window, each day walking the
      rows for its weekday. */
  method WalkDays(today: int, days: nat, bhs: seq<BusinessHour>, step: int, taken: seq<Span>, blocked: seq<Span>)
    returns (out: seq<Span>)
    requires step > 0
    ensures out == WindowSlots(today, days, bhs, step, taken, blocked)
  {
    out := [];
    ghost var perDay := PerDay(bhs, step, taken, blocked);
    var d := 0;
    while d < days
      invariant 0 <= d <= days
      invariant out == Concat(today, d, perDay)
    {
      var day := today + d;
      var todays := TodaysRules(bhs, Weekday(day));
      var cells := WalkRules(day, todays, step, taken, blocked);
      PerDayApply(day, bhs, step, taken, blocked);
      ConcatNext(today, d, perDay, day);
      out := out + cells;
      d := d + 1;
    }
  }

  /** What the endpoint lists is exactly what it should offer: when every
      business-hour row ends by midnight, a slot is listed iff it is a grid cell
      of one of the doctor's rows at the clinic on one of the `days` days, clear
      of every active appointment of the doctor at the clinic and of every active
      block of the doctor in the whole store (the window fetch loses nothing). */
  lemma SlotsExact(q: SlotsQuery, today: int, hours: seq<BusinessHour>, apps: seq<Appointment>, blocks: seq<Block>, x: Span)
    requires ValidateSlots(q).Ok?
    requires forall row :: row in hours ==> RowInDay(row)
    ensures var p := ValidateSlots(q).value;
            x in SlotsResponse(q, today, hours, apps, blocks).value
            <==> exists day, row :: today <= day < today + p.days && row in hours
                   && Offered(x, day, row, p.slotMinutes * 60, apps, blocks, p.doctor, p.location)
  {
    var p := ValidateSlots(q).value;
    var step := p.slotMinutes * 60;
    var s, e := WindowStart(today), WindowEnd(today, p.days);
    var bhs := HoursOf(hours, p.doctor, p.location);
    var tk, bk := TakenIn(apps, p.doctor, p.location, s, e), BlockedIn(blocks, p.doctor, s, e);
    if x in WindowSlots(today, p.days, bhs, step, tk, bk) {
      WindowSlotsSound(today, p.days, bhs, step, tk, bk, x);
      var day :| today <= day < today + p.days && x in DaySlots(day, bhs, step, tk, bk);
      DaysCover(today, p.days, day);
      DaySlotsStoreSound(day, hours, step, apps, blocks, p.doctor, p.location, s, e, x);
    }
    if exists day, row :: today <= day < today + p.days && row in hours
         && Offered(x, day, row, step, apps, blocks, p.doctor, p.location) {
      var day, row :| today <= day < today + p.days && row in hours
                      && Offered(x, day, row, step, apps, blocks, p.doctor, p.location);
      DaysCover(today, p.days, day);
      DaySlotsStoreComplete(day, hours, step, apps, blocks, p.doctor, p.location, s, e, row, x);
      WindowSlotsComplete(today, p.days, bhs, step, tk, bk, day, x);
    }
  }

  /** `getSlots` as written: the validation error; otherwise 500
      `internal_error` when a day of the window has a row for its weekday
      (the loop test throws, see `Grid.ReachesLoopTest`), and `[]` when none
      has. The appointments and blocks are fetched but never read. */
  function SlotsResponseAsWritten(q: SlotsQuery, today: int, hours: seq<BusinessHour>): Result<seq<Span>>
  {
    match ValidateSlots(q)
    case Err(e) => Err(e)
    case Ok(p) =>
      if ReachesLoopTest(today, p.days, HoursOf(hours, p.doctor, p.location)) then Err(InternalError) else Ok([])
  }

  /** `getSlots` with its loops as written. */
  method GetSlotsAsWritten(q: SlotsQuery, today: int, hours: seq<BusinessHour>) returns (r: Result<seq<Span>>)
    ensures r == SlotsResponseAsWritten(q, today, hours)
  {
    var v := ValidateSlots(q);
    if v.Err? {
      return Err(v.error);
    }
    var p := v.value;
    var bhs := HoursOf(hours, p.doctor, p.location);
    var throws := DaysLoopThrows(today, p.days, bhs);
    if throws {
      return Err(InternalError);
    }
    return Ok([]);
  }

  /** Where the handler as written departs from the walk it is meant to do:
      for an accepted query it answers 500 exactly when a day of the window
      has one of the doctor's rows at the clinic for its weekday, and it
      answers what the intended walk answers exactly when none has. */
  lemma SlotsAsWrittenDiffers(q: SlotsQuery, today: int, hours: seq<BusinessHour>, apps: seq<Appointment>, blocks: seq<Block>, p: SlotsParams)
    requires ValidateSlots(q) == Ok(p)
    ensures SlotsResponseAsWritten(q, today, hours) == Err(InternalError)
            <==> ReachesLoopTest(today, p.days, HoursOf(hours, p.doctor, p.location))
    ensures SlotsResponseAsWritten(q, today, hours) == SlotsResponse(q, today, hours, apps, blocks)
            <==> !ReachesLoopTest(today, p.days, HoursOf(hours, p.doctor, p.location))
  {
    var bhs := HoursOf(hours, p.doctor, p.location);
    var s, e := WindowStart(today), WindowEnd(today, p.days);
    if !ReachesLoopTest(today, p.days, bhs) {
      WindowSlotsUnreached(today, p.days, bhs, p.slotMinutes * 60,
                           TakenIn(apps, p.doctor, p.location, s, e), BlockedIn(blocks, p.doctor, s, e));
    }
  }

  /** An instance: `/slots?location_id=1&doctor_id=1&days=1` on Monday
      1970-01-05 (day 4), with one "monday" row for that doctor and clinic,
      whatever its hours. The handler as written answers 500, where the
      intended walk answers the list of that row's free cells. */
  lemma SlotsAsWrittenMonday(start: string, end: string)
    ensures var hours := [BusinessHour(1, 1, "monday", start, end)];
            var q := SlotsQuery("1", "1", "1", "");
            SlotsResponseAsWritten(q, 4, hours) == Err(InternalError)
            && SlotsResponse(q, 4, hours, [], []).Ok?
  {
    var hours := [BusinessHour(1, 1, "monday", start, end)];
    MondayQuery();
    MondayRow(start, end);
    assert ReachesLoopTest(4, 1, HoursOf(hours, 1, 1));
  }

  lemma MondayQuery()
    ensures ValidateSlots(SlotsQuery("1", "1", "1", "")) == Ok(SlotsParams(1, 1, 1, 30))
  {
    DigitStringNumber("1");
    assert DigitsValue("1") == 1;
  }

  /** A "monday" row of doctor 1 at clinic 1 is that doctor's row on day 4. */
  lemma MondayRow(start: string, end: string)
    ensures var hours := [BusinessHour(1, 1, "monday", start, end)];
            HoursOf(hours, 1, 1) == hours && TodaysRules(hours, Weekday(4)) == hours
  {
    var row := BusinessHour(1, 1, "monday", start, end);
    var hours := [row];
    assert RuleWeekday(row.day) == Some(1) by {
      RuleWeekdayOfName("monday");
    }
    assert Weekday(4) == 1 by { assert 4 + 4 == 7 * 1 + 1; }
    assert hours[0] == row && hours[1..] == [];
    assert TodaysRules(hours, 1) == [row] + TodaysRules([], 1);
  }
}
