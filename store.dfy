/** The appointment table as the handlers of the appointments controller see
    it: `addAppointment` appends a row, `deleteAppointment` and
    `cancelByPhone` set a row's `active` to 0. */
module Store {
  import opened Js
  import opened Clock
  import opened Interval
  import opened Records
  import opened Scan
  import opened Schedule
  import opened Booking
  import opened Cancel

  /** The shift mode of `addAppointment` up to the chosen slot, step by step:
      the clinic's shift, the doctor's rows that weekday, the loop that cuts
      them to the shift, the day's busy list and the loop over the ranges. */
  method ShiftModeSlot(b: BookingBody, day: Option<int>, meta: ClinicMeta, hours: seq<BusinessHour>, store: seq<Appointment>)
    returns (r: Result<Span>)
    ensures r == ShiftSlot(b, day, meta, hours, store)
  {
    var turnoStr := ShiftText(meta, b.shift);
    if !OpenOn(meta, day) || turnoStr == "" {
      return Err(TurnClosed);
    }
    var d := day.value;
    var parts := Split(turnoStr, '-');
    if |parts| < 2 {
      return Err(InternalError);
    }
    var turnoStart := ToTs(d, parts[0]);
    var turnoEnd := ToTs(d, parts[1]);
    assert ShiftBounds(d, turnoStr) == Some((turnoStart, turnoEnd));
    var doc := ToNumber(b.doc);
    var cli := ToNumber(b.cli);
    var bhRows := DoctorRows(hours, doc, cli, DowName[Weekday(d)]);
    r := DoctorModeSlot(d, bhRows, turnoStart, turnoEnd, store, doc, cli);
  }

  /** The shift mode once the shift is known: the doctor's rows, the loop that
      cuts them to the shift, the day's busy list and the loop over the
      ranges. */
  method DoctorModeSlot(d: int, bhRows: seq<BusinessHour>, turnoStart: Option<int>, turnoEnd: Option<int>,
                        store: seq<Appointment>, doc: Option<int>, cli: Option<int>) returns (r: Result<Span>)
    requires forall x :: x in bhRows ==> doc == Some(x.doc) && cli == Some(x.clin)
    ensures r == DoctorSlot(d, bhRows, turnoStart, turnoEnd, store, doc, cli)
  {
    if bhRows == [] {
      return Err(DoctorNotInTurn);
    }
    var overlaps := KeepRanges(d, bhRows, turnoStart, turnoEnd);
    if overlaps == [] {
      return Err(NoOverlap);
    }
    assert bhRows[0] in bhRows;
    var busy := DayBusy(store, doc.value, cli.value, d);
    var chosen := PickSlot(busy, overlaps);
    r := SlotAt(chosen);
  }

  class AppointmentStore {
    /** The rows of the appointment table, in insertion order. */
    var rows: seq<Appointment>

    /** The active appointments of each doctor at each clinic do not overlap
        and no two rows share an ID. */
    ghost predicate Valid()
      reads this
    {
      Disjoint(rows) && DistinctIds(rows)
    }

    constructor (initial: seq<Appointment>)
      ensures rows == initial
    {
      rows := initial;
    }

    /** An empty table, where both invariants hold from the start. */
    constructor Empty()
      ensures rows == [] && Valid()
    {
      rows := [];
    }

    /** `addAppointment`: in shift mode the first free 40-minute slot of the
        shift, otherwise the body's own times; then the overlap re-check and
        the insert. The table gains exactly the planned record, or nothing. */
    method AddAppointment(b: BookingBody, day: Option<int>, meta: ClinicMeta, hours: seq<BusinessHour>)
      returns (r: Result<Created>)
      modifies this
      ensures r == BookingResponse(b, day, meta, hours, old(rows))
      ensures var p := Plan(b, day, meta, hours, old(rows));
              rows == if p.Ok? then old(rows) + [p.value] else old(rows)
      ensures old(Valid()) ==> Valid()
    {
      var slot: Result<Span>;
      if ShiftMode(b) {
        slot := ShiftModeSlot(b, day, meta, hours, rows);
      } else {
        slot := DirectTimes(b);
      }
      if slot.Err? {
        return Err(slot.error);
      }
      var rec := Insertion(b, slot.value, ToNumber(b.doc).value, ToNumber(b.cli).value, rows);
      if rec.Err? {
        return Err(rec.error);
      }
      PlanKeepsInvariants(b, day, meta, hours, rows);
      rows := rows + [rec.value];
      r := Ok(Created(rec.value.id, rec.value.startTs, rec.value.endTs));
    }

    /** `deleteAppointment`: `not_found` when no row has the ID, otherwise that
        row is soft-deleted. */
    method DeleteAppointment(id: JsValue) returns (r: Result<int>)
      modifies this
      ensures r == DeletePlan(id, old(rows))
      ensures rows == if r.Ok? then Deactivate(old(rows), r.value) else old(rows)
      ensures old(Valid()) ==> Valid()
    {
      r := DeletePlan(id, rows);
      if r.Ok? {
        DeactivateFacts(rows, r.value);
        rows := Deactivate(rows, r.value);
      }
    }

    /** `cancelByPhone`: the checks of the body, the patient lookups by phone
        number, and the soft delete of the patient's active appointment. */
    method CancelByPhone(phone: JsValue, appointmentId: JsValue, users: seq<UserMeta>) returns (r: Result<int>)
      modifies this
      ensures r == CancelPlan(phone, appointmentId, users, old(rows))
      ensures rows == if r.Ok? then Deactivate(old(rows), r.value) else old(rows)
      ensures old(Valid()) ==> Valid()
    {
      if !Truthy(phone) || !Truthy(appointmentId) {
        return Err(MissingFields);
      }
      var p := Normalized(phone);
      if |p| < 6 || |p| > 20 {
        return Err(InvalidPhone);
      }
      var userMeta := LookupPatient(users, p);
      if userMeta.None? {
        return Err(PatientNotFound);
      }
      var pat := userMeta.value.userId;
      var id := ToNumber(appointmentId);
      if HasAppointment(rows, id, pat, 1) {
        r := Ok(id.value);
      } else if HasAppointment(rows, id, pat, 0) {
        r := Err(AppointmentAlreadyCancelled);
      } else if HasId(rows, id) {
        r := Err(AppointmentNotYours);
      } else {
        r := Err(AppointmentNotFound);
      }
      if r.Ok? {
        DeactivateFacts(rows, r.value);
        rows := Deactivate(rows, r.value);
      }
    }
  }
}
