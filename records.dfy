/** The rows the engine reads and writes (the columns of `appointments`,
    `blocks`, `businesshours`, the clinic settings and the users' mobile
    numbers), the error codes the controllers answer with, and the Sequelize
    `where` clauses as filters over rows. */
module Records {
  import opened Js
  import opened Interval

  /** A row of `appointments`. `active` is 1 for a live booking and 0 once it is
      cancelled; the text columns (`clin`, `docn`, `patn`, `treatn`), `price`
      and `app_datetime` are not part of this model. */
  datatype Appointment = Appointment(
    id: int, appid: int, startTs: int, endTs: int,
    cli: int, doc: int, treat: int, pat: int,
    paid: int, active: int, parent: int)

  /** A row of `blocks` (a doctor's time off). */
  datatype Block = Block(doc: int, startTs: int, endTs: int, active: int)

  /** A row of `businesshours`: a doctor's weekly range at a clinic, with the
      weekday as text and the times as "HH:MM" text. */
  datatype BusinessHour = BusinessHour(doc: int, clin: int, day: string, start: string, end: string)

  /** The clinic settings `cn_open_days`, `cn_am_hours` and `cn_pm_hours`, with ""
      where a setting is missing (`M[key] || ''`). */
  datatype ClinicMeta = ClinicMeta(openDays: string, amHours: string, pmHours: string)

  /** A row of `wp_usermeta`. */
  datatype UserMeta = UserMeta(userId: int, key: string, value: string)

  /** The `error` field of the controllers' 4xx/5xx answers. */
  datatype ApiError =
    | MissingParams | InvalidIds | InvalidDays | InvalidSlot | InvalidFrom | InvalidDate
    | InvalidClinicId | InvalidShift
    | TurnClosed | DoctorNotInTurn | NoOverlap | NoFreeSlot | Overlap
    | MissingFields | InvalidTimes | InvalidPrice | DurationExceeds40m
    | NotFound | InvalidPhone | PatientNotFound
    | AppointmentAlreadyCancelled | AppointmentNotYours | AppointmentNotFound
    | InternalError

  datatype Result<+T> = Ok(value: T) | Err(error: ApiError)

  /** The window condition the slot and calendar queries put on blocks and
      appointments: start in [S, E], or end in [S, E], or the row spans the window. */
  predicate InWindow(start: int, end: int, windowStart: int, windowEnd: int)
  {
    (windowStart <= start <= windowEnd) || (windowStart <= end <= windowEnd)
    || (start <= windowStart && end >= windowEnd)
  }

  /** A row the window condition drops cannot overlap an interval that lies
      inside the window: the query loses no obstacle for such a slot. */
  lemma WindowKeepsOverlapping(start: int, end: int, s: int, e: int, windowStart: int, windowEnd: int)
    requires windowStart <= s && e <= windowEnd
    requires Overlaps(s, e, start, end)
    ensures InWindow(start, end, windowStart, windowEnd)
  {
  }

  /** An active appointment of the doctor at the clinic. */
  predicate LiveAt(a: Appointment, doc: int, cli: int)
  {
    a.doc == doc && a.cli == cli && a.active == 1
  }

  /** `Appointment.findAll({ doc, cli, active: 1, <window> })`, in store order. */
  function WindowApps(apps: seq<Appointment>, doc: int, cli: int, windowStart: int, windowEnd: int): (r: seq<Appointment>)
    ensures forall a :: a in r <==> a in apps && LiveAt(a, doc, cli) && InWindow(a.startTs, a.endTs, windowStart, windowEnd)
  {
    if |apps| == 0 then []
    else
      var a := apps[0];
      (if LiveAt(a, doc, cli) && InWindow(a.startTs, a.endTs, windowStart, windowEnd) then [a] else [])
      + WindowApps(apps[1..], doc, cli, windowStart, windowEnd)
  }

  /** The `taken` list of the slot and calendar controllers. */
  function TakenIn(apps: seq<Appointment>, doc: int, cli: int, windowStart: int, windowEnd: int): seq<Span>
  {
    Spans(WindowApps(apps, doc, cli, windowStart, windowEnd), AppSpan)
  }

  /** An active block of the doctor. */
  predicate BlocksDoctor(b: Block, doc: int)
  {
    b.doc == doc && b.active == 1
  }

  /** `Block.findAll({ doc, active: 1, <window> })`, in store order. */
  function WindowBlocks(blocks: seq<Block>, doc: int, windowStart: int, windowEnd: int): (r: seq<Block>)
    ensures forall b :: b in r <==> b in blocks && BlocksDoctor(b, doc) && InWindow(b.startTs, b.endTs, windowStart, windowEnd)
  {
    if |blocks| == 0 then []
    else
      var b := blocks[0];
      (if BlocksDoctor(b, doc) && InWindow(b.startTs, b.endTs, windowStart, windowEnd) then [b] else [])
      + WindowBlocks(blocks[1..], doc, windowStart, windowEnd)
  }

  /** `rows.map(r => [Number(r.start_ts), Number(r.end_ts)])`, the `taken`,
      `blocked` and `busy` lists of the controllers. */
  function Spans<T>(rows: seq<T>, span: T -> Span): (r: seq<Span>)
    ensures |r| == |rows|
    ensures forall i :: 0 <= i < |rows| ==> r[i] == span(rows[i])
  {
    if |rows| == 0 then [] else [span(rows[0])] + Spans(rows[1..], span)
  }

  function AppSpan(a: Appointment): Span { Span(a.startTs, a.endTs) }

  function BlockSpan(b: Block): Span { Span(b.startTs, b.endTs) }

  /** The `blocked` list of the slot and calendar controllers. */
  function BlockedIn(blocks: seq<Block>, doc: int, windowStart: int, windowEnd: int): seq<Span>
  {
    Spans(WindowBlocks(blocks, doc, windowStart, windowEnd), BlockSpan)
  }

  /** For a slot inside the query window, clashing with the fetched appointments
      is the same as clashing with some active appointment of that doctor at that
      clinic anywhere in the store. */
  lemma TakenInClashes(apps: seq<Appointment>, doc: int, cli: int, windowStart: int, windowEnd: int, s: int, e: int)
    requires windowStart <= s && e <= windowEnd
    ensures Clashes(s, e, TakenIn(apps, doc, cli, windowStart, windowEnd))
            <==> exists a :: a in apps && LiveAt(a, doc, cli) && Overlaps(s, e, a.startTs, a.endTs)
  {
    var w := WindowApps(apps, doc, cli, windowStart, windowEnd);
    var r := TakenIn(apps, doc, cli, windowStart, windowEnd);
    if Clashes(s, e, r) {
      var k :| 0 <= k < |r| && Overlaps(s, e, r[k].start, r[k].end);
      assert w[k] in apps && LiveAt(w[k], doc, cli) && Overlaps(s, e, w[k].startTs, w[k].endTs);
    }
    if exists a :: a in apps && LiveAt(a, doc, cli) && Overlaps(s, e, a.startTs, a.endTs) {
      var a :| a in apps && LiveAt(a, doc, cli) && Overlaps(s, e, a.startTs, a.endTs);
      WindowKeepsOverlapping(a.startTs, a.endTs, s, e, windowStart, windowEnd);
      var k :| 0 <= k < |w| && w[k] == a;
      assert Overlaps(s, e, r[k].start, r[k].end);
    }
  }

  /** The same for blocks: inside the window, clashing with the fetched blocks is
      clashing with some active block of the doctor in the store. */
  lemma BlockedInClashes(blocks: seq<Block>, doc: int, windowStart: int, windowEnd: int, s: int, e: int)
    requires windowStart <= s && e <= windowEnd
    ensures Clashes(s, e, BlockedIn(blocks, doc, windowStart, windowEnd))
            <==> exists b :: b in blocks && BlocksDoctor(b, doc) && Overlaps(s, e, b.startTs, b.endTs)
  {
    var w := WindowBlocks(blocks, doc, windowStart, windowEnd);
    var r := BlockedIn(blocks, doc, windowStart, windowEnd);
    if Clashes(s, e, r) {
      var k :| 0 <= k < |r| && Overlaps(s, e, r[k].start, r[k].end);
      assert w[k] in blocks && BlocksDoctor(w[k], doc) && Overlaps(s, e, w[k].startTs, w[k].endTs);
    }
    if exists b :: b in blocks && BlocksDoctor(b, doc) && Overlaps(s, e, b.startTs, b.endTs) {
      var b :| b in blocks && BlocksDoctor(b, doc) && Overlaps(s, e, b.startTs, b.endTs);
      WindowKeepsOverlapping(b.startTs, b.endTs, s, e, windowStart, windowEnd);
      var k :| 0 <= k < |w| && w[k] == b;
      assert Overlaps(s, e, r[k].start, r[k].end);
    }
  }

  /** `BusinessHour.findAll({ doc, clin })`, in store order. */
  function HoursOf(hours: seq<BusinessHour>, doc: int, clin: int): (r: seq<BusinessHour>)
    ensures forall x :: x in r <==> x in hours && x.doc == doc && x.clin == clin
  {
    if |hours| == 0 then []
    else (if hours[0].doc == doc && hours[0].clin == clin then [hours[0]] else []) + HoursOf(hours[1..], doc, clin)
  }

  /** The appointments of one doctor at one clinic that a day's query returns:
      `{ doc, cli, active: 1, start_ts < dayEnd, end_ts > dayStart }`, in store order. */
  function DayApps(apps: seq<Appointment>, doc: int, cli: int, dayStart: int): (r: seq<Appointment>)
    ensures forall a :: a in r <==> a in apps && LiveAt(a, doc, cli) && a.startTs < dayStart + 86400 && a.endTs > dayStart
  {
    if |apps| == 0 then []
    else
      var a := apps[0];
      (if LiveAt(a, doc, cli) && a.startTs < dayStart + 86400 && a.endTs > dayStart then [a] else [])
      + DayApps(apps[1..], doc, cli, dayStart)
  }
}
