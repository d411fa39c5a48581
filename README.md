# Clinic scheduling, availability and booking — a Dafny model

This project models the core of a clinic back end written for Express and
Sequelize. That core has four controllers.

- `GET /slots` (slotsController) lists a doctor's free fixed-grid slots at one
  clinic over the next `days` days. It walks each business-hour row of each day
  in steps of `slot` minutes and skips every cell that overlaps an active
  appointment or an active block.
- `GET /calendar/days` and `GET /calendar/slots` (calendarController) run the
  same walk. The first counts the free cells of every day of a range, and the
  second lists the free cells of one date.
- As written, all three grid walks throw on their first loop test: the test
  calls `isSameOrBefore`, a dayjs plugin that is never registered. The model
  keeps both halves: the walk as evidently intended, which the rest of the
  model uses and whose properties are proved, and the handlers as written,
  which answer 500 whenever the walk would start. See "## Findings".
- `GET /schedules` and `GET /doctors/available` (scheduleController) work from
  the clinic's open days and AM/PM shift hours.
  - The first lists the open days of the next `days` days with their shifts.
  - The second ranks the doctors who work during one shift. A doctor's rank
    comes from their first free 40-minute start (`nextSlotAndCapacity`), and
    the doctor's capacity is the number of such starts.
- `POST /appointments`, `DELETE /appointments/:id` and cancel-by-phone
  (appointmentsController) change the appointment table.
  - A booking in shift mode takes the first free 40-minute slot of the first
    cut of the doctor's rows to the shift (`findSlot`). In direct mode it
    takes the body's own times.
  - Both modes re-check overlap, then insert a record with
    `ID = max(ID) + 1`.
  - Delete and cancel soft-delete a row by setting `active` to 0.

The model uses these conventions:

- Days are integer day numbers counted from the Unix epoch.
  - A day starts at `day * 86400`.
  - Its weekday is `(day + 4) % 7`.
  - A date string is represented by the day number it denotes, or by `None`
    when it is not a valid date.
- The database tables are sequences of rows. Every Sequelize `where` clause is
  a filter over those rows.
- JavaScript's `Number(...)` on a request value is an `Option<int>`, where
  `None` stands for NaN. `if (v)` and `v || d` use JavaScript truthiness.

The model has three layers:

- Each handler is a pure response function.
- Each handler is also an imperative method with the source's loops. Each
  method is proved equal to its response function.
- Lemmas state what the responses promise.

The appointment table itself is the class `Store.AppointmentStore`. Its three
handlers keep two invariants: active appointments of one doctor at one clinic
do not overlap, and IDs are distinct.

Modules, one per file:

| file | module | contents |
|---|---|---|
| js.dfy | `Js` | JavaScript value conversions |
| clock.dfy | `Clock` | day numbers, `parseHHMM`, `toTs`, `parseHours`, open days |
| interval.dfy | `Interval` | the half-open `overlaps` test |
| sorting.dfy | `Sorting` | the stable sort by a numeric key |
| records.dfy | `Records` | rows, error codes, query filters |
| grid.dfy | `Grid` | the fixed-grid walk |
| slots.dfy | `Slots` | `/slots` |
| calendar.dfy | `Calendar` | `/calendar/*` |
| scan.dfy | `Scan` | `findSlot` and `nextSlotAndCapacity` |
| schedule.dfy | `Schedule` | `/schedules` and `/doctors/available` |
| booking.dfy | `Booking` | the booking plan |
| cancel.dfy | `Cancel` | delete and cancel-by-phone plans |
| store.dfy | `Store` | the appointment table and its handlers |

## Model

| member | source | states |
|---|---|---|
| Js.StrToNumber | src/controllers/slotsController.js:31-32 | `Number(s)` of a string is never negative in the model, and a blank string reads as 0 |
| Js.DigitStringNumber | src/controllers/slotsController.js:37 | a string that passes `/^\d+$/` reads back through `Number` as its decimal value |
| Js.Trim | src/controllers/scheduleController.js:15 | `trim` removes exactly the leading and trailing whitespace and keeps the middle unchanged |
| Js.KeepDigits | src/controllers/appointmentsController.js:221 | the phone filter keeps only digits and never lengthens the text |
| Js.KeepDigitsCounts | src/controllers/appointmentsController.js:221 | every digit of the text is kept as often as it occurs, and no other character |
| Js.KeepDigitsAppend | src/controllers/appointmentsController.js:221 | filtering a concatenation is the concatenation of the filtered parts, so the digits keep their order |
| Js.KeepDigitsOfDigits | src/controllers/appointmentsController.js:221 | text made only of digits passes unchanged |
| Js.ToLowerAscii | src/controllers/slotsController.js:95 | lower-casing maps 'A'..'Z' to 'a'..'z' and keeps every other character |
| Js.SplitJoin | src/controllers/scheduleController.js:13 | `split` cuts the text into pieces that contain no separator and that join back to the text |
| Js.NotNumeric | src/controllers/slotsController.js:19-20 | text holding a character that is neither a digit nor whitespace reads as NaN |
| Clock.DayMap | src/controllers/slotsController.js:8-16 | the `dayMap` lookup gives a weekday exactly for the seven lower-case day names, and that weekday's name is the key |
| Clock.RuleWeekdayOfName | src/controllers/slotsController.js:95 | a row whose day is a day name is selected on that weekday |
| Clock.ParseHHMMOfDigits | src/controllers/slotsController.js:18-21 | `parseHHMM("H:M")` with digit fields reads back H and M |
| Clock.ParseHHMMHourOnly | src/controllers/slotsController.js:18-21 | a bare hour with no ':' reads as that hour with minute 0 |
| Clock.ParseHHMMNonNumeric | src/controllers/slotsController.js:18-21 | in "H:M", a field holding a character that is neither a digit nor whitespace reads as 0 |
| Clock.ClockSecondOfFields | src/controllers/calendarController.js:9 | wherever `toTs` is defined, the grid walk's start from `parseHHMM` is the second `toTs` gives |
| Clock.ClockSecondOfHour | src/controllers/calendarController.js:9 | where they part: a bare hour is NaN for `toTs` but hour and minute 0 for `parseHHMM` |
| Clock.ToTs | src/controllers/scheduleController.js:18-22 | `toTs` is defined (not NaN) exactly when both fields are numeric, and it is then midnight + 3600·H + 60·M |
| Clock.ToTsOfDigits | src/controllers/scheduleController.js:18-22 | "HH:MM" with digit fields gives midnight + 3600·HH + 60·MM |
| Clock.ToTsOfFields | src/controllers/scheduleController.js:18-22 | any text that splits on ':' into two digit fields gives midnight + 3600·H + 60·M |
| Clock.ToTsMonotone | src/controllers/scheduleController.js:18-22 | `toTs` is monotone in (H, M) |
| Clock.SplitTwo | src/controllers/scheduleController.js:13 | "a-b" with no separator inside a or b splits into exactly [a, b] |
| Clock.ParseHours | src/controllers/scheduleController.js:11-16 | `parseHours` is null exactly when the text is empty or either side of '-' is missing, otherwise it is the trimmed start and end |
| Clock.OpenDays | src/controllers/scheduleController.js:37 | the open-days list holds only non-empty entries that contain no comma |
| Clock.TrimmedNonEmpty | src/controllers/scheduleController.js:37 | trimming and dropping empty entries leaves non-empty comma-free entries, no more than there were |
| Clock.TrimmedNonEmptyMembers | src/controllers/scheduleController.js:37 | the filtered list holds exactly the non-empty trimmed pieces |
| Clock.OpenDaysMembers | src/controllers/scheduleController.js:37 | a name is an open day exactly when it is non-empty and some comma-separated entry of the setting trims to it |
| Interval.OverlapsSymmetric | src/controllers/slotsController.js:23-25 | `overlaps` is symmetric |
| Interval.TouchingDoNotOverlap | src/controllers/calendarController.js:10 | intervals that only touch do not overlap |
| Interval.OverlapsIffCommonSecond | src/controllers/slotsController.js:23-25 | two non-empty intervals overlap exactly when they share a second |
| Records.WindowKeepsOverlapping | src/controllers/slotsController.js:77-81 | the window clause keeps every row that overlaps some interval inside the window |
| Records.WindowApps | src/controllers/slotsController.js:72-84 | the fetched appointments are exactly the active ones of the doctor and clinic that meet the window clause |
| Records.WindowBlocks | src/controllers/slotsController.js:59-70 | the fetched blocks are exactly the active ones of the doctor that meet the window clause |
| Records.Spans | src/controllers/slotsController.js:86-87 | `taken` and `blocked` hold each fetched row's [start, end], one per row, in order |
| Records.TakenInClashes | src/controllers/slotsController.js:72-107 | for a cell inside the window, a clash with `taken` is the same as an overlap with some active appointment of the doctor at the clinic |
| Records.BlockedInClashes | src/controllers/slotsController.js:59-108 | for a cell inside the window, a clash with `blocked` is the same as an overlap with some active block of the doctor |
| Records.HoursOf | src/controllers/slotsController.js:48-51 | the fetched business hours are exactly the rows of the doctor at the clinic |
| Records.DayApps | src/controllers/appointmentsController.js:46 | the day's appointments are exactly the active ones of the doctor and clinic with start < day end and end > day start |
| Sorting.Insert | src/controllers/appointmentsController.js:47 | one insertion step adds exactly one element and keeps the others |
| Sorting.InsertSorted | src/controllers/appointmentsController.js:47 | inserting into a sorted list keeps it sorted |
| Sorting.SortBySorted | src/controllers/appointmentsController.js:47 | the sort's result is ordered by the key |
| Sorting.SortByPermutation | src/controllers/appointmentsController.js:47 | the sort's result holds exactly the elements it was given, as a multiset |
| Sorting.SortBySortedPermutation | src/controllers/appointmentsController.js:47 | the sort by start returns a sorted permutation of its input |
| Sorting.InsertAhead | src/controllers/scheduleController.js:167 | an inserted element goes ahead of every element with the same key |
| Sorting.SortByStable | src/controllers/scheduleController.js:167 | the sort is stable: the elements of each key keep their input order |
| Grid.RuleCellsSound | src/controllers/slotsController.js:100-115 | every emitted cell is `step` long, lies on the grid from the row start, ends by the row end, and clashes with no taken or blocked interval |
| Grid.RuleCellsComplete | src/controllers/slotsController.js:100-115 | every free grid cell that ends by the row end is emitted, because the cursor advances whether or not the cell was free |
| Grid.RuleCellsOrdered | src/controllers/slotsController.js:100-115 | a row's cells are strictly ascending and pairwise disjoint |
| Grid.RuleCellsAfter | src/controllers/slotsController.js:100-115 | no cell starts before the cursor |
| Grid.RuleCellsCount | src/controllers/calendarController.js:46-54 | a row yields at most ⌊(end − start)/step⌋ cells |
| Grid.WalkRule | src/controllers/slotsController.js:100-115 | intended walk: the `while` loop over one row emits exactly the row's free cells |
| Grid.CountRule | src/controllers/calendarController.js:46-54 | intended walk: the counting loop counts exactly the row's free cells |
| Grid.TodaysRules | src/controllers/slotsController.js:95 | the day's rows are exactly those whose lower-cased day name maps to the weekday |
| Grid.WalkRules | src/controllers/slotsController.js:96-116 | intended walk: the loop over the day's rows emits their cells row after row |
| Grid.CountRules | src/controllers/calendarController.js:43-55 | intended walk: `count` ends as the number of the day's free cells |
| Grid.RulesSlotsSound | src/controllers/slotsController.js:96-116 | every slot of a day comes from one of its rows |
| Grid.RulesSlotsComplete | src/controllers/slotsController.js:96-116 | every free grid cell of any of the day's rows is listed |
| Grid.DaySlotsSound | src/controllers/slotsController.js:92-116 | every slot of a day comes from a row for that weekday |
| Grid.DaySlotsComplete | src/controllers/slotsController.js:92-116 | every free grid cell of a row for that weekday is listed |
| Grid.WindowSlotsSound | src/controllers/slotsController.js:91-117 | every slot of the window belongs to one of its days |
| Grid.WindowSlotsComplete | src/controllers/slotsController.js:91-117 | every slot of every day of the window is listed |
| Grid.LiveApps | src/controllers/slotsController.js:72-84 | without the window clause the query gives exactly the active appointments of the doctor at the clinic |
| Grid.ActiveBlocks | src/controllers/slotsController.js:59-70 | without the window clause the query gives exactly the active blocks of the doctor |
| Grid.StoreListsFree | src/controllers/slotsController.js:107-108 | a cell is `conflict`-free exactly when it overlaps no active appointment and no active block of the doctor in the whole store |
| Grid.FetchedFree | src/controllers/slotsController.js:59-108 | for a cell inside the window, the fetched lists decide freedom exactly as the whole store would |
| Grid.RuleCellsSameFree | src/controllers/slotsController.js:100-115 | two obstacle lists that agree on every cell of a row give the same cells |
| Grid.DaySlotsOfStore | src/controllers/slotsController.js:59-116 | a day inside the window has the same slots against the fetched lists as against the whole store, when its rows end by midnight |
| Grid.DaySlotsStoreSound | src/controllers/slotsController.js:95-112 | each listed slot is a free grid cell of one of the doctor's rows at the clinic for that weekday |
| Grid.DaySlotsStoreComplete | src/controllers/slotsController.js:95-112 | each such free grid cell is listed |
| Grid.DaySlotsStoreExact | src/controllers/slotsController.js:95-112 | a slot is listed exactly when it is such a free grid cell |
| Grid.DaysLoopThrows | src/controllers/slotsController.js:91-103 | as written: the loops over days and rows reach the throwing `isSameOrBefore` test exactly when some visited day has a row for its weekday |
| Grid.WindowSlotsUnreached | src/controllers/slotsController.js:91-117 | when no visited day has a row for its weekday, the intended walk lists nothing either |
| Slots.NumberOr | src/controllers/slotsController.js:31-32 | `Number(x \|\| d)` is the default for an absent parameter and is never negative |
| Slots.ValidateSlots | src/controllers/slotsController.js:29-45 | `missing_params` when an id is empty, else `invalid_ids` when an id is not digits, else `invalid_days` outside 1..60, else `invalid_slot` outside 10..120; accepted exactly when none applies, with the ids, `days` (default 14) and `slot` (default 30) read as numbers |
| Slots.ValidateSlotsDefaults | src/controllers/slotsController.js:29-45 | decimal ids with no `days` and no `slot` are accepted with 14 days and 30 minutes |
| Slots.ValidateSlotsRoundTrip | src/controllers/slotsController.js:29-45 | decimal parameters within the bounds are accepted and read back exactly |
| Slots.GetSlots | src/controllers/slotsController.js:27-124 | intended walk: the handler answers the validation error or the window's slots, as the response function defines them |
| Slots.WalkDays | src/controllers/slotsController.js:91-117 | intended walk: the loop over the days concatenates each day's slots in day order |
| Slots.SlotsExact | src/controllers/slotsController.js:48-117 | intended walk: with rows ending by midnight, a slot is listed exactly when it is a free grid cell of a day of the window and of a row of the doctor at the clinic for that weekday |
| Slots.GetSlotsAsWritten | src/controllers/slotsController.js:27-124 | as written: the validation error, else 500 `internal_error` when a day of the window has a row of the doctor at the clinic for its weekday, else `[]` |
| Slots.SlotsAsWrittenDiffers | src/controllers/slotsController.js:91-122 | for an accepted query, the handler as written answers 500 exactly when the loop test is reached, and agrees with the intended walk exactly when it is not |
| Slots.SlotsAsWrittenMonday | src/controllers/slotsController.js:91-122 | `/slots?location_id=1&doctor_id=1&days=1` on a Monday with one "monday" row answers 500 as written, and a listing as intended |
| Calendar.ValidateDays | src/controllers/calendarController.js:14-24 | `invalid_ids` for a non-digit id, then `invalid_from` for an invalid date; otherwise the ids, the first day, the day count and the slot length are read |
| Calendar.TallyFacts | src/controllers/calendarController.js:38-57 | the entries are dated inside the range in increasing order, each count is positive and equals the day's count, and every day with a positive count has an entry |
| Calendar.CalendarDaysResponse | src/controllers/calendarController.js:12-64 | intended walk: the response errs exactly when validation does, and it is empty when the slot is NaN or the range has no days |
| Calendar.CountDays | src/controllers/calendarController.js:38-57 | intended walk: the loop over days pushes `{date, slots}` for exactly the days with a positive count |
| Calendar.GetCalendarDays | src/controllers/calendarController.js:12-64 | intended walk: the handler answers what the response function defines |
| Calendar.ValidateDate | src/controllers/calendarController.js:68-74 | `invalid_ids` for a non-digit id, then `invalid_date` for an invalid date; otherwise the ids, the day and the slot length are read |
| Calendar.CalendarSlotsResponse | src/controllers/calendarController.js:66-110 | intended walk: the response errs exactly when validation does, and it is empty when the slot is NaN |
| Calendar.GetCalendarSlots | src/controllers/calendarController.js:66-110 | intended walk: the handler answers what the response function defines |
| Calendar.CalendarDaysListing | src/controllers/calendarController.js:37-59 | intended walk: `/calendar/days` lists days of the range in increasing order, each with a positive count |
| Calendar.CalendarDaysListed | src/controllers/calendarController.js:26-57 | intended walk: an accepted query with a numeric slot lists the tally of the range against the range's fetch |
| Calendar.CalendarCountMatchesSlots | src/controllers/calendarController.js:12-110 | intended walk: for each day of the range, `/calendar/slots` lists some slots exactly when `/calendar/days` lists the day, with the same count |
| Calendar.CalendarSlotsListed | src/controllers/calendarController.js:76-103 | intended walk: an accepted query with a numeric slot lists the walk of the date against the day's fetch |
| Calendar.CalendarSlotsExact | src/controllers/calendarController.js:66-105 | intended walk: with rows ending by midnight, a cell is listed exactly when it is a free grid cell of one of the doctor's rows at the clinic for that weekday |
| Calendar.GetCalendarDaysAsWritten | src/controllers/calendarController.js:12-64 | as written: the validation error, else 500 when a day of the range has a row for its weekday, else `[]`, whatever `slot` is (0 and NaN included) |
| Calendar.CalendarDaysAsWrittenDiffers | src/controllers/calendarController.js:38-62 | for an accepted query, `/calendar/days` as written answers 500 exactly when the loop test is reached, and agrees with the intended count exactly when it is not |
| Calendar.TallyUnreached | src/controllers/calendarController.js:38-57 | with no row on any day of the range, the intended count lists nothing |
| Calendar.CalendarDaysAsWrittenMonday | src/controllers/calendarController.js:38-62 | one Monday with one "monday" row answers 500 as written, and a listing as intended |
| Calendar.GetCalendarSlotsAsWritten | src/controllers/calendarController.js:66-110 | as written: the validation error, else 500 when the date has a row for its weekday, else `[]` |
| Calendar.CalendarSlotsAsWrittenDiffers | src/controllers/calendarController.js:88-108 | for an accepted query, `/calendar/slots` as written answers 500 exactly when the date has a row, and agrees with the intended walk exactly when it has none |
| Calendar.CalendarSlotsAsWrittenMonday | src/controllers/calendarController.js:88-108 | a Monday date with one "monday" row answers 500 as written, and a listing as intended |
| Scan.ScanFirstEarliest | src/controllers/appointmentsController.js:49-58 | no start between the range start and `findSlot`'s result is free, and when it finds nothing no start of the range that fits is free |
| Scan.ScanFirstFree | src/controllers/appointmentsController.js:47-58 | over busy intervals sorted by start, `findSlot`'s result is at or after the range start and its 40 minutes overlap no busy interval |
| Scan.ScanFirstFits | src/controllers/appointmentsController.js:49-58 | the result either ends by the range end (tail return) or lies a full slot in front of some busy interval (early return) |
| Scan.ScanFirstBelow | src/controllers/appointmentsController.js:49-58 | the result lies before the range end |
| Scan.FindSlot | src/controllers/appointmentsController.js:49-58 | the `findSlot` loop returns the scan's result |
| Scan.RunFacts | src/controllers/scheduleController.js:67-71 | the inner while counts starts at least `slotSec` apart, from the cursor on, that fit before the limit, and leaves less than a slot |
| Scan.RunExact | src/controllers/scheduleController.js:67-71 | the counted starts are exactly cursor, cursor + `slotSec`, …, their number n is the whole slots between the cursor and the limit (n·`slotSec` ≤ limit − cursor < (n+1)·`slotSec`, none when the limit is behind the cursor), and the cursor ends right after the last |
| Scan.CountedStartsFree | src/controllers/scheduleController.js:60-81 | over sorted busy intervals, every counted start is at or after the range start, the starts are `slotSec` apart, and none overlaps a busy interval |
| Scan.CountedStartsFirst | src/controllers/scheduleController.js:60-81 | `nextSlotAndCapacity` counts nothing exactly when `findSlot` finds nothing, and its first start is `findSlot`'s result |
| Scan.CountedStartsFit | src/controllers/scheduleController.js:60-81 | every counted start ends by the range end or lies in front of some busy interval |
| Scan.ClashesOfPermutation | src/controllers/appointmentsController.js:47 | sorting the busy list does not change which intervals clash |
| Scan.RangeStartsFacts | src/controllers/scheduleController.js:60-81 | a NaN range start counts nothing; the counted starts are spaced, free, after the start, and end by the end or in front of a busy interval |
| Scan.Head | src/controllers/scheduleController.js:64-68 | `next` is null exactly when nothing was counted, else the first counted start |
| Scan.TakeRun | src/controllers/scheduleController.js:67-71 | the inner while adds the run of starts to `capacity`, sets `next` to the first when it was null, and leaves the cursor at the run's end |
| Scan.PassBusy | src/controllers/scheduleController.js:65-74 | one pass of the busy loop appends the starts before that interval and reports the `break` |
| Scan.PassEnd | src/controllers/scheduleController.js:75-79 | the tail loop appends the starts before `overlapEnd` |
| Scan.NextSlotAndCapacity | src/controllers/scheduleController.js:60-81 | `capacity` is the number of counted starts and `next` the first or null |
| Schedule.ValidateSchedule | src/controllers/scheduleController.js:27-30 | accepted exactly when the clinic id is digits and days is within 1..60, otherwise `invalid_clinic_id` first, then `invalid_days` |
| Schedule.ShiftsOf | src/controllers/scheduleController.js:47-49 | AM is listed exactly when the AM hours parse and PM exactly when the PM hours parse, AM first |
| Schedule.GetSchedules | src/controllers/scheduleController.js:25-57 | the handler answers the validation error or the open-day listing |
| Schedule.ListOpenDays | src/controllers/scheduleController.js:43-51 | the loop lists each day of the window whose short name is open, when it has a shift |
| Schedule.OpenListingFacts | src/controllers/scheduleController.js:43-51 | at most `days` entries, strictly ascending dates, each an open weekday in the window with the shifts |
| Schedule.OpenListingComplete | src/controllers/scheduleController.js:43-51 | every open day of the window is listed when a shift parses |
| Schedule.OpenListingUnshifted | src/controllers/scheduleController.js:50 | with no shift no day is listed |
| Schedule.NoShiftsNoListing | src/controllers/scheduleController.js:38-50 | a clinic whose AM and PM hours both fail to parse gets an empty listing |
| Schedule.ValidateAvail | src/controllers/scheduleController.js:86-91 | accepted exactly when the clinic id is digits, the date is YYYY-MM-DD shaped and the shift is AM or PM; otherwise the first failing check's error |
| Schedule.DayRows | src/controllers/scheduleController.js:106 | the rows are exactly those of the clinic with that day name |
| Schedule.DocOrderFacts | src/controllers/scheduleController.js:107-112 | `docIds` holds each doctor with a row exactly once |
| Schedule.RowsOf | src/controllers/scheduleController.js:149 | a doctor's rows are exactly the rows with that doctor |
| Schedule.ActiveIds | src/controllers/scheduleController.js:117-128 | the final doctors are exactly the grouped ones with the capability, still distinct |
| Schedule.RowRange | src/controllers/scheduleController.js:153-154 | a defined cut bound lies inside both the row's and the shift's bound |
| Schedule.AvailResponse | src/controllers/scheduleController.js:84-173 | the response errs exactly when validation does, and is empty on a closed day or a shift without hours |
| Schedule.GetAvailableDoctors | src/controllers/scheduleController.js:84-173 | the handler answers what the response function defines |
| Schedule.RankShift | src/controllers/scheduleController.js:101-167 | the open-shift path answers the sorted ranking |
| Schedule.GroupByDoctor | src/controllers/scheduleController.js:107-112 | `docIds` is first-appearance order, and `byDoc` maps exactly those doctors to their rows in order |
| Schedule.DoctorCapacity | src/controllers/scheduleController.js:150-161 | the loop over a doctor's rows computes the aggregate `bestNext` and `totalCap` |
| Schedule.RowCapacity | src/controllers/scheduleController.js:153-156 | one row gives its number of starts and the first start, or nothing when the cut is empty |
| Schedule.RankDoctors | src/controllers/scheduleController.js:147-165 | the loop over the final doctors pushes one entry per doctor with capacity, in order |
| Schedule.AggregateFacts | src/controllers/scheduleController.js:150-161 | `bestNext` is set exactly when `totalCap > 0`, it is some row's first start, and it is the least of them |
| Schedule.FoldFacts | src/controllers/scheduleController.js:157-160 | the fold of rows: a best start exactly when the total is positive, taken from some row and no greater than any row's first |
| Schedule.CandidatesFacts | src/controllers/scheduleController.js:147-165 | each entry is a listed doctor with positive capacity and a non-null `next` equal to its aggregate, every such doctor is listed, and ids are unique |
| Schedule.EntriesFacts | src/controllers/scheduleController.js:147-165 | the same for any per-doctor aggregate |
| Schedule.RowStartsFacts | src/controllers/scheduleController.js:153-156 | every start of a row is free and lies in the row's cut of the shift, ending by its end or in front of a busy interval |
| Schedule.RankedNextFree | src/controllers/scheduleController.js:147-165 | a ranked doctor's `next_available_at` is a free start inside one of that doctor's rows cut to the shift |
| Schedule.RankingFacts | src/controllers/scheduleController.js:147-167 | the output is sorted by `next_available_at \|\| 0` and is a permutation of the unique candidates; it holds exactly the active doctors with rows and positive capacity, with their aggregates |
| Schedule.RankingTies | src/controllers/scheduleController.js:167 | doctors with the same `next_available_at \|\| 0` keep the candidates' order, which is the first-appearance order of `docIds` |
| Booking.DoctorRows | src/controllers/appointmentsController.js:32 | the rows are exactly those of the doctor at the clinic with the weekday's name |
| Booking.NonEmptyFacts | src/controllers/appointmentsController.js:35-40 | `overlaps` holds exactly the non-empty cuts |
| Booking.KeptRangesFacts | src/controllers/appointmentsController.js:35-40 | each kept range is non-empty and inside the shift and inside some row, and every non-empty cut is kept |
| Booking.KeptRangeInside | src/controllers/appointmentsController.js:35-40 | one kept range is non-empty and lies inside the shift and one row |
| Booking.KeepRanges | src/controllers/appointmentsController.js:35-40 | the loop pushes exactly the non-empty cuts, in row order |
| Booking.ChooseSlotFirst | src/controllers/appointmentsController.js:59-60 | `chosen` is the result of the first range whose result counts, and it is null only when no range gives one |
| Booking.PickSlot | src/controllers/appointmentsController.js:59-61 | the loop over the ranges stops at the first truthy `findSlot` result |
| Booking.ScanRangeFacts | src/controllers/appointmentsController.js:49-58 | with sorted busy intervals, a result lies inside its range and is free, no earlier start of the range is free, and it ends by the range end or lies in front of a busy interval |
| Booking.ShiftSlot | src/controllers/appointmentsController.js:12-62 | a booked shift slot is exactly 40 minutes long, and the doctor and clinic are numeric |
| Booking.DoctorSlot | src/controllers/appointmentsController.js:33-62 | the same, once the shift is known |
| Booking.ShiftSlotErrors | src/controllers/appointmentsController.js:25-61 | `turn_closed` exactly when the day is closed or the shift has no hours; `internal_error` exactly when the shift's hours text has no '-' (the end side is undefined and `toTs` throws); `doctor_not_in_turn` exactly when no row of the doctor at the clinic has the weekday's name; the only other errors are `no_overlap` and `no_free_slot` |
| Booking.DoctorSlotErrors | src/controllers/appointmentsController.js:33-61 | `no_overlap` exactly when every cut is empty; `no_free_slot` exactly when there are ranges and none gives a counting start |
| Booking.DoctorSlotChosen | src/controllers/appointmentsController.js:59-62 | a booked slot starts at `chosen` |
| Booking.DoctorSlotFacts | src/controllers/appointmentsController.js:35-62 | the booked slot is the first free start of the first range that gives one; that range lies in the shift and in a row, and no earlier start of it is free |
| Booking.ChosenRange | src/controllers/appointmentsController.js:49-61 | the same, for any busy list sorted by start |
| Booking.DoctorSlotFree | src/controllers/appointmentsController.js:44-62 | the booked slot overlaps no active appointment of the doctor at the clinic on that day |
| Booking.BusySorted | src/controllers/appointmentsController.js:47 | `busy` is sorted by start |
| Booking.DayFree | src/controllers/appointmentsController.js:44-47 | a slot clear of the day's fetched list overlaps none of the day's active appointments |
| Booking.DirectTimes | src/controllers/appointmentsController.js:124-138 | `missing_fields` exactly when a required field is falsy; accepted times are non-negative integers, start < end, at most 40 minutes |
| Booking.DirectTimesOrder | src/controllers/appointmentsController.js:124-138 | `invalid_times`, `invalid_ids`, `invalid_price`, `duration_exceeds_40m` each answer exactly when all earlier checks pass and their own fails |
| Booking.Greatest | src/controllers/appointmentsController.js:97-102 | `Number(max \|\| 0)`: an upper bound of the column that some row attains, or 0 on an empty table |
| Booking.Insertion | src/controllers/appointmentsController.js:92-103 | `overlap` exactly when an active appointment of the doctor at the clinic overlaps the interval; otherwise `internal_error` exactly when `appid`, `price`, `treat` or `pat` is not a number; a record holds the interval, doctor and clinic |
| Booking.PlanOutcome | src/controllers/appointmentsController.js:92-171 | once the slot is found, the booking answers `overlap` exactly on a conflict and succeeds exactly when there is none and the numeric body values are numbers; otherwise the slot's error is the answer |
| Booking.Slot | src/controllers/appointmentsController.js:12-138 | either mode books a non-empty interval of at most 40 minutes for a numeric doctor and clinic, exactly 40 minutes in shift mode |
| Booking.BookingResponse | src/controllers/appointmentsController.js:108-176 | the answer is the plan's error, or 201 with the planned record's ID, start and end |
| Booking.PlanRecord | src/controllers/appointmentsController.js:92-171 | the record has ID max+1, above every ID; the given appid or max(appid)+1; the body's doctor, clinic and patient; active, unpaid, no parent; a 1..2400 s interval (2400 in shift mode) overlapping no active appointment of that doctor at that clinic |
| Booking.PlanKeepsInvariants | src/controllers/appointmentsController.js:92-103 | appending the planned record keeps active appointments disjoint per doctor and clinic, and IDs distinct |
| Booking.AppendKeeps | src/controllers/appointmentsController.js:140-171 | appending a record with a greater ID that overlaps no active appointment of its doctor and clinic keeps both invariants |
| Cancel.VariantsSpellings | src/controllers/appointmentsController.js:235-267 | the three lookups are the number as given first, then the other spellings of one national number b: b, "0" + b and "58" + b, pairwise distinct and each tried once |
| Cancel.FindMobile | src/controllers/appointmentsController.js:230-233 | a lookup finds a "mobile" row with exactly that value, or there is none |
| Cancel.FindPatientFirst | src/controllers/appointmentsController.js:229-268 | the patient comes from the first variant that finds one, and none is found only when no variant does |
| Cancel.LookupPatient | src/controllers/appointmentsController.js:229-268 | the chain of `findOne` calls gives the first variant's match |
| Cancel.CancelPlan | src/controllers/appointmentsController.js:209-324 | `missing_fields` exactly when phone or ID is falsy; `invalid_phone` exactly when the digits are not 6..20; a cancelled ID is `Number(appointment_id)` |
| Cancel.Outcome | src/controllers/appointmentsController.js:280-320 | success carries the requested ID, and the only failures are the three appointment errors |
| Cancel.OutcomeFacts | src/controllers/appointmentsController.js:280-320 | cancels exactly when the patient has an active row with the ID; `appointment_already_cancelled` when not but one with active 0; `appointment_not_yours` when none of the patient's rows with the ID has `active` 0 or 1 but some row has the ID; `appointment_not_found` exactly when no row has the ID |
| Cancel.CancelPlanNoPatient | src/controllers/appointmentsController.js:229-276 | after the checks, `patient_not_found` exactly when no variant finds a mobile row |
| Cancel.CancelPlanPatient | src/controllers/appointmentsController.js:229-283 | otherwise the answer is the appointment outcome for a user whose mobile is one of the variants |
| Cancel.DeletePlan | src/controllers/appointmentsController.js:183-187 | found exactly when some row has `Number(id)` as ID, otherwise `not_found` |
| Cancel.Deactivate | src/controllers/appointmentsController.js:324 | the rows with the ID get `active` 0 and every other row and field stays |
| Cancel.DeactivateFacts | src/controllers/appointmentsController.js:189 | after the soft delete the row is inactive, only `active` changed, and both table invariants still hold |
| Store.ShiftModeSlot | src/controllers/appointmentsController.js:12-62 | the shift-mode steps reach the slot or error the plan defines |
| Store.DoctorModeSlot | src/controllers/appointmentsController.js:30-62 | the steps after the shift bounds reach the same result as the plan |
| Store.AppointmentStore.AddAppointment | src/controllers/appointmentsController.js:4-181 | answers the booking response, appends exactly the planned record or nothing, and keeps the table invariants |
| Store.AppointmentStore.DeleteAppointment | src/controllers/appointmentsController.js:183-207 | answers `not_found` or soft-deletes the row with the ID, changing nothing else, and keeps the invariants |
| Store.AppointmentStore.CancelByPhone | src/controllers/appointmentsController.js:209-343 | answers the cancel plan and soft-deletes exactly the cancelled ID, keeping the invariants |

## Left out

- The advisory lock of a shift-mode booking (GET_LOCK, pg_try_advisory_lock, RELEASE_LOCK) and its `busy` (423) answer are not modelled. A booking is one atomic method.
- Writes to `Log` and `Notification` are not modelled, nor is console logging. In `addAppointment` their errors are swallowed. In `deleteAppointment` (lines 191-200) and `cancelByPhone` (lines 326-335) a failing write answers 500 `internal_error` after `active` was already set to 0; the model answers Ok in that case.
- Date parsing and the clock are inputs. Requests carry the day number their date denotes (`None` when invalid), and "today" is a parameter. The `from` default of `/calendar/days` (today's date) is therefore whatever the caller passes.
- The date shape test `^\d{4}-\d{2}-\d{2}$` is an input predicate on the date text. `new Date(...)` rollover of impossible dates is not modelled.
- Price is checked (direct mode) and must be a number to be inserted (both modes), but its DECIMAL value is not stored in the record.
- Js.StrToNumber reads only digit strings (with surrounding whitespace) and whole JSON numbers; signed, fractional, exponent and hexadecimal text is NaN here. Visible consequences: `slot=-30` on `/calendar/days` or `/calendar/slots` is NaN in the intended walk, which then answers `[]`; the handlers as written answer 500 there whenever the loop test is reached, as for every other slot (see Findings); a direct-mode `price: "12.50"` is accepted by the source but answers `invalid_price` here; `days=2.5` is accepted by `/slots` and `/schedules` (three days) but answers `invalid_days` here; `start_ts: "1e3"` passes `isInt` in the source but answers `invalid_times` here.
- Slots.NumberOr is never negative only because Js.StrToNumber has no sign; a negative `days` or `slot` is rejected by the range checks in the source as well, so `/slots` answers the same error.
- The capability filter `LIKE '%"doctor";b:1%'` is the input set `active`. Doctor display names (`nameMap`) are not modelled.
- The `clin` TEXT column and the block's STRING `doc` are compared as numbers, so text/number coercion of the database is not modelled.
- Day names are matched exactly in `/doctors/available` and the shift mode. The database collation (case-insensitive on MySQL) is not modelled.
- Whitespace is the ASCII and common Unicode space set listed in `Js.IsSpace`. Other Unicode space separators are not modelled.
- A non-numeric `appid`, `price`, `treat` or `pat` written to a numeric column is modelled as `internal_error` (the insert fails).
- `Cancel.Deactivate` sets `active` to 0 on every row with the ID. `findByPk`/`update` touch one row, which is the same under `DistinctIds`.
- `appsByDoc` grouping in `/doctors/available` is modelled as a per-doctor filter of the day's appointments (`Schedule.DoctorBusy`).
- The `Array.prototype.sort` calls are modelled as a stable insertion sort by the numeric key.
- Calendar.GetCalendarDays and Calendar.GetCalendarSlots require that `slot` is not 0, because the intended walk would never advance its cursor. This excludes an input that the handlers as written do answer: 500 when the loop test is reached, `[]` otherwise. `Calendar.GetCalendarDaysAsWritten` and `Calendar.GetCalendarSlotsAsWritten` have no such requirement and cover it.
- Calendar.ValidateDays does not bound `days`; neither does the source. A NaN `days` runs no iteration of the day loop.
- Calendar.GetCalendarDaysAsWritten: a non-numeric `days` makes the window end NaN (calendarController.js:17, 25-27), and that NaN reaches the block and appointment queries (lines 30-31) before the loop. The model treats such a query as matching no row and answers `[]`; the source's query most likely fails on MySQL, and the handler then answers 500 `internal_error`. Database error behaviour is not modelled.
- Calendar.CalendarDaysResponse: the same NaN window end is modelled as matching no row, where the source most likely answers 500.
- Cancel.Outcome: a non-numeric `appointment_id` gives `ID: NaN` in the lookups (appointmentsController.js:281 onwards). The model treats that as matching no row, so the answer is `appointment_not_found`; the source's query most likely fails with 500.
- Booking.ShiftSlot: a non-numeric `cli` or `doc` gives NaN in the clinic-settings query (appointmentsController.js:17) or the business-hour query (line 32). The model treats that as matching no row, so the answer is `turn_closed` or `doctor_not_in_turn`; the source's query most likely fails with 500.
- Scan.ScanFirstFits does not state that an early `findSlot` result ends by the range end. The source does not guarantee it: a gap in front of a busy interval that starts after the range end is returned.
- Grid.WalkRule: the intended loop over one row; as written its first test throws (see Findings).
- Grid.CountRule: the intended counting loop; as written its first test throws.
- Grid.WalkRules: the intended walk of a day's rows; as written any non-empty list of rows throws.
- Grid.CountRules: the intended count of a day's rows; as written any non-empty list of rows throws.
- Slots.GetSlots: the intended `/slots`; as written it answers 500 whenever a day of the window has a row for its weekday (`Slots.GetSlotsAsWritten`).
- Slots.WalkDays: the intended day loop; as written it throws inside the first day with a row.
- Slots.SlotsExact: the intended listing; as written a non-empty listing is never returned.
- Calendar.CalendarDaysResponse: the intended `/calendar/days`; as written it answers 500 whenever a day of the range has a row (`Calendar.GetCalendarDaysAsWritten`).
- Calendar.GetCalendarDays: the same gap as Calendar.CalendarDaysResponse.
- Calendar.CountDays: the intended loop over days; as written it throws at the first day with a row.
- Calendar.CalendarDaysListing: the intended listing; as written the answer is `[]` or 500.
- Calendar.CalendarDaysListed: the tally it names is the intended count, not the 500 the source answers.
- Calendar.CalendarSlotsResponse: the intended `/calendar/slots`; as written it answers 500 whenever the date has a row (`Calendar.GetCalendarSlotsAsWritten`).
- Calendar.GetCalendarSlots: the same gap as Calendar.CalendarSlotsResponse.
- Calendar.CalendarSlotsListed: the intended walk of the date; calendarController.js:96 as written throws instead.
- Calendar.CalendarSlotsExact: the intended listing; as written a non-empty listing is never returned.
- Calendar.CalendarCountMatchesSlots: relates the two intended endpoints; as written both answer 500 on every day it relates that has a row.
- The other controllers (patients, aux, doctors, locations) and the Express/Sequelize wiring are not part of this model.

## Findings

| source | as written | input that shows it | evidently intended | confidence | as-written member | corrected member |
|---|---|---|---|---|---|---|
| src/controllers/slotsController.js:103 | the loop test calls `isSameOrBefore`, a dayjs plugin method; only the `utc` plugin is registered (line 6), so the test throws and the catch answers 500 `internal_error` | `/slots?location_id=1&doctor_id=1&days=1` on a Monday, with one "monday" row of doctor 1 at clinic 1 | walk the row in `slot`-minute steps while the cell ends by the row end, listing the free cells | high, not executed | Slots.SlotsAsWrittenDiffers, Slots.SlotsAsWrittenMonday | Slots.SlotsExact |
| src/controllers/calendarController.js:48 | the same throwing loop test in `/calendar/days`: 500 whenever a day of the range has a row for its weekday | `/calendar/days?location_id=1&doctor_id=1&from=1970-01-05&days=1`, with one "monday" row | count the free cells of each day and list the days with a positive count | high, not executed | Calendar.CalendarDaysAsWrittenDiffers, Calendar.CalendarDaysAsWrittenMonday | Calendar.CalendarDaysListing |
| src/controllers/calendarController.js:96 | the same throwing loop test in `/calendar/slots`: 500 whenever the date has a row for its weekday | `/calendar/slots?location_id=1&doctor_id=1&date=1970-01-05`, with one "monday" row | list the free cells of the date's rows | high, not executed | Calendar.CalendarSlotsAsWrittenDiffers, Calendar.CalendarSlotsAsWrittenMonday | Calendar.CalendarSlotsExact |
