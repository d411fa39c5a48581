/** Calendar days, weekdays and the clock-time strings of the clinic data.
    A calendar day is a whole number of days since 1970-01-01 (UTC); its first
    second is `day * 86400`, and 1970-01-01 was a Thursday (weekday 4, with
    Sunday as 0, as `Date.prototype.getUTCDay` and dayjs `day()` count). */
module Clock {
  import opened Js

  const DaySeconds: int := 86400

  function DayStart(day: int): int { day * DaySeconds }

  function Weekday(day: int): (w: nat)
    ensures w < 7
  {
    (day + 4) % 7
  }

  /** `dowShort` of the schedule and appointment controllers. */
  const DowShort: seq<string> := ["sun", "mon", "tue", "wed", "thu", "fri", "sat"]

  /** `dowName` / `dayNames`, and the keys of the slot controllers' `dayMap`. */
  const DowName: seq<string> := ["sunday", "monday", "tuesday", "wednesday", "thursday", "friday", "saturday"]

  /** `dayMap[name]`: the weekday a lower-case day name stands for, if any. */
  function DayMap(name: string): (w: Option<nat>)
    ensures w.Some? ==> w.value < 7 && DowName[w.value] == name
    ensures w.None? ==> name !in DowName
  {
    if name == "sunday" then Some(0)
    else if name == "monday" then Some(1)
    else if name == "tuesday" then Some(2)
    else if name == "wednesday" then Some(3)
    else if name == "thursday" then Some(4)
    else if name == "friday" then Some(5)
    else if name == "saturday" then Some(6)
    else None
  }

  /** The weekday a business-hour row's `day` text names:
      `dayMap[String(bh.day).toLowerCase()]`. */
  function RuleWeekday(dayText: string): Option<nat>
  {
    DayMap(ToLowerAscii(dayText))
  }

  /** Every weekday's own name selects a weekday, the one it names. */
  lemma RuleWeekdayOfName(name: string)
    requires name in DowName
    ensures RuleWeekday(name).Some? && DowName[RuleWeekday(name).value] == name
  {
    assert forall i :: 0 <= i < |name| ==> 'a' <= name[i] <= 'z';
    LowerOfLower(name);
  }

  /** Lower-casing leaves a string without capital letters as it is. */
  lemma {:induction false} LowerOfLower(s: string)
    requires forall i :: 0 <= i < |s| ==> !('A' <= s[i] <= 'Z')
    ensures ToLowerAscii(s) == s
  {
    if |s| > 0 {
      LowerOfLower(s[1..]);
      assert [s[0]] + s[1..] == s;
    }
  }

  /** `Number(x) || 0`: NaN and 0 both give 0. */
  function NumberOrZero(s: string): (n: nat)
    ensures StrToNumber(s).Some? ==> n == StrToNumber(s).value
    ensures StrToNumber(s).None? ==> n == 0
  {
    match StrToNumber(s)
    case Some(v) => v
    case None => 0
  }

  /** Hours and minutes of a clock string, as `parseHHMM` reads them. */
  datatype HourMinute = HourMinute(h: nat, m: nat)

  /** `parseHHMM` of the slot and calendar controllers: the text before the
      first ':' is the hour and the text after it up to the next ':' the minute;
      a missing or non-numeric part counts as 0. */
  function ParseHHMM(str: string): (hm: HourMinute)
    ensures hm.h == NumberOrZero(Split(str, ':')[0])
    ensures |Split(str, ':')| < 2 ==> hm.m == 0
    ensures |Split(str, ':')| >= 2 ==> hm.m == NumberOrZero(Split(str, ':')[1])
  {
    var parts := Split(str, ':');
    HourMinute(NumberOrZero(parts[0]), if |parts| > 1 then NumberOrZero(parts[1]) else 0)
  }

  /** The second of `day` at which a clock string starts, as the slot controllers
      position a dayjs value with `.hour(h).minute(m).second(0)` (hours past 23
      roll over into the next day, so the result is linear in h and m). */
  function ClockSecond(day: int, str: string): int
  {
    var hm := ParseHHMM(str);
    Instant(day, hm.h, hm.m)
  }

  /** `toTs(date, hhmm)` of the schedule and appointment controllers:
      `Date.UTC` of the day at hour h and minute m, in seconds. A missing
      minute or a non-numeric part makes `Date.UTC` NaN, which is None here. */
  function ToTs(day: int, hhmm: string): (t: Option<int>)
    ensures t.Some? <==> ClockFields(hhmm)
    ensures t.Some? ==> t.value == Instant(day, FieldValue(hhmm, 0), FieldValue(hhmm, 1))
  {
    var parts := Split(hhmm, ':');
    var h := StrToNumber(parts[0]);
    var m := if |parts| > 1 then StrToNumber(parts[1]) else None;
    if h.Some? && m.Some? then Some(Instant(day, h.value, m.value)) else None
  }

  /** The second at which hour h, minute m of `day` begins (hours past 23 and
      minutes past 59 carry over, as `Date.UTC` does). */
  function Instant(day: int, h: int, m: int): int
  {
    DayStart(day) + 3600 * h + 60 * m
  }

  /** The hour and the minute field of `hhmm` are both present and numeric. */
  predicate ClockFields(hhmm: string)
  {
    var parts := Split(hhmm, ':');
    |parts| >= 2 && StrToNumber(parts[0]).Some? && StrToNumber(parts[1]).Some?
  }

  function FieldValue(hhmm: string, k: nat): int
    requires ClockFields(hhmm) && k < 2
  {
    var parts := Split(hhmm, ':');
    if k == 0 then StrToNumber(parts[0]).value else StrToNumber(parts[1]).value
  }

  /** Splitting `a + [sep] + b` where neither part holds the separator gives
      exactly the two parts. */
  lemma {:induction false} SplitTwo(a: string, b: string, sep: char)
    requires sep !in a && sep !in b
    ensures Split(a + [sep] + b, sep) == [a, b]
  {
    if |a| == 0 {
      assert a + [sep] + b == [sep] + b;
      assert ([sep] + b)[1..] == b;
      SplitOne(b, sep);
    } else {
      assert (a + [sep] + b)[1..] == a[1..] + [sep] + b;
      SplitTwo(a[1..], b, sep);
      assert [a[0]] + a[1..] == a;
    }
  }

  /** A string without the separator splits into itself. */
  lemma {:induction false} SplitOne(b: string, sep: char)
    requires sep !in b
    ensures Split(b, sep) == [b]
  {
    if |b| > 0 {
      SplitOne(b[1..], sep);
      assert [b[0]] + b[1..] == b;
    }
  }

  /** `parseHHMM("H:M")` for digit strings H and M reads back H and M. */
  lemma ParseHHMMOfDigits(hh: string, mm: string)
    requires IsDigitString(hh) && IsDigitString(mm)
    ensures ParseHHMM(hh + ":" + mm) == HourMinute(DigitsValue(hh), DigitsValue(mm))
  {
    assert ':' !in hh by { forall i | 0 <= i < |hh| ensures hh[i] != ':' { assert IsDigit(hh[i]); } }
    assert ':' !in mm by { forall i | 0 <= i < |mm| ensures mm[i] != ':' { assert IsDigit(mm[i]); } }
    assert hh + ":" + mm == hh + [':'] + mm;
    SplitTwo(hh, mm, ':');
    DigitStringNumber(hh);
    DigitStringNumber(mm);
  }

  /** A bare hour with no ':' reads as that hour and minute 0. */
  lemma ParseHHMMHourOnly(hh: string)
    requires IsDigitString(hh)
    ensures ParseHHMM(hh) == HourMinute(DigitsValue(hh), 0)
  {
    assert ':' !in hh by { forall i | 0 <= i < |hh| ensures hh[i] != ':' { assert IsDigit(hh[i]); } }
    SplitOne(hh, ':');
    DigitStringNumber(hh);
  }

  /** In "H:M", a field holding a character that is neither a digit nor
      whitespace reads as 0, and the other field is unaffected. */
  lemma ParseHHMMNonNumeric(hh: string, mm: string)
    requires ':' !in hh && ':' !in mm
    ensures (exists k :: 0 <= k < |hh| && !IsDigit(hh[k]) && !IsSpace(hh[k])) ==> ParseHHMM(hh + ":" + mm).h == 0
    ensures (exists k :: 0 <= k < |mm| && !IsDigit(mm[k]) && !IsSpace(mm[k])) ==> ParseHHMM(hh + ":" + mm).m == 0
  {
    assert hh + ":" + mm == hh + [':'] + mm;
    SplitTwo(hh, mm, ':');
    if k :| 0 <= k < |hh| && !IsDigit(hh[k]) && !IsSpace(hh[k]) {
      NotNumeric(hh, k);
    }
    if k :| 0 <= k < |mm| && !IsDigit(mm[k]) && !IsSpace(mm[k]) {
      NotNumeric(mm, k);
    }
  }

  /** The two clock readers agree wherever `toTs` is defined: the slot
      controllers' `parseHHMM` positions the walk at the second `toTs` gives. */
  lemma ClockSecondOfFields(day: int, str: string)
    requires ClockFields(str)
    ensures ToTs(day, str).Some? && ClockSecond(day, str) == ToTs(day, str).value
  {
  }

  /** Where they part: a bare hour with no ':' is NaN for `toTs`, while
      `parseHHMM` reads it as that hour with minute 0. */
  lemma ClockSecondOfHour(day: int, str: string)
    requires ':' !in str && StrToNumber(str).Some?
    ensures ToTs(day, str).None? && ClockSecond(day, str) == Instant(day, StrToNumber(str).value, 0)
  {
    SplitOne(str, ':');
  }

  /** `toTs(date, "H:M")` for digit strings H and M is the day's first second
      plus 3600·H + 60·M. */
  lemma ToTsOfDigits(day: int, hh: string, mm: string)
    requires IsDigitString(hh) && IsDigitString(mm)
    ensures ToTs(day, hh + ":" + mm) == Some(Instant(day, DigitsValue(hh), DigitsValue(mm)))
  {
    assert ':' !in hh by { forall i | 0 <= i < |hh| ensures hh[i] != ':' { assert IsDigit(hh[i]); } }
    assert ':' !in mm by { forall i | 0 <= i < |mm| ensures mm[i] != ':' { assert IsDigit(mm[i]); } }
    assert hh + ":" + mm == hh + [':'] + mm;
    SplitTwo(hh, mm, ':');
    ToTsOfFields(day, hh + ":" + mm, hh, mm);
  }

  /** `toTs` of a string whose two ':'-separated fields are digit strings. */
  lemma ToTsOfFields(day: int, str: string, hh: string, mm: string)
    requires IsDigitString(hh) && IsDigitString(mm)
    requires Split(str, ':') == [hh, mm]
    ensures ToTs(day, str) == Some(Instant(day, DigitsValue(hh), DigitsValue(mm)))
  {
    DigitStringNumber(hh);
    DigitStringNumber(mm);
  }

  /** `toTs` is monotone in the clock time it reads: a later (hour, minute) pair
      within the same day never gives an earlier timestamp. */
  lemma ToTsMonotone(day: int, hh1: string, mm1: string, hh2: string, mm2: string)
    requires IsDigitString(hh1) && IsDigitString(mm1) && IsDigitString(hh2) && IsDigitString(mm2)
    requires DigitsValue(hh1) * 60 + DigitsValue(mm1) <= DigitsValue(hh2) * 60 + DigitsValue(mm2)
    ensures ToTs(day, hh1 + ":" + mm1).Some? && ToTs(day, hh2 + ":" + mm2).Some?
    ensures ToTs(day, hh1 + ":" + mm1).value <= ToTs(day, hh2 + ":" + mm2).value
  {
    ToTsOfDigits(day, hh1, mm1);
    ToTsOfDigits(day, hh2, mm2);
  }

  /** A clinic's shift hours "HH:MM-HH:MM", as `parseHours` returns them. */
  datatype Hours = Hours(start: string, end: string)

  /** `parseHours`: None for an empty string or when the text before or after
      the first '-' is empty; otherwise both sides, trimmed. */
  function ParseHours(hh: string): (r: Option<Hours>)
    ensures r.None? <==> hh == "" || Split(hh, '-')[0] == ""
                          || |Split(hh, '-')| < 2 || Split(hh, '-')[1] == ""
    ensures r.Some? ==> r.value == Hours(Trim(Split(hh, '-')[0]), Trim(Split(hh, '-')[1]))
  {
    if hh == "" then None
    else
      var parts := Split(hh, '-');
      var s := parts[0];
      if s == "" || |parts| < 2 || parts[1] == "" then None
      else Some(Hours(Trim(s), Trim(parts[1])))
  }

  /** The clinic's open days: `open_days.split(',').map(trim).filter(Boolean)`. */
  function OpenDays(s: string): (open: seq<string>)
    ensures forall i :: 0 <= i < |open| ==> open[i] != "" && ',' !in open[i]
  {
    SplitJoin(s, ',');
    TrimmedNonEmpty(Split(s, ','))
  }

  /** `parts.map(trim).filter(Boolean)`: the trimmed pieces that are not
      empty, in order. */
  function TrimmedNonEmpty(parts: seq<string>): (r: seq<string>)
    requires forall k :: 0 <= k < |parts| ==> ',' !in parts[k]
    ensures forall i :: 0 <= i < |r| ==> r[i] != "" && ',' !in r[i]
    ensures |r| <= |parts|
  {
    if |parts| == 0 then []
    else
      var t := Trim(parts[0]);
      TrimWithin(parts[0]);
      (if t != "" then [t] else []) + TrimmedNonEmpty(parts[1..])
  }

  /** Trimming keeps only characters of the text. */
  lemma TrimWithin(x: string)
    ensures forall c :: c in Trim(x) ==> c in x
  {
    var t := Trim(x);
    forall c | c in t ensures c in x {
      var i :| 0 <= i < |t| && t[i] == c;
      assert x[LeadingSpaces(x) + i] == c;
    }
  }

  /** Some piece trims to `x`. */
  predicate TrimsTo(parts: seq<string>, x: string)
  {
    exists k :: 0 <= k < |parts| && Trim(parts[k]) == x
  }

  /** The filtered list holds exactly the non-empty trimmed pieces. */
  lemma {:induction false} TrimmedNonEmptyMembers(parts: seq<string>)
    requires forall k :: 0 <= k < |parts| ==> ',' !in parts[k]
    ensures forall x :: x in TrimmedNonEmpty(parts) <==> x != "" && TrimsTo(parts, x)
  {
    if |parts| > 0 {
      var t := Trim(parts[0]);
      TrimmedNonEmptyMembers(parts[1..]);
      assert TrimmedNonEmpty(parts) == (if t != "" then [t] else []) + TrimmedNonEmpty(parts[1..]);
      forall x ensures TrimsTo(parts, x) <==> t == x || TrimsTo(parts[1..], x) {
        TrimsToCons(parts, x);
      }
    }
  }

  lemma TrimsToCons(parts: seq<string>, x: string)
    requires |parts| > 0
    ensures TrimsTo(parts, x) <==> Trim(parts[0]) == x || TrimsTo(parts[1..], x)
  {
    if TrimsTo(parts, x) {
      var k :| 0 <= k < |parts| && Trim(parts[k]) == x;
      if k > 0 { assert parts[1..][k - 1] == parts[k]; }
    }
    if TrimsTo(parts[1..], x) {
      var k :| 0 <= k < |parts[1..]| && Trim(parts[1..][k]) == x;
      assert parts[k + 1] == parts[1..][k];
    }
  }

  /** A day is open exactly when some comma-separated entry of the setting
      trims to its name. */
  lemma OpenDaysMembers(s: string)
    ensures forall x :: x in OpenDays(s) <==> x != "" && TrimsTo(Split(s, ','), x)
  {
    SplitJoin(s, ',');
    TrimmedNonEmptyMembers(Split(s, ','));
  }
}
