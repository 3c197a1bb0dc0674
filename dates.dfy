/** Calendar dates, times of day and the clock readings the temporal rules compare
    against, with the ISO-8601 text forms the source parses and prints. */
module Dates {
  import opened Wrappers
  import opened Text

  const MinutesPerDay := 1440
  const MicrosPerMinute := 60000000

  datatype Date = Date(year: int, month: int, day: int)

  predicate IsLeap(y: int)
  {
    y % 4 == 0 && (y % 100 != 0 || y % 400 == 0)
  }

  function DaysInMonth(y: int, m: int): int
    requires 1 <= m <= 12
  {
    if m == 2 then (if IsLeap(y) then 29 else 28)
    else if m == 4 || m == 6 || m == 9 || m == 11 then 30
    else 31
  }

  /** A date Python's `datetime.date` accepts (years 1 to 9999). */
  predicate ValidDate(d: Date)
  {
    1 <= d.year <= 9999 && 1 <= d.month <= 12 && 1 <= d.day <= DaysInMonth(d.year, d.month)
  }

  /** Chronological order on dates. */
  predicate DateLess(a: Date, b: Date)
  {
    a.year < b.year || (a.year == b.year && (a.month < b.month || (a.month == b.month && a.day < b.day)))
  }

  predicate DateAtMost(a: Date, b: Date)
  {
    a == b || DateLess(a, b)
  }

  lemma DateOrderTotal(a: Date, b: Date)
    ensures DateLess(a, b) || a == b || DateLess(b, a)
    ensures !(DateLess(a, b) && DateLess(b, a))
  {
  }

  /** The following day; only 9999-12-31 has no valid successor. */
  function NextDay(d: Date): (r: Date)
    requires ValidDate(d)
    ensures DateLess(d, r)
    ensures ValidDate(r) || d == Date(9999, 12, 31)
    ensures forall e :: ValidDate(e) && DateLess(d, e) ==> DateAtMost(r, e)
  {
    if d.day < DaysInMonth(d.year, d.month) then Date(d.year, d.month, d.day + 1)
    else if d.month < 12 then Date(d.year, d.month + 1, 1)
    else Date(d.year + 1, 1, 1)
  }

  /** The preceding day; only 0001-01-01 has no valid predecessor. */
  function PrevDay(d: Date): (r: Date)
    requires ValidDate(d)
    ensures DateLess(r, d)
    ensures ValidDate(r) || d == Date(1, 1, 1)
    ensures forall e :: ValidDate(e) && DateLess(e, d) ==> DateAtMost(e, r)
  {
    if d.day > 1 then Date(d.year, d.month, d.day - 1)
    else if d.month > 1 then Date(d.year, d.month - 1, DaysInMonth(d.year, d.month - 1))
    else Date(d.year - 1, 12, 31)
  }

  /** A due instant: a date and a minute of the day, with zero seconds. */
  datatype Moment = Moment(date: Date, minute: int)

  predicate ValidMoment(m: Moment)
  {
    ValidDate(m.date) && 0 <= m.minute < MinutesPerDay
  }

  /** A reading of `datetime.now()`: a date, a minute of the day, and the
      microseconds elapsed within that minute. */
  datatype Clock = Clock(date: Date, minute: int, micros: int)

  predicate ValidClock(c: Clock)
  {
    ValidDate(c.date) && 0 <= c.minute < MinutesPerDay && 0 <= c.micros < MicrosPerMinute
  }

  /** The clock reading that is exactly the moment `m`. */
  function AtMoment(m: Moment): Clock
  {
    Clock(m.date, m.minute, 0)
  }

  /** `datetime(m) > now`. */
  predicate After(m: Moment, now: Clock)
  {
    DateLess(now.date, m.date) || (m.date == now.date && m.minute > now.minute)
  }

  /** `datetime(m) < now`. */
  predicate Before(m: Moment, now: Clock)
  {
    DateLess(m.date, now.date)
    || (m.date == now.date && (m.minute < now.minute || (m.minute == now.minute && now.micros > 0)))
  }

  /** The two strict comparisons are the two sides of equality: a due moment is
      either after now, before now, or exactly now (and then now has no sub-minute part). */
  lemma Trichotomy(m: Moment, now: Clock)
    requires ValidClock(now)
    ensures After(m, now) || Before(m, now) || AtMoment(m) == now
    ensures !(After(m, now) && Before(m, now))
    ensures AtMoment(m) == now ==> !After(m, now) && !Before(m, now)
  {
  }

  /** Clock `a` reads no later than clock `b`. */
  predicate ClockAtMost(a: Clock, b: Clock)
  {
    DateLess(a.date, b.date)
    || (a.date == b.date && (a.minute < b.minute || (a.minute == b.minute && a.micros <= b.micros)))
  }

  /** A moment still ahead of a clock reading was ahead of every earlier reading,
      and one already behind a reading stays behind at every later one. */
  lemma ComparisonsAreMonotone(m: Moment, now: Clock, later: Clock)
    requires ClockAtMost(now, later)
    ensures After(m, later) ==> After(m, now)
    ensures Before(m, now) ==> Before(m, later)
  {
  }

  /** Moment `m` shifted by `offset` minutes (Python's `astimezone()` with a fixed
      UTC offset); None when the result leaves the years 1 to 9999 (OverflowError). */
  function Shift(m: Moment, offset: int): (r: Option<Moment>)
    requires ValidMoment(m) && -MinutesPerDay < offset < MinutesPerDay
    ensures r.Some? ==> ValidMoment(r.value)
    ensures r.Some? ==> r.value.minute == (m.minute + offset) % MinutesPerDay
  {
    var total := m.minute + offset;
    if total < 0 then
      var d := PrevDay(m.date);
      if ValidDate(d) then Some(Moment(d, total + MinutesPerDay)) else None
    else if total >= MinutesPerDay then
      var d := NextDay(m.date);
      if ValidDate(d) then Some(Moment(d, total - MinutesPerDay)) else None
    else Some(Moment(m.date, total))
  }

  // ---------------------------------------------------------------- ISO-8601 text

  predicate DigitsAt(s: string, lo: int, hi: int)
  {
    0 <= lo <= hi <= |s| && forall k :: lo <= k < hi ==> IsDigit(s[k])
  }

  function NumberAt(s: string, lo: int, hi: int): nat
    requires DigitsAt(s, lo, hi)
  {
    DigitsValue(s[lo..hi])
  }

  /** The text has the shape `YYYY-MM-DD` in its first ten characters. */
  predicate DateShape(s: string)
  {
    |s| >= 10 && DigitsAt(s, 0, 4) && s[4] == '-' && DigitsAt(s, 5, 7) && s[7] == '-' && DigitsAt(s, 8, 10)
  }

  function DateFromShape(s: string): Date
    requires DateShape(s)
  {
    Date(NumberAt(s, 0, 4), NumberAt(s, 5, 7), NumberAt(s, 8, 10))
  }

  /** `date.fromisoformat(s)` on the `YYYY-MM-DD` form. */
  function ParseIsoDate(s: string): (r: Option<Date>)
    ensures r.Some? ==> ValidDate(r.value)
  {
    if |s| == 10 && DateShape(s) && ValidDate(DateFromShape(s)) then Some(DateFromShape(s)) else None
  }

  /** A naive `datetime` with whole seconds. */
  datatype DateTime = DateTime(date: Date, hour: int, minute: int, second: int)

  predicate ValidDateTime(t: DateTime)
  {
    ValidDate(t.date) && 0 <= t.hour < 24 && 0 <= t.minute < 60 && 0 <= t.second < 60
  }

  /** `datetime.fromisoformat(s)` on the forms `YYYY-MM-DD`, `YYYY-MM-DDTHH:MM`
      and `YYYY-MM-DDTHH:MM:SS`; None when it raises ValueError. */
  function ParseIsoDateTime(s: string): (r: Option<DateTime>)
    ensures r.Some? ==> ValidDateTime(r.value)
  {
    if !DateShape(s) then None
    else
      var d := DateFromShape(s);
      var t :=
        if |s| == 10 then Some(DateTime(d, 0, 0, 0))
        else if |s| == 16 && s[10] == 'T' && DigitsAt(s, 11, 13) && s[13] == ':' && DigitsAt(s, 14, 16) then
          Some(DateTime(d, NumberAt(s, 11, 13), NumberAt(s, 14, 16), 0))
        else if |s| == 19 && s[10] == 'T' && DigitsAt(s, 11, 13) && s[13] == ':' && DigitsAt(s, 14, 16)
                && s[16] == ':' && DigitsAt(s, 17, 19) then
          Some(DateTime(d, NumberAt(s, 11, 13), NumberAt(s, 14, 16), NumberAt(s, 17, 19)))
        else None;
      if t.Some? && ValidDateTime(t.value) then t else None
  }

  /** A bare date is read by the date-and-time parser as midnight of that date. */
  lemma DateOnlyIsMidnight(s: string)
    requires ParseIsoDate(s).Some?
    ensures ParseIsoDateTime(s) == Some(DateTime(ParseIsoDate(s).value, 0, 0, 0))
  {
  }

  /** `dt.strftime("%Y-%m-%dT%H:%M:%S")` (also what `dt.isoformat()` prints for whole seconds). */
  function FormatDateTime(t: DateTime): string
    requires t.date.year >= 0
  {
    Pad4(t.date.year) + "-" + Pad2(t.date.month) + "-" + Pad2(t.date.day)
      + "T" + Pad2(t.hour) + ":" + Pad2(t.minute) + ":" + Pad2(t.second)
  }

  /** `dt + timedelta(hours=1)`; None past 9999-12-31 (OverflowError). */
  function AddHour(t: DateTime): (r: Option<DateTime>)
    requires ValidDateTime(t)
    ensures r.Some? ==> ValidDateTime(r.value)
    ensures r.Some? ==> r.value.minute == t.minute && r.value.second == t.second
    ensures r.Some? ==> r.value.hour == (t.hour + 1) % 24
    ensures t.hour < 23 ==> r == Some(t.(hour := t.hour + 1))
    ensures t.hour == 23 ==> r.Some? ==> r.value.date == NextDay(t.date)
    ensures r.None? <==> t.hour == 23 && t.date == Date(9999, 12, 31)
  {
    if t.hour < 23 then Some(t.(hour := t.hour + 1))
    else
      var d := NextDay(t.date);
      if ValidDate(d) then Some(DateTime(d, 0, t.minute, t.second)) else None
  }

  /** `f"{year}-{month:02d}-{day:02d}"`, the text form of a Classroom due date. */
  function FormatDate(d: Date): string
  {
    IntToString(d.year) + "-" + Pad2(d.month) + "-" + Pad2(d.day)
  }

  lemma DigitsOfPad2(n: nat)
    requires n < 100
    ensures |Pad2(n)| == 2 && DigitsValue(Pad2(n)) == n
    ensures forall k :: 0 <= k < 2 ==> IsDigit(Pad2(n)[k])
  {
    DigitsOfNat(n);
    if n < 10 {
      DigitsZeroPrefix("0", NatToString(n));
    }
  }

  /** The due-date text the Classroom fetch writes is read back as the same date
      by the ISO parser the sync and filter stages use (for four-digit years). */
  lemma FormatDateRoundTrip(d: Date)
    requires ValidDate(d) && d.year >= 1000
    ensures ParseIsoDate(FormatDate(d)) == Some(d)
  {
    var y := NatToString(d.year);
    var m := Pad2(d.month);
    var dd := Pad2(d.day);
    DigitsOfNat(d.year);
    DigitsOfPad2(d.month);
    DigitsOfPad2(d.day);
    var s := FormatDate(d);
    assert s == y + "-" + m + "-" + dd;
    assert |y| == 4;
    assert s[0..4] == y && s[5..7] == m && s[8..10] == dd;
    assert DateShape(s);
    assert DateFromShape(s) == d;
  }

  lemma DigitsOfPad4(n: nat)
    requires n < 10000
    ensures |Pad4(n)| == 4 && DigitsValue(Pad4(n)) == n
    ensures forall k :: 0 <= k < 4 ==> IsDigit(Pad4(n)[k])
  {
    DigitsOfNat(n);
    if n < 10 {
      DigitsZeroPrefix("000", NatToString(n));
    } else if n < 100 {
      NatToStringLength(n, 2);
      DigitsZeroPrefix("00", NatToString(n));
    } else if n < 1000 {
      NatToStringLength(n, 3);
      DigitsZeroPrefix("0", NatToString(n));
    }
  }

  predicate DigitText(s: string, n: nat)
  {
    |s| == n && forall k :: 0 <= k < n ==> IsDigit(s[k])
  }

  /** Where the fields of a `YYYY-MM-DDTHH:MM:SS` text sit. */
  lemma IsoFields(y: string, mo: string, d: string, h: string, mi: string, se: string)
    requires DigitText(y, 4) && DigitText(mo, 2) && DigitText(d, 2)
    requires DigitText(h, 2) && DigitText(mi, 2) && DigitText(se, 2)
    ensures var s := y + "-" + mo + "-" + d + "T" + h + ":" + mi + ":" + se;
      && |s| == 19 && DateShape(s) && s[10] == 'T' && s[13] == ':' && s[16] == ':'
      && s[0..4] == y && s[5..7] == mo && s[8..10] == d
      && s[11..13] == h && s[14..16] == mi && s[17..19] == se
  {
    var s := y + "-" + mo + "-" + d + "T" + h + ":" + mi + ":" + se;
    var date := y + "-" + mo + "-" + d;
    var time := h + ":" + mi + ":" + se;
    assert s == date + "T" + time;
    assert date[0..4] == y && date[5..7] == mo && date[8..10] == d;
    assert time[0..2] == h && time[3..5] == mi && time[6..8] == se;
  }

  /** The text `strftime("%Y-%m-%dT%H:%M:%S")` prints is read back by the ISO
      parser as the same date and time. */
  lemma FormatDateTimeRoundTrip(t: DateTime)
    requires ValidDateTime(t)
    ensures ParseIsoDateTime(FormatDateTime(t)) == Some(t)
  {
    var y := Pad4(t.date.year);
    var mo := Pad2(t.date.month);
    var d := Pad2(t.date.day);
    var h := Pad2(t.hour);
    var mi := Pad2(t.minute);
    var se := Pad2(t.second);
    DigitsOfPad4(t.date.year);
    DigitsOfPad2(t.date.month);
    DigitsOfPad2(t.date.day);
    DigitsOfPad2(t.hour);
    DigitsOfPad2(t.minute);
    DigitsOfPad2(t.second);
    IsoFields(y, mo, d, h, mi, se);
  }
}
