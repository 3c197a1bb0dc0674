/** The dashboard's calendar events list: the event-type filter, the add-event
    form with its validation, and the local-to-UTC shift it applies to the time
    of a custom event before handing it to `onAddEvent`. */
module CalendarView {
  import opened Wrappers
  import opened Text
  import opened JsonModel
  import opened Dates
  import opened Seqs

  // ---------------------------------------------------------------- the type filter

  const AllEvents := "all"

  /** `event.type === filter`: the event's type is that very string. */
  predicate HasType(filter: string, ev: Record)
  {
    Get(ev, "type", JNull) == JStr(filter)
  }

  function TypeIs(filter: string): Record -> bool
  {
    ev => HasType(filter, ev)
  }

  /** The events shown under the selected filter: all of them under "all",
      otherwise exactly those of that type, in their order. */
  function FilteredEvents(events: seq<Record>, filter: string): (r: seq<Record>)
    ensures filter == AllEvents ==> r == events
    ensures IsSubsequence(r, events)
    ensures forall ev :: ev in r <==> ev in events && (filter == AllEvents || HasType(filter, ev))
  {
    if filter == AllEvents then
      assert SubsequenceVia(events, events, seq(|events|, i => i));
      events
    else
      FilterIsSubsequence(TypeIs(filter), events);
      FilterMembershipAll(TypeIs(filter), events);
      Filter(TypeIs(filter), events)
  }

  lemma FilterMembershipAll(p: Record -> bool, s: seq<Record>)
    ensures forall x :: x in Filter(p, s) <==> x in s && p(x)
  {
    forall x {
      FilterMembership(p, s, x);
    }
  }

  // ---------------------------------------------------------------- the time shift

  /** A time of day as hours and minutes. */
  datatype ClockTime = ClockTime(hour: int, minute: int)

  /** JavaScript's `%` on integers: the remainder has the sign of the dividend. */
  function JsRem(a: int, b: int): (r: int)
    requires b > 0
    ensures a >= 0 ==> r == a % b
    ensures a < 0 ==> r == -((-a) % b)
  {
    if a >= 0 then a % b else -((-a) % b)
  }

  /** `((x % 24) + 24) % 24` in JavaScript is the non-negative remainder. */
  lemma WrapHours(x: int)
    ensures JsRem(JsRem(x, 24) + 24, 24) == x % 24
  {
    if x < 0 {
      var q := (-x) / 24;
      var r := (-x) % 24;
      assert -x == 24 * q + r;
      if r == 0 {
        assert x == 24 * (-q);
      } else {
        assert x == 24 * (-q - 1) + (24 - r);
      }
    }
  }

  /** The offset's whole hours and remaining minutes, subtracted from the entered
      time for a zone ahead of UTC (`tz <= 0`) and added otherwise. */
  function ApplyOffset(h: int, m: int, tz: int): (r: ClockTime)
    ensures r.hour * 60 + r.minute == h * 60 + m + tz
    ensures m - 60 < r.minute < m + 60
  {
    var magnitude := if tz < 0 then -tz else tz;
    var offsetHours := magnitude / 60;
    var offsetMinutes := JsRem(magnitude, 60);
    assert magnitude == offsetHours * 60 + offsetMinutes;
    if tz <= 0 then ClockTime(h - offsetHours, m - offsetMinutes)
    else ClockTime(h + offsetHours, m + offsetMinutes)
  }

  /** The minute underflow step: a negative minute borrows an hour. */
  function Borrow(t: ClockTime): (r: ClockTime)
    ensures r.hour * 60 + r.minute == t.hour * 60 + t.minute
    ensures t.minute > -60 ==> r.minute >= 0
    ensures r.minute < 60 || r == t
  {
    if t.minute < 0 then ClockTime(t.hour - 1, t.minute + 60) else t
  }

  /** The minute overflow step: a minute of 60 or more carries one hour. */
  function Carry(t: ClockTime): (r: ClockTime)
    ensures r.hour * 60 + r.minute == t.hour * 60 + t.minute
    ensures 0 <= t.minute < 120 ==> 0 <= r.minute < 60
    ensures 0 <= t.minute < 160 ==> 0 <= r.minute < 100
  {
    if t.minute >= 60 then ClockTime(t.hour + 1, t.minute - 60) else t
  }

  /** `adjustTimeForBackend` as written, on the hours `h` and minutes `m` of the
      entered time and `tz = getTimezoneOffset()` (UTC minus local, in minutes):
      the offset is applied, one borrow and one carry between minutes and hours
      follow, and the hours are wrapped with `((h % 24) + 24) % 24`. */
  function AdjustAsWritten(h: int, m: int, tz: int): (r: ClockTime)
    ensures 0 <= r.hour < 24
    ensures 0 <= m < 100 ==> 0 <= r.minute < 100
  {
    var t := Carry(Borrow(ApplyOffset(h, m, tz)));
    WrapHours(t.hour);
    ClockTime(JsRem(JsRem(t.hour, 24) + 24, 24), t.minute)
  }

  /** The shift as it is evidently meant: the entered minute of the day moved by
      `tz` minutes, modulo a day. */
  function AdjustTime(h: int, m: int, tz: int): (r: ClockTime)
    ensures 0 <= r.hour < 24 && 0 <= r.minute < 60
    ensures r.hour * 60 + r.minute == (h * 60 + m + tz) % MinutesPerDay
  {
    var total := (h * 60 + m + tz) % MinutesPerDay;
    ClockTime(total / 60, total % 60)
  }

  lemma ModOfDay(total: int, hour: int, minute: int)
    requires 0 <= minute < 60
    requires total == hour * 60 + minute
    ensures (hour % 24) * 60 + minute == total % MinutesPerDay
  {
    var q := hour / 24;
    var r := hour % 24;
    assert hour == 24 * q + r;
    assert total == MinutesPerDay * q + (r * 60 + minute);
    assert 0 <= r * 60 + minute < MinutesPerDay;
  }

  /** Two times of the day are equal when their minutes of the day are. */
  lemma SameMinuteOfDay(a: ClockTime, b: ClockTime)
    requires 0 <= a.minute < 60 && 0 <= b.minute < 60
    requires a.hour * 60 + a.minute == b.hour * 60 + b.minute
    ensures a == b
  {
    assert (a.hour - b.hour) * 60 == b.minute - a.minute;
  }

  /** For every time whose minutes are 0..59 (all the browser's time picker
      produces), the code as written computes the modular shift. */
  lemma AsWrittenShiftsModulo(h: int, m: int, tz: int)
    requires 0 <= m < 60
    ensures AdjustAsWritten(h, m, tz) == AdjustTime(h, m, tz)
  {
    var t := Carry(Borrow(ApplyOffset(h, m, tz)));
    assert t.hour * 60 + t.minute == h * 60 + m + tz && 0 <= t.minute < 60;
    WrapHours(t.hour);
    ModOfDay(h * 60 + m + tz, t.hour, t.minute);
    SameMinuteOfDay(AdjustAsWritten(h, m, tz), AdjustTime(h, m, tz));
  }

  /** The regular expression accepts minutes 60 to 99, and for a zone behind UTC
      with a half-hour part the code then prints a minute of 60 or more:
      "10:95" at `tz = 210` becomes "14:65"; the modular shift gives "15:05". */
  lemma MinutesOverflowExample()
    ensures AdjustAsWritten(10, 95, 210) == ClockTime(14, 65)
    ensures TimeText(AdjustAsWritten(10, 95, 210)) == "14:65"
    ensures AdjustTime(10, 95, 210) == ClockTime(15, 5)
    ensures TimeText(AdjustTime(10, 95, 210)) == "15:05"
  {
    assert JsRem(210, 60) == 30;
    assert JsRem(JsRem(14, 24) + 24, 24) == 14;
  }

  /** `${String(h).padStart(2, '0')}:${String(m).padStart(2, '0')}`. */
  function TimeText(t: ClockTime): string
  {
    Pad2(t.hour) + ":" + Pad2(t.minute)
  }

  /** The text `^\d{2}:\d{2}$` accepts. */
  predicate TimeFormat(s: string)
  {
    |s| == 5 && IsDigit(s[0]) && IsDigit(s[1]) && s[2] == ':' && IsDigit(s[3]) && IsDigit(s[4])
  }

  /** The text `^\d{4}-\d{2}-\d{2}$` accepts. */
  predicate DateFormat(s: string)
  {
    |s| == 10 && DateShape(s)
  }

  /** `timeString.split(':').map(Number)` on a validated time. */
  function TimeOfText(s: string): (t: ClockTime)
    requires TimeFormat(s)
    ensures 0 <= t.hour < 100 && 0 <= t.minute < 100
  {
    TwoDigits(s[0..2]);
    TwoDigits(s[3..5]);
    ClockTime(DigitsValue(s[0..2]), DigitsValue(s[3..5]))
  }

  lemma TwoDigits(s: string)
    requires |s| == 2 && IsDigit(s[0]) && IsDigit(s[1])
    ensures DigitsValue(s) == DigitValue(s[0]) * 10 + DigitValue(s[1]) < 100
  {
    var first := s[..1];
    assert first[..0] == [];
    assert DigitsValue(first) == DigitValue(s[0]);
    assert DigitsValue(s) == DigitsValue(first) * 10 + DigitValue(s[1]);
  }

  /** The UTC time text sent for an entered time: always a valid `HH:MM`. */
  function AdjustText(s: string, tz: int): (r: string)
    requires TimeFormat(s)
    ensures TimeFormat(r)
  {
    var t := AdjustTime(TimeOfText(s).hour, TimeOfText(s).minute, tz);
    DigitsOfPad2(t.hour);
    DigitsOfPad2(t.minute);
    TimeText(t)
  }

  /** The UTC time text `adjustTimeForBackend` returns for a validated time: always
      of the `HH:MM` shape (the minutes may reach 60 to 99 when the entered minutes
      do), and the modular shift for entered minutes 0 to 59. */
  function AdjustTextAsWritten(s: string, tz: int): (r: string)
    requires TimeFormat(s)
    ensures TimeFormat(r)
    ensures TimeOfText(s).minute < 60 ==> r == AdjustText(s, tz)
  {
    var entered := TimeOfText(s);
    var t := AdjustAsWritten(entered.hour, entered.minute, tz);
    DigitsOfPad2(t.hour);
    DigitsOfPad2(t.minute);
    assert entered.minute < 60 ==> TimeText(t) == AdjustText(s, tz) by {
      if entered.minute < 60 {
        AsWrittenShiftsModulo(entered.hour, entered.minute, tz);
      }
    }
    TimeText(t)
  }

  /** With `getTimezoneOffset() = -330` (India), "10:00" is sent as "04:30" and
      "00:15" as "18:45". */
  lemma IndiaExamples()
    ensures AdjustTime(10, 0, -330) == ClockTime(4, 30)
    ensures AdjustTime(0, 15, -330) == ClockTime(18, 45)
    ensures AdjustAsWritten(10, 0, -330) == ClockTime(4, 30)
    ensures AdjustAsWritten(0, 15, -330) == ClockTime(18, 45)
    ensures TimeText(ClockTime(4, 30)) == "04:30" && TimeText(ClockTime(18, 45)) == "18:45"
  {
    AsWrittenShiftsModulo(10, 0, -330);
    AsWrittenShiftsModulo(0, 15, -330);
  }

  /** `adjustTimeForBackend` step by step, as the component runs it. */
  method AdjustTimeForBackend(timeString: string, tz: int) returns (formatted: string)
    requires TimeFormat(timeString)
    ensures formatted == AdjustTextAsWritten(timeString, tz)
    ensures TimeFormat(formatted)
    ensures TimeOfText(timeString).minute < 60 ==> formatted == AdjustText(timeString, tz)
  {
    var hours := TimeOfText(timeString).hour;
    var minutes := TimeOfText(timeString).minute;
    var magnitude := if tz < 0 then -tz else tz;
    var offsetHours := magnitude / 60;
    var offsetMinutes := JsRem(magnitude, 60);
    assert ClockTime(hours, minutes) == TimeOfText(timeString);
    var utcHours, utcMinutes;
    if tz <= 0 {
      utcHours := hours - offsetHours;
      utcMinutes := minutes - offsetMinutes;
    } else {
      utcHours := hours + offsetHours;
      utcMinutes := minutes + offsetMinutes;
    }
    assert ClockTime(utcHours, utcMinutes) == ApplyOffset(hours, minutes, tz);
    if utcMinutes < 0 {
      utcHours := utcHours - 1;
      utcMinutes := utcMinutes + 60;
    }
    assert ClockTime(utcHours, utcMinutes) == Borrow(ApplyOffset(hours, minutes, tz));
    if utcMinutes >= 60 {
      utcHours := utcHours + 1;
      utcMinutes := utcMinutes - 60;
    }
    assert ClockTime(utcHours, utcMinutes) == Carry(Borrow(ApplyOffset(hours, minutes, tz)));
    utcHours := JsRem(JsRem(utcHours, 24) + 24, 24);
    assert ClockTime(utcHours, utcMinutes) == AdjustAsWritten(hours, minutes, tz);
    formatted := Pad2(utcHours) + ":" + Pad2(utcMinutes);
    assert formatted == TimeText(AdjustAsWritten(hours, minutes, tz));
  }

  // ---------------------------------------------------------------- the add-event form

  const DateAlert := "Please enter a valid date in YYYY-MM-DD format"
  const TimeAlert := "Please enter a valid time in HH:MM format"

  /** The object handed to `onAddEvent`; `time` is None for `null`. */
  datatype EventData = EventData(title: string, description: string, date: string, time: Option<string>, kind: string)

  /** What a submission does: an alert (nothing is sent), or the event sent. */
  datatype Submission = Alert(message: string) | Sent(data: EventData)

  const FormKeys: set<string> := {"title", "description", "date", "time", "type"}

  /** The form's state when it is first shown and after each accepted submission. */
  const BlankForm: map<string, string> :=
    map["title" := "", "description" := "", "date" := "", "time" := "", "type" := "custom"]

  /** `handleSubmit` on the form's fields with `tz = getTimezoneOffset()`. */
  function SubmitOutcome(form: map<string, string>, tz: int): Submission
    requires FormKeys <= form.Keys
  {
    var date := form["date"];
    var time := form["time"];
    if !DateFormat(date) then Alert(DateAlert)
    else if time != "" && !TimeFormat(time) then Alert(TimeAlert)
    else Sent(EventData(form["title"], form["description"], date,
                        if time != "" then Some(AdjustTextAsWritten(time, tz)) else None, "custom"))
  }

  /** Nothing is sent unless the date has the `YYYY-MM-DD` shape and a non-empty
      time the `HH:MM` shape; a bad date is reported before a bad time. */
  lemma SubmitValidates(form: map<string, string>, tz: int)
    requires FormKeys <= form.Keys
    ensures SubmitOutcome(form, tz).Sent?
        <==> DateFormat(form["date"]) && (form["time"] == "" || TimeFormat(form["time"]))
    ensures !DateFormat(form["date"]) ==> SubmitOutcome(form, tz) == Alert(DateAlert)
  {
  }

  /** A sent event is a custom event with the entered title, description and
      date, no time when none was entered, and otherwise the entered time moved
      to UTC, itself of the `HH:MM` shape, and shifted modulo a day whenever the
      entered minutes are 0 to 59. */
  lemma SentPayload(form: map<string, string>, tz: int)
    requires FormKeys <= form.Keys
    requires SubmitOutcome(form, tz).Sent?
    ensures var e := SubmitOutcome(form, tz).data;
      && e.kind == "custom" && e.title == form["title"] && e.description == form["description"]
      && e.date == form["date"] && DateFormat(e.date)
      && (e.time.None? <==> form["time"] == "")
      && (e.time.Some? ==> TimeFormat(e.time.value))
      && (e.time.Some? && TimeOfText(form["time"]).minute < 60 ==>
            var t := TimeOfText(form["time"]);
               TimeOfText(e.time.value).hour * 60 + TimeOfText(e.time.value).minute
                 == (t.hour * 60 + t.minute + tz) % MinutesPerDay)
  {
    var time := form["time"];
    if time != "" {
      var t := TimeOfText(time);
      var a := AdjustTime(t.hour, t.minute, tz);
      SentTimeIsRead(a);
    }
  }

  /** The `HH:MM` text of a valid time reads back as that time. */
  lemma SentTimeIsRead(a: ClockTime)
    requires 0 <= a.hour < 24 && 0 <= a.minute < 60
    ensures TimeFormat(TimeText(a)) && TimeOfText(TimeText(a)) == a
  {
    DigitsOfPad2(a.hour);
    DigitsOfPad2(a.minute);
    var s := TimeText(a);
    assert s[0..2] == Pad2(a.hour) && s[3..5] == Pad2(a.minute);
  }

  /** The component's state: the selected filter, whether the form is shown, and
      the form's fields by input name. */
  class CalendarEventsList {
    var filter: string
    var showAddForm: bool
    var newEvent: map<string, string>

    ghost predicate Valid()
      reads this
    {
      FormKeys <= newEvent.Keys
    }

    constructor()
      ensures Valid()
      ensures filter == AllEvents && !showAddForm && newEvent == BlankForm
    {
      filter := AllEvents;
      showAddForm := false;
      newEvent := BlankForm;
    }

    /** The events the table lists. */
    function Shown(events: seq<Record>): (r: seq<Record>)
      reads this
      ensures IsSubsequence(r, events)
    {
      FilteredEvents(events, filter)
    }

    method SetFilter(value: string)
      modifies this
      ensures filter == value
      ensures showAddForm == old(showAddForm) && newEvent == old(newEvent)
    {
      filter := value;
    }

    method ToggleAddForm()
      modifies this
      ensures showAddForm == !old(showAddForm)
      ensures filter == old(filter) && newEvent == old(newEvent)
    {
      showAddForm := !showAddForm;
    }

    /** The form's Cancel button: the form is hidden and its fields are kept. */
    method CancelAddForm()
      modifies this
      ensures !showAddForm
      ensures filter == old(filter) && newEvent == old(newEvent)
    {
      showAddForm := false;
    }

    /** `handleInputChange`: the field of that name takes the new value. */
    method HandleInputChange(name: string, value: string)
      requires Valid()
      modifies this
      ensures Valid()
      ensures newEvent == old(newEvent)[name := value]
      ensures filter == old(filter) && showAddForm == old(showAddForm)
    {
      newEvent := newEvent[name := value];
    }

    /** `handleSubmit`: an alert leaves everything as it was; a sent event resets
        the form to blank and hides it. */
    method HandleSubmit(tz: int) returns (r: Submission)
      requires Valid()
      modifies this
      ensures Valid()
      ensures r == SubmitOutcome(old(newEvent), tz)
      ensures r.Sent? ==> newEvent == BlankForm && !showAddForm
      ensures r.Alert? ==> newEvent == old(newEvent) && showAddForm == old(showAddForm)
      ensures filter == old(filter)
    {
      var date := newEvent["date"];
      var time := newEvent["time"];
      if !DateFormat(date) {
        return Alert(DateAlert);
      }
      if time != "" && !TimeFormat(time) {
        return Alert(TimeAlert);
      }
      var sentTime: Option<string> := None;
      if time != "" {
        var utc := AdjustTimeForBackend(time, tz);
      sentTime := Some(utc);
      }
      var eventData := EventData(newEvent["title"], newEvent["description"], date, sentTime, "custom");
      newEvent := BlankForm;
      showAddForm := false;
      return Sent(eventData);
    }
  }
}
