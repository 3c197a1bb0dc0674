/** Creation of calendar events from assignments and from announcement-derived
    deadlines: the due time shown in India Standard Time, the summary text, the
    timed or all-day start and end, and the counters of the summary the two sync
    loops return. The calendar insert call is a parameter. */
module CalendarSync {
  import opened Wrappers
  import opened Text
  import opened JsonModel
  import opened Dates
  import Deduplication

  // ---------------------------------------------------------------- the IST display

  /** A time of day as a 12-hour clock shows it. */
  datatype ClockFace = ClockFace(hour: int, minute: int, meridiem: string)

  /** The minute of the day a 12-hour reading denotes. */
  function FaceMinutes(f: ClockFace): int
  {
    ((f.hour % 12) + (if f.meridiem == "PM" then 12 else 0)) * 60 + f.minute
  }

  /** The conversion of a UTC hour and minute to IST: add 5:30, carry one minute
      overflow into the hour and one hour overflow out of the day, then go to the
      12-hour form. Written for every integer pair, as the source computes it. */
  function IstFace(hour: int, minute: int): ClockFace
  {
    var istHour := hour + 5;
    var istMinute := minute + 30;
    var carried := istMinute >= 60;
    var h1 := if carried then istHour + 1 else istHour;
    var m1 := if carried then istMinute - 60 else istMinute;
    var h2 := if h1 >= 24 then h1 - 24 else h1;
    var meridiem := if h2 < 12 then "AM" else "PM";
    var h3 := if h2 <= 12 then h2 else h2 - 12;
    ClockFace(if h3 == 0 then 12 else h3, m1, meridiem)
  }

  /** For every valid time of day, the 12-hour reading is well formed and denotes
      the time 330 minutes later, wrapped into the day. */
  lemma IstIsShifted(hour: int, minute: int)
    requires 0 <= hour < 24 && 0 <= minute < 60
    ensures var f := IstFace(hour, minute);
      && 1 <= f.hour <= 12 && 0 <= f.minute < 60 && (f.meridiem == "AM" || f.meridiem == "PM")
      && FaceMinutes(f) == (hour * 60 + minute + 330) % MinutesPerDay
      && (f.meridiem == "AM" <==> (hour * 60 + minute + 330) % MinutesPerDay < 720)
  {
    var total := hour * 60 + minute + 330;
    var istMinute := minute + 30;
    var h1 := if istMinute >= 60 then hour + 6 else hour + 5;
    var m1 := if istMinute >= 60 then istMinute - 60 else istMinute;
    assert total == h1 * 60 + m1 && 0 <= m1 < 60 && 5 <= h1 <= 29;
    var h2 := if h1 >= 24 then h1 - 24 else h1;
    assert total % MinutesPerDay == h2 * 60 + m1 by {
      ModOfShifted(total, h2 * 60 + m1, if h1 >= 24 then 1 else 0);
    }
    var f := IstFace(hour, minute);
    assert f.minute == m1;
    assert f.meridiem == (if h2 < 12 then "AM" else "PM");
    assert f.hour % 12 == h2 % 12;
  }

  lemma ModOfShifted(total: int, r: int, q: int)
    requires total == r + q * MinutesPerDay && 0 <= r < MinutesPerDay
    ensures total % MinutesPerDay == r
  {
  }

  /** Midnight reads as 12 and noon as 12 (the values below are the UTC times
      that land there). */
  lemma IstNoonAndMidnight()
    ensures IstFace(18, 30) == ClockFace(12, 0, "AM")
    ensures IstFace(6, 30) == ClockFace(12, 0, "PM")
    ensures IstFace(0, 15) == ClockFace(5, 45, "AM")
    ensures IstFace(18, 45) == ClockFace(12, 15, "AM")
  {
  }

  /** The suffix `" (Due: h:mm AM IST)"` for a reading. */
  function IstText(f: ClockFace): string
  {
    " (Due: " + IntToString(f.hour) + ":" + Pad2(f.minute) + " " + f.meridiem + " IST)"
  }

  /** `int()` of the pieces of a time text before and after its first ':', with no
      range check; None when there is no second piece or a piece is not a number. */
  function TimeFields(t: string): (r: Option<(int, int)>)
    ensures r.Some? ==> Deduplication.TimeOfDay(t) == Deduplication.HourMinute(Some(r.value.0), Some(r.value.1))
  {
    var parts := Split(t, ":");
    if |parts| < 2 then None
    else
      var h := ParseInt(parts[0]);
      var m := ParseInt(parts[1]);
      if h.Some? && m.Some? then Some((h.value, m.value)) else None
  }

  /** The due-time part of a summary: empty without a time; the IST reading when
      the time splits and converts; otherwise the time as given, marked UTC. */
  function DueSuffix(svc: Services, time: Json): string
  {
    if !Truthy(time) then ""
    else if !time.JStr? then UtcText(PyStr(svc, time))
    else TimeSuffix(time.s)
  }

  /** The suffix for a due time given as text. */
  function TimeSuffix(t: string): string
  {
    match TimeFields(t)
    case None => UtcText(t)
    case Some((h, m)) => IstText(IstFace(h, m))
  }

  /** The fallback suffix `" (Due: {dueTime} UTC)"`. */
  function UtcText(shown: string): string
  {
    " (Due: " + shown + " UTC)"
  }

  lemma TimeFieldsOf(a: string, b: string, h: int, m: int)
    requires Deduplication.NoColon(a) && Deduplication.NoColon(b)
    requires ParseInt(a) == Some(h) && ParseInt(b) == Some(m)
    ensures TimeFields(a + ":" + b) == Some((h, m))
  {
    Deduplication.SplitAtColon(a, b);
  }

  /** A due time that is not text, or whose pieces do not read as numbers, is shown
      as given and marked UTC instead of failing the record. */
  lemma UnreadableTimeIsShownAsUtc(svc: Services, time: Json)
    requires Truthy(time) && (!time.JStr? || TimeFields(time.s).None?)
    ensures DueSuffix(svc, time) == UtcText(PyStr(svc, time))
  {
  }

  lemma SuffixOfFields(svc: Services, t: string, h: int, m: int)
    requires t != [] && TimeFields(t) == Some((h, m))
    ensures DueSuffix(svc, JStr(t)) == IstText(IstFace(h, m))
  {
    var j := JStr(t);
    assert Truthy(j) && j.JStr? && j.s == t;
    assert TimeSuffix(t) == IstText(IstFace(h, m));
  }

  /** A due time written `HH:MM` is shown as its IST reading. */
  lemma IstOfUtcText(svc: Services, h: nat, m: nat)
    requires h < 24 && m < 60
    ensures DueSuffix(svc, JStr(Pad2(h) + ":" + Pad2(m))) == IstText(IstFace(h, m))
  {
    var t := Pad2(h) + ":" + Pad2(m);
    assert TimeFields(t) == Some((h, m)) by {
      Deduplication.Pad2HasNoColon(h);
      Deduplication.Pad2HasNoColon(m);
      Pad2RoundTrip(h);
      Pad2RoundTrip(m);
      TimeFieldsOf(Pad2(h), Pad2(m), h, m);
    }
    SuffixOfFields(svc, t, h, m);
  }

  lemma EarlyMorningText()
    ensures IstText(ClockFace(5, 45, "AM")) == " (Due: 5:45 AM IST)"
  {
    assert IntToString(5) == "5";
    assert Pad2(45) == "45" by {
      assert NatToString(45) == NatToString(4) + [DigitChar(5)];
    }
  }

  lemma PastMidnightText()
    ensures IstText(ClockFace(12, 15, "AM")) == " (Due: 12:15 AM IST)"
  {
    assert IntToString(12) == "12" by {
      assert NatToString(12) == NatToString(1) + [DigitChar(2)];
    }
    assert Pad2(15) == "15" by {
      assert NatToString(15) == NatToString(1) + [DigitChar(5)];
    }
  }

  lemma TimeTextExamples()
    ensures Pad2(0) + ":" + Pad2(15) == "00:15"
    ensures Pad2(18) + ":" + Pad2(45) == "18:45"
  {
    assert Pad2(0) == "00";
    assert Pad2(15) == "15" by {
      assert NatToString(15) == NatToString(1) + [DigitChar(5)];
    }
    assert Pad2(18) == "18" by {
      assert NatToString(18) == NatToString(1) + [DigitChar(8)];
    }
    assert Pad2(45) == "45" by {
      assert NatToString(45) == NatToString(4) + [DigitChar(5)];
    }
  }

  /** "00:15" is shown as 5:45 AM and "18:45" as 12:15 AM. */
  lemma IstExamples(svc: Services)
    ensures DueSuffix(svc, JStr("00:15")) == " (Due: 5:45 AM IST)"
    ensures DueSuffix(svc, JStr("18:45")) == " (Due: 12:15 AM IST)"
  {
    TimeTextExamples();
    EarlyMorningText();
    PastMidnightText();
    assert IstFace(0, 15) == ClockFace(5, 45, "AM") && IstFace(18, 45) == ClockFace(12, 15, "AM") by {
      IstNoonAndMidnight();
    }
    IstOfUtcText(svc, 0, 15);
    IstOfUtcText(svc, 18, 45);
  }

  // ---------------------------------------------------------------- the event body

  /** One end of an event: a whole day, or a date and time in a named zone. */
  datatype EventTime = OnDate(date: Json) | AtTime(dateTime: string, timeZone: string)

  /** The dictionary handed to the calendar insert call; assignment events carry
      no colour. */
  datatype EventBody = EventBody(summary: Json, description: Json, start: EventTime, end: EventTime,
                                 colorId: Option<string>)

  /** Start and end of the event for a due date and time: with a time, the text
      `{date}T{time}:00` and the one an hour later, both in UTC; without one, the due
      date at both ends. None when the start text does not parse or the hour runs
      past 9999. */
  function EventWindow(svc: Services, due: Json, time: Json): Option<(EventTime, EventTime)>
  {
    if !Truthy(time) then Some((OnDate(due), OnDate(due)))
    else
      var start := PyStr(svc, due) + "T" + PyStr(svc, time) + ":00";
      match ParseIsoDateTime(start)
      case None => None
      case Some(t) =>
        match AddHour(t)
        case None => None
        case Some(e) => Some((AtTime(start, "UTC"), AtTime(FormatDateTime(e), "UTC")))
  }

  /** The start text of a due date and time as the Classroom fetch formats them. */
  lemma StartTextIsIso(d: Date, h: nat, m: nat)
    requires ValidDate(d) && d.year >= 1000 && h < 24 && m < 60
    ensures FormatDate(d) + "T" + (Pad2(h) + ":" + Pad2(m)) + ":00" == FormatDateTime(DateTime(d, h, m, 0))
  {
    DigitsOfNat(d.year);
    assert IntToString(d.year) == Pad4(d.year);
    var prefix := FormatDate(d) + "T" + Pad2(h) + ":" + Pad2(m);
    assert FormatDate(d) + "T" + (Pad2(h) + ":" + Pad2(m)) == prefix;
    assert prefix + ":00" == prefix + ":" + Pad2(0);
  }

  /** For a well-formed due date and time, the event starts at that time and ends
      exactly one hour later (on the next day from 23:00); it fails only when the
      hour would run past 9999-12-31. */
  lemma TimedEventLastsOneHour(svc: Services, d: Date, h: nat, m: nat)
    requires ValidDate(d) && d.year >= 1000 && h < 24 && m < 60
    ensures var start := DateTime(d, h, m, 0);
      EventWindow(svc, JStr(FormatDate(d)), JStr(Pad2(h) + ":" + Pad2(m)))
      == if AddHour(start).Some?
         then Some((AtTime(FormatDateTime(start), "UTC"), AtTime(FormatDateTime(AddHour(start).value), "UTC")))
         else None
  {
    var start := DateTime(d, h, m, 0);
    var time := Pad2(h) + ":" + Pad2(m);
    assert time != [];
    assert FormatDate(d) + "T" + time + ":00" == FormatDateTime(start) by {
      StartTextIsIso(d, h, m);
    }
    assert ParseIsoDateTime(FormatDateTime(start)) == Some(start) by {
      FormatDateTimeRoundTrip(start);
    }
    WindowOfParsed(svc, FormatDate(d), time, start);
  }

  lemma WindowOfParsed(svc: Services, due: string, time: string, t: DateTime)
    requires time != [] && ParseIsoDateTime(due + "T" + time + ":00") == Some(t)
    ensures EventWindow(svc, JStr(due), JStr(time))
      == if AddHour(t).Some?
         then Some((AtTime(due + "T" + time + ":00", "UTC"), AtTime(FormatDateTime(AddHour(t).value), "UTC")))
         else None
  {
    var j := JStr(time);
    assert Truthy(j) && PyStr(svc, j) == time && PyStr(svc, JStr(due)) == due;
  }

  /** Without a due time the event is an all-day event on the due date. */
  lemma UntimedEventIsAllDay(svc: Services, due: Json, time: Json)
    requires !Truthy(time)
    ensures EventWindow(svc, due, time) == Some((OnDate(due), OnDate(due)))
  {
  }

  /** `record.get('description', '') or ''`. */
  function Description(r: Record): (j: Json)
    ensures Truthy(Get(r, "description", JStr(""))) ==> j == r["description"]
    ensures !Truthy(Get(r, "description", JStr(""))) ==> j == JStr("")
  {
    var given := Get(r, "description", JStr(""));
    if Truthy(given) then given else JStr("")
  }

  /** `f"{title}{suffix} - {courseName}"`, the summary of an assignment event. */
  function AssignmentSummary(svc: Services, a: Record): string
  {
    PyStr(svc, Get(a, "title", JNull)) + DueSuffix(svc, Get(a, "dueTime", JNull))
      + " - " + PyStr(svc, Get(a, "courseName", JNull))
  }

  /** `f"{eventType}: {title}{suffix} - {courseName}"` with the event type defaulting
      to "Deadline", the summary of an announcement event. */
  function AnnouncementSummary(svc: Services, a: Record): string
  {
    PyStr(svc, Get(a, "eventType", JStr("Deadline"))) + ": " + PyStr(svc, Get(a, "title", JNull))
      + DueSuffix(svc, Get(a, "dueTime", JNull)) + " - " + PyStr(svc, Get(a, "courseName", JNull))
  }

  /** The event a record becomes: assignment events carry no colour, announcement
      events colour 4; None when building the start and end raises. */
  function EventFor(svc: Services, kind: Kind, a: Record): (b: Option<EventBody>)
    ensures b.Some? <==> EventWindow(svc, Get(a, "dueDate", JNull), Get(a, "dueTime", JNull)).Some?
    ensures b.Some? ==> b.value.colorId == (if kind == AnnouncementKind then Some("4") else None)
    ensures b.Some? ==> b.value.description == Description(a)
  {
    match EventWindow(svc, Get(a, "dueDate", JNull), Get(a, "dueTime", JNull))
    case None => None
    case Some((start, end)) =>
      match kind
      case AssignmentKind => Some(EventBody(JStr(AssignmentSummary(svc, a)), Description(a), start, end, None))
      case AnnouncementKind => Some(EventBody(JStr(AnnouncementSummary(svc, a)), Description(a), start, end, Some("4")))
  }

  /** An assignment due at a well-formed UTC time is announced with its IST reading. */
  lemma AssignmentSummaryShowsIst(svc: Services, a: Record, h: nat, m: nat)
    requires h < 24 && m < 60
    requires "dueTime" in a && a["dueTime"] == JStr(Pad2(h) + ":" + Pad2(m))
    ensures AssignmentSummary(svc, a)
      == PyStr(svc, Get(a, "title", JNull)) + IstText(IstFace(h, m)) + " - " + PyStr(svc, Get(a, "courseName", JNull))
  {
    IstOfUtcText(svc, h, m);
  }

  /** An announcement event's summary leads with the deadline's event type, or
      "Deadline" when it has none, and shows a well-formed UTC due time in IST. */
  lemma AnnouncementSummaryShowsType(svc: Services, a: Record, h: nat, m: nat)
    requires h < 24 && m < 60
    requires "dueTime" in a && a["dueTime"] == JStr(Pad2(h) + ":" + Pad2(m))
    ensures var rest := ": " + PyStr(svc, Get(a, "title", JNull)) + IstText(IstFace(h, m))
                        + " - " + PyStr(svc, Get(a, "courseName", JNull));
      && ("eventType" !in a ==> AnnouncementSummary(svc, a) == "Deadline" + rest)
      && ("eventType" in a && a["eventType"].JStr? ==> AnnouncementSummary(svc, a) == a["eventType"].s + rest)
  {
    var suffix := IstText(IstFace(h, m));
    assert DueSuffix(svc, Get(a, "dueTime", JNull)) == suffix by {
      IstOfUtcText(svc, h, m);
    }
    var title := PyStr(svc, Get(a, "title", JNull));
    var course := PyStr(svc, Get(a, "courseName", JNull));
    var kind := PyStr(svc, Get(a, "eventType", JStr("Deadline")));
    assert AnnouncementSummary(svc, a) == kind + (": " + title + suffix + " - " + course) by {
      SummaryAssoc(kind, ": ", title, suffix, " - ", course);
    }
  }

  lemma SummaryAssoc(a: string, b: string, c: string, d: string, e: string, f: string)
    ensures a + b + c + d + e + f == a + (b + c + d + e + f)
  {
  }

  // ---------------------------------------------------------------- one record

  datatype Kind = AssignmentKind | AnnouncementKind

  /** What the loop does with one record before the insert call. */
  datatype Step = Failed | Skipped | Insert(body: EventBody)

  /** One assignment: no due date, or an event that cannot be built, counts as failed. */
  function AssignmentStep(svc: Services, a: Record): (s: Step)
    ensures !s.Skipped?
    ensures !Truthy(Get(a, "dueDate", JNull)) ==> s.Failed?
    ensures s.Insert? ==> Some(s.body) == EventFor(svc, AssignmentKind, a)
  {
    if !Truthy(Get(a, "dueDate", JNull)) then Failed
    else
      match EventFor(svc, AssignmentKind, a)
      case None => Failed
      case Some(b) => Insert(b)
  }

  /** Whether an announcement-derived deadline has already passed: with a readable
      time, at that time of its due date; without a time, at the end of its due
      date. A time that does not read as a time of day disables the check. */
  predicate IsPast(date: Date, time: Json, now: Clock)
    requires !Truthy(time) || time.JStr?
  {
    if !Truthy(time) then DateLess(date, now.date)
    else
      match Deduplication.TimeOfDay(time.s)
      case None => false
      case Some(m) => Before(Moment(date, m), now)
  }

  /** `datetime.fromisoformat(record["dueDate"]).date()`; None when it raises. */
  function DueDateOf(a: Record): (d: Option<Date>)
    ensures d.Some? ==> "dueDate" in a && a["dueDate"].JStr?
    ensures d.Some? ==> ParseIsoDateTime(a["dueDate"].s).Some? && d.value == ParseIsoDateTime(a["dueDate"].s).value.date
  {
    var due := Get(a, "dueDate", JNull);
    if !due.JStr? then None
    else
      match ParseIsoDateTime(due.s)
      case None => None
      case Some(dt) => Some(dt.date)
  }

  /** One announcement-derived deadline: no due date, a due date that does not
      parse, a due time that is not text, or an event that cannot be built, counts
      as failed; a past deadline is skipped. */
  function AnnouncementStep(svc: Services, now: Clock, a: Record): (s: Step)
    ensures !Truthy(Get(a, "dueDate", JNull)) ==> s.Failed?
    ensures s.Insert? ==> Some(s.body) == EventFor(svc, AnnouncementKind, a)
    ensures s.Skipped? <==> Screen(now, a).Past?
  {
    match Screen(now, a)
    case Reject => Failed
    case Past => Skipped
    case Proceed =>
      match EventFor(svc, AnnouncementKind, a)
      case None => Failed
      case Some(b) => Insert(b)
  }

  /** The checks an announcement-derived deadline passes before its event is built. */
  datatype Screening = Reject | Past | Proceed

  function Screen(now: Clock, a: Record): (v: Screening)
    ensures !Truthy(Get(a, "dueDate", JNull)) ==> v.Reject?
  {
    var time := Get(a, "dueTime", JNull);
    if !Truthy(Get(a, "dueDate", JNull)) then Reject
    else
      match DueDateOf(a)
      case None => Reject
      case Some(date) =>
        if Truthy(time) && !time.JStr? then Reject
        else if IsPast(date, time, now) then Past
        else Proceed
  }

  /** The past-event rule: a deadline with a readable time is skipped exactly when
      that moment is before now (one due exactly now is kept); one without a time is
      skipped exactly when its date is before today; one whose time does not read
      is never skipped. */
  lemma PastDeadlinesAreSkipped(now: Clock, a: Record, dt: DateTime)
    requires "dueDate" in a && a["dueDate"].JStr? && ParseIsoDateTime(a["dueDate"].s) == Some(dt)
    ensures var time := Get(a, "dueTime", JNull);
      && (Truthy(time) && time.JStr? && Deduplication.TimeOfDay(time.s).Some? ==>
            (Screen(now, a).Past? <==> Before(Moment(dt.date, Deduplication.TimeOfDay(time.s).value), now)))
      && (!Truthy(time) ==> (Screen(now, a).Past? <==> DateLess(dt.date, now.date)))
      && (Truthy(time) && time.JStr? && Deduplication.TimeOfDay(time.s).None? ==> Screen(now, a).Proceed?)
      && (Truthy(time) && !time.JStr? ==> Screen(now, a).Reject?)
  {
    assert Truthy(a["dueDate"]) && DueDateOf(a) == Some(dt.date);
    var time := Get(a, "dueTime", JNull);
    if Truthy(time) && time.JStr? {
      assert Screen(now, a) == if IsPast(dt.date, time, now) then Past else Proceed;
    }
  }

  // ---------------------------------------------------------------- the summary

  function KindName(k: Kind): string
  {
    if k == AssignmentKind then "assignment" else "announcement"
  }

  /** An `events` entry: the record's title and the created event's id, and for
      announcement events `"source": "announcement"`. */
  datatype Listed = Listed(title: Json, calendarId: Json, fromAnnouncement: bool)

  /** A `created_events` entry, whose `type` is the name of its kind. */
  datatype CreatedEvent = CreatedEvent(id: Json, summary: Json, description: Json, start: Json, end: Json,
                                       htmlLink: Json, kind: Kind, courseName: Json, courseId: Json)

  /** The counters and lists of the summary a sync loop returns (its `total` is
      the number of records). `created_events` is empty where the source leaves
      the key out. */
  datatype Tally = Tally(success: nat, failed: nat, skipped: nat,
                         events: seq<Listed>, createdEvents: seq<CreatedEvent>)

  /** The keys of the insert response the loop reads with `[...]`. */
  predicate Complete(resp: Record)
  {
    "id" in resp && "summary" in resp && "start" in resp && "end" in resp
  }

  function ListingOf(kind: Kind, r: Record, resp: Record): Listed
    requires "id" in resp
  {
    Listed(Get(r, "title", JNull), resp["id"], kind == AnnouncementKind)
  }

  function CreatedOf(kind: Kind, r: Record, resp: Record): CreatedEvent
    requires Complete(resp)
  {
    CreatedEvent(resp["id"], resp["summary"], Get(resp, "description", JStr("")), resp["start"], resp["end"],
                 Get(resp, "htmlLink", JStr("")), kind, Get(r, "courseName", JStr("")), Get(r, "courseId", JStr("")))
  }

  /** The counters and lists after one record. Once the insert call returns, the
      success counter is bumped before the response is read, so a response lacking
      a key the loop reads also bumps the failure counter. */
  function Advance(t: Tally, kind: Kind, insert: EventBody -> Option<Record>, r: Record, step: Step): Tally
  {
    match step
    case Failed => t.(failed := t.failed + 1)
    case Skipped => t.(skipped := t.skipped + 1)
    case Insert(body) =>
      match insert(body)
      case None => t.(failed := t.failed + 1)
      case Some(resp) =>
        if "id" !in resp then t.(success := t.success + 1, failed := t.failed + 1)
        else if !Complete(resp) then
          t.(success := t.success + 1, failed := t.failed + 1, events := t.events + [ListingOf(kind, r, resp)])
        else
          t.(success := t.success + 1, events := t.events + [ListingOf(kind, r, resp)],
             createdEvents := t.createdEvents + [CreatedOf(kind, r, resp)])
  }

  /** The summary a sync loop returns for `records`, given what it does with each. */
  function Synced(steps: Record -> Step, kind: Kind, insert: EventBody -> Option<Record>, records: seq<Record>): Tally
    decreases |records|
  {
    if records == [] then Tally(0, 0, 0, [], [])
    else
      var last := records[|records| - 1];
      Advance(Synced(steps, kind, insert, records[..|records| - 1]), kind, insert, last, steps(last))
  }

  function AssignmentSteps(svc: Services): Record -> Step
  {
    a => AssignmentStep(svc, a)
  }

  function AnnouncementSteps(svc: Services, now: Clock): Record -> Step
  {
    a => AnnouncementStep(svc, now, a)
  }

  /** Every insert response carries the keys the loop reads. */
  ghost predicate ResponsesComplete(insert: EventBody -> Option<Record>)
  {
    forall body :: insert(body).Some? ==> Complete(insert(body).value)
  }

  /** No record is left uncounted, and when the insert responses are complete
      every record bumps exactly one counter and each success has its `events`
      and `created_events` entry. */
  lemma {:induction false} CountersAddUp(steps: Record -> Step, kind: Kind, insert: EventBody -> Option<Record>, records: seq<Record>)
    ensures var t := Synced(steps, kind, insert, records);
      && t.success + t.failed + t.skipped >= |records|
      && |t.createdEvents| <= |t.events| <= t.success
    ensures ResponsesComplete(insert) ==>
      var t := Synced(steps, kind, insert, records);
      && t.success + t.failed + t.skipped == |records|
      && |t.events| == t.success && |t.createdEvents| == t.success
    decreases |records|
  {
    if records != [] {
      CountersAddUp(steps, kind, insert, records[..|records| - 1]);
    }
  }

  /** One record adds at most one `created_events` entry, of the loop's kind and
      with that record's course name. */
  lemma AdvanceAddsEntryOf(t: Tally, kind: Kind, insert: EventBody -> Option<Record>, r: Record, step: Step)
    ensures var u := Advance(t, kind, insert, r, step);
      && |t.createdEvents| <= |u.createdEvents| <= |t.createdEvents| + 1
      && u.createdEvents[..|t.createdEvents|] == t.createdEvents
      && (|u.createdEvents| > |t.createdEvents| ==>
            var e := u.createdEvents[|t.createdEvents|];
            e.kind == kind && e.courseName == Get(r, "courseName", JStr("")))
  {
  }

  ghost predicate NamesRecordIn(e: CreatedEvent, kind: Kind, records: seq<Record>)
  {
    e.kind == kind && exists r :: r in records && e.courseName == Get(r, "courseName", JStr(""))
  }

  /** Every `created_events` entry has the kind of its loop and the course name of
      one of the records. */
  lemma {:induction false} EntriesNameTheirRecord(steps: Record -> Step, kind: Kind, insert: EventBody -> Option<Record>, records: seq<Record>)
    ensures forall e :: e in Synced(steps, kind, insert, records).createdEvents ==> NamesRecordIn(e, kind, records)
    decreases |records|
  {
    if records != [] {
      var init := records[..|records| - 1];
      var last := records[|records| - 1];
      EntriesNameTheirRecord(steps, kind, insert, init);
      var t := Synced(steps, kind, insert, init);
      AdvanceAddsEntryOf(t, kind, insert, last, steps(last));
      var created := Synced(steps, kind, insert, records).createdEvents;
      forall e | e in created
        ensures NamesRecordIn(e, kind, records)
      {
        var k :| 0 <= k < |created| && created[k] == e;
        if k < |t.createdEvents| {
          assert e == t.createdEvents[k] && e in t.createdEvents;
          var r :| r in init && e.courseName == Get(r, "courseName", JStr(""));
          assert r in records;
        } else {
          assert k == |t.createdEvents|;
          assert last in records && e.courseName == Get(last, "courseName", JStr(""));
        }
      }
    }
  }

  /** The summaries of two runs, as one run over both lists. */
  function Combine(a: Tally, b: Tally): Tally
  {
    Tally(a.success + b.success, a.failed + b.failed, a.skipped + b.skipped,
          a.events + b.events, a.createdEvents + b.createdEvents)
  }

  /** Records are handled independently: the summary over two lists together is
      the two summaries combined, so a record that fails changes nothing about the
      records after it. */
  lemma {:induction false} SyncIsCompositional(steps: Record -> Step, kind: Kind, insert: EventBody -> Option<Record>,
                                               first: seq<Record>, rest: seq<Record>)
    ensures Synced(steps, kind, insert, first + rest)
      == Combine(Synced(steps, kind, insert, first), Synced(steps, kind, insert, rest))
    decreases |rest|
  {
    var all := first + rest;
    if rest == [] {
      assert all == first;
    } else {
      var init := rest[..|rest| - 1];
      var x := rest[|rest| - 1];
      var a := Synced(steps, kind, insert, first);
      var b := Synced(steps, kind, insert, init);
      assert Synced(steps, kind, insert, all) == Advance(Synced(steps, kind, insert, first + init), kind, insert, x, steps(x)) by {
        assert all[..|all| - 1] == first + init && all[|all| - 1] == x;
      }
      assert Synced(steps, kind, insert, rest) == Advance(b, kind, insert, x, steps(x));
      SyncIsCompositional(steps, kind, insert, first, init);
      AdvanceCombines(a, b, kind, insert, x, steps(x));
    }
  }

  lemma AdvanceCombines(a: Tally, b: Tally, kind: Kind, insert: EventBody -> Option<Record>, r: Record, step: Step)
    ensures Advance(Combine(a, b), kind, insert, r, step) == Combine(a, Advance(b, kind, insert, r, step))
  {
    match step
    case Failed =>
    case Skipped =>
    case Insert(body) =>
      match insert(body)
      case None =>
      case Some(resp) =>
        if "id" in resp {
          var l := ListingOf(kind, r, resp);
          assert (a.events + b.events) + [l] == a.events + (b.events + [l]);
          if Complete(resp) {
            var e := CreatedOf(kind, r, resp);
            assert (a.createdEvents + b.createdEvents) + [e] == a.createdEvents + (b.createdEvents + [e]);
          }
        }
  }

  /** A record without a due date bumps the failure counter and nothing else, and
      the insert call is never made for it. */
  lemma NoDueDateFails(svc: Services, now: Clock, insert: EventBody -> Option<Record>, records: seq<Record>, r: Record)
    requires !Truthy(Get(r, "dueDate", JNull))
    ensures Synced(AssignmentSteps(svc), AssignmentKind, insert, records + [r])
      == Combine(Synced(AssignmentSteps(svc), AssignmentKind, insert, records), Tally(0, 1, 0, [], []))
    ensures Synced(AnnouncementSteps(svc, now), AnnouncementKind, insert, records + [r])
      == Combine(Synced(AnnouncementSteps(svc, now), AnnouncementKind, insert, records), Tally(0, 1, 0, [], []))
  {
    SyncIsCompositional(AssignmentSteps(svc), AssignmentKind, insert, records, [r]);
    SyncIsCompositional(AnnouncementSteps(svc, now), AnnouncementKind, insert, records, [r]);
    assert [r][..0] == [];
  }

  /** Assignments are never skipped as past, whatever their dates. */
  lemma {:induction false} AssignmentsAreNeverSkipped(svc: Services, insert: EventBody -> Option<Record>, records: seq<Record>)
    ensures Synced(AssignmentSteps(svc), AssignmentKind, insert, records).skipped == 0
    decreases |records|
  {
    if records != [] {
      AssignmentsAreNeverSkipped(svc, insert, records[..|records| - 1]);
      assert !AssignmentSteps(svc)(records[|records| - 1]).Skipped?;
    }
  }

  // ---------------------------------------------------------------- the loops

  lemma SyncedPrefix(steps: Record -> Step, kind: Kind, insert: EventBody -> Option<Record>, records: seq<Record>, i: nat)
    requires i < |records|
    ensures Synced(steps, kind, insert, records[..i + 1])
      == Advance(Synced(steps, kind, insert, records[..i]), kind, insert, records[i], steps(records[i]))
  {
    assert records[..i + 1][..i] == records[..i];
  }

  /** What both loops do once the event is built: insert it, bump the success
      counter, then read the response into `events` and `created_events`. */
  method InsertEvent(results: Tally, kind: Kind, insert: EventBody -> Option<Record>, r: Record, body: EventBody)
    returns (after: Tally)
    ensures after == Advance(results, kind, insert, r, Insert(body))
  {
    after := results;
    var created := insert(body);
    if created.None? {
      after := after.(failed := after.failed + 1);
      return;
    }
    var resp := created.value;
    after := after.(success := after.success + 1);
    if "id" !in resp {
      after := after.(failed := after.failed + 1);
      return;
    }
    after := after.(events := after.events + [ListingOf(kind, r, resp)]);
    if !Complete(resp) {
      after := after.(failed := after.failed + 1);
      return;
    }
    after := after.(createdEvents := after.createdEvents + [CreatedOf(kind, r, resp)]);
  }

  /** `sync_assignments_to_calendar`, with the calendar insert call as `insert`
      (the created event, or None when the call raises). */
  method SyncAssignmentsToCalendar(svc: Services, insert: EventBody -> Option<Record>, assignments: seq<Record>)
    returns (total: nat, results: Tally)
    ensures total == |assignments|
    ensures results == Synced(AssignmentSteps(svc), AssignmentKind, insert, assignments)
  {
    total := |assignments|;
    results := Tally(0, 0, 0, [], []);
    for i := 0 to |assignments|
      invariant results == Synced(AssignmentSteps(svc), AssignmentKind, insert, assignments[..i])
    {
      var a := assignments[i];
      SyncedPrefix(AssignmentSteps(svc), AssignmentKind, insert, assignments, i);
      assert AssignmentSteps(svc)(a) == AssignmentStep(svc, a);
      if !Truthy(Get(a, "dueDate", JNull)) {
        results := results.(failed := results.failed + 1);
        continue;
      }
      var body := EventFor(svc, AssignmentKind, a);
      if body.None? {
        results := results.(failed := results.failed + 1);
        continue;
      }
      results := InsertEvent(results, AssignmentKind, insert, a, body.value);
    }
    assert assignments[..|assignments|] == assignments;
  }

  /** `sync_announcements_to_calendar`, at clock reading `now`. */
  method SyncAnnouncementsToCalendar(svc: Services, insert: EventBody -> Option<Record>, now: Clock, announcements: seq<Record>)
    returns (total: nat, results: Tally)
    ensures total == |announcements|
    ensures results == Synced(AnnouncementSteps(svc, now), AnnouncementKind, insert, announcements)
  {
    total := |announcements|;
    results := Tally(0, 0, 0, [], []);
    for i := 0 to |announcements|
      invariant results == Synced(AnnouncementSteps(svc, now), AnnouncementKind, insert, announcements[..i])
    {
      var d := announcements[i];
      SyncedPrefix(AnnouncementSteps(svc, now), AnnouncementKind, insert, announcements, i);
      assert AnnouncementSteps(svc, now)(d) == AnnouncementStep(svc, now, d);
      if !Truthy(Get(d, "dueDate", JNull)) {
        results := results.(failed := results.failed + 1);
        continue;
      }
      var dueDate := DueDateOf(d);
      if dueDate.None? {
        results := results.(failed := results.failed + 1);
        continue;
      }
      var time := Get(d, "dueTime", JNull);
      if Truthy(time) {
        if !time.JStr? {
          results := results.(failed := results.failed + 1);
          continue;
        }
        var m := Deduplication.TimeOfDay(time.s);
        if m.Some? && Before(Moment(dueDate.value, m.value), now) {
          results := results.(skipped := results.skipped + 1);
          continue;
        }
      } else if DateLess(dueDate.value, now.date) {
        results := results.(skipped := results.skipped + 1);
        continue;
      }
      var body := EventFor(svc, AnnouncementKind, d);
      if body.None? {
        results := results.(failed := results.failed + 1);
        continue;
      }
      results := InsertEvent(results, AnnouncementKind, insert, d, body.value);
    }
    assert announcements[..|announcements|] == announcements;
  }
}
