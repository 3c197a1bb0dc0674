/** The request layer: the set of pending OAuth states, the per-session stores
    of credentials, fetched assignments and unique deadlines, the guards of the
    endpoints, the statistics they report, the custom calendar event it builds,
    and the all-in-one sync that captures the first error. */
module Server {
  import opened Wrappers
  import opened Text
  import opened JsonModel
  import opened Dates
  import opened Seqs
  import CalendarSync
  import Deduplication

  /** What a call into another part of the system gives: its value, or the text
      of the exception it raised (`str(e)`). */
  datatype Outcome<T> = Ok(value: T) | Raised(message: string)

  /** An HTTP reply: a JSON body, a redirect, or an error status with its detail. */
  datatype Reply<T> = Body(body: T) | Redirect(url: string) | HttpError(status: nat, detail: string)

  const FrontendUrl := "http://localhost:5173/?auth=success"
  const CallbackPath := "/oauth2callback"
  const InvalidState := "Invalid state parameter"
  const NotAuthenticated := "Not authenticated. Please log in first."
  const NoAssignments := "No assignments data available. Please fetch courses first."
  const NoDeadlines := "No announcement deadlines available. Please fetch announcements first."
  const MissingFields := "Missing required fields: title and date are required"
  /** The body FastAPI sends for an exception a handler does not catch. */
  const InternalError := "Internal Server Error"

  // ---------------------------------------------------------------- the redirect URI

  /** Python's `s.replace(pat, by)`: every occurrence, scanning left to right. */
  function ReplaceAll(s: string, pat: string, repl: string): string
    requires pat != []
    decreases |s|
  {
    if |s| < |pat| then s
    else if s[..|pat|] == pat then repl + ReplaceAll(s[|pat|..], pat, repl)
    else [s[0]] + ReplaceAll(s[1..], pat, repl)
  }

  /** A text in which `pat` does not occur is left as it is. */
  lemma {:induction false} ReplaceAbsent(s: string, pat: string, repl: string)
    requires pat != [] && !Contains(s, pat)
    ensures ReplaceAll(s, pat, repl) == s
    decreases |s|
  {
    if |s| >= |pat| {
      assert !OccursAt(s, pat, 0);
      assert !Contains(s[1..], pat) by {
        forall i | 0 <= i && i + |pat| <= |s| - 1
          ensures !OccursAt(s[1..], pat, i)
        {
          assert s[1..][i..i + |pat|] == s[i + 1..i + 1 + |pat|];
          assert !OccursAt(s, pat, i + 1);
        }
      }
      ReplaceAbsent(s[1..], pat, repl);
      assert [s[0]] + s[1..] == s;
    }
  }

  /** Python's `s.rstrip("/")`: the longest prefix not ending in a slash, with
      only slashes after it. */
  function TrimSlashes(s: string): (r: string)
    ensures |r| <= |s| && r == s[..|r|]
    ensures r == [] || r[|r| - 1] != '/'
    ensures forall k :: |r| <= k < |s| ==> s[k] == '/'
    decreases |s|
  {
    if s != [] && s[|s| - 1] == '/' then TrimSlashes(s[..|s| - 1]) else s
  }

  /** The callback address registered with the authorization request: the
      request's base URL with the loopback address written `localhost`, its
      trailing slashes dropped and `/oauth2callback` appended. */
  function RedirectUri(baseUrl: string): (r: string)
    ensures EndsWith(r, CallbackPath)
    ensures var host := r[..|r| - |CallbackPath|]; host == [] || host[|host| - 1] != '/'
  {
    var host := TrimSlashes(ReplaceAll(baseUrl, "127.0.0.1", "localhost"));
    assert (host + CallbackPath)[..|host|] == host;
    host + CallbackPath
  }

  /** A base URL without the loopback address and without a trailing slash gets
      the callback path appended unchanged. */
  lemma PlainBaseUrl(baseUrl: string)
    requires !Contains(baseUrl, "127.0.0.1")
    requires baseUrl == [] || baseUrl[|baseUrl| - 1] != '/'
    ensures RedirectUri(baseUrl) == baseUrl + CallbackPath
  {
    ReplaceAbsent(baseUrl, "127.0.0.1", "localhost");
  }

  // ---------------------------------------------------------------- the stages

  /** What `fetch_classwork` returns: the `{"message": "No courses found."}`
      object, or the list of assignment records. */
  datatype Classwork = NoCourses | Assignments(items: seq<Record>)

  /** The summary a calendar sync returns: its `total` and the counters and lists. */
  datatype SyncResult = SyncResult(total: nat, tally: CalendarSync.Tally)

  /** The other parts of the system as the request layer calls them, each on the
      session's credentials or on what an earlier stage produced. */
  datatype Stages = Stages(
    fetchClasswork: Record -> Outcome<Classwork>,
    fetchAnnouncements: Record -> Outcome<seq<Record>>,
    extractDeadlines: seq<Record> -> Outcome<seq<Record>>,
    deduplicate: (Classwork, seq<Record>) -> Outcome<seq<Record>>,
    syncAssignments: (Classwork, Record) -> Outcome<SyncResult>,
    syncAnnouncements: (seq<Record>, Record) -> Outcome<SyncResult>)

  // ---------------------------------------------------------------- statistics

  datatype Stats = Stats(totalAnnouncements: nat, deadlinesFound: nat, uniqueDeadlines: nat, duplicatesRemoved: int)

  /** The `stats` object of both announcement endpoints. */
  function StatsOf(raw: seq<Record>, extracted: seq<Record>, unique: seq<Record>): (s: Stats)
    ensures s.totalAnnouncements == |raw| && s.deadlinesFound == |extracted| && s.uniqueDeadlines == |unique|
    ensures s.deadlinesFound == s.uniqueDeadlines + s.duplicatesRemoved
  {
    Stats(|raw|, |extracted|, |unique|, |extracted| - |unique|)
  }

  /** The removal count is never negative when the unique deadlines are a
      subsequence of the extracted ones (the model named each index once, in
      order); a repeated index would make it negative. */
  lemma RemovedIsNonNegative(raw: seq<Record>, extracted: seq<Record>, unique: seq<Record>)
    requires IsSubsequence(unique, extracted)
    ensures StatsOf(raw, extracted, unique).duplicatesRemoved >= 0
  {
    var idx :| SubsequenceVia(unique, extracted, idx);
    IncreasingIndicesBound(idx, |extracted|);
  }

  lemma {:induction false} IncreasingIndicesBound(idx: seq<int>, n: int)
    requires n >= 0
    requires forall k :: 0 <= k < |idx| ==> 0 <= idx[k] < n
    requires forall k, l :: 0 <= k < l < |idx| ==> idx[k] < idx[l]
    ensures |idx| <= n
    decreases |idx|
  {
    if idx != [] {
      var last := idx[|idx| - 1];
      var init := idx[..|idx| - 1];
      assert forall k :: 0 <= k < |init| ==> init[k] == idx[k] && idx[k] < last;
      IncreasingIndicesBound(init, last);
      assert |idx| == |init| + 1;
    }
  }

  /** What `/fetch-announcements` returns and `sync_all` records at step 2. */
  datatype AnnouncementReport = AnnouncementReport(raw: seq<Record>, extracted: seq<Record>, stats: Stats)

  // ---------------------------------------------------------------- the custom event

  /** Python's class name of a value, as an AttributeError message names it. */
  function TypeName(j: Json): string
  {
    match j
    case JNull => "NoneType"
    case JBool(_) => "bool"
    case JInt(_) => "int"
    case JFloat(_) => "float"
    case JStr(_) => "str"
    case JArr(_) => "list"
    case JObj(_) => "dict"
  }

  /** The end of a timed custom event whose start text is `start`: the start
      with its hour replaced by the next one, or, when the start does not parse
      or the hour is 23, the fallback `{date}T{HH}:59:59` from the time's text
      before its first colon (which raises for a time that is not a string). */
  function CustomEnd(svc: Services, date: Json, time: Json, start: string): (r: Outcome<string>)
  {
    match ParseIsoDateTime(start)
    case Some(t) =>
      if t.hour < 23 then Ok(FormatDateTime(t.(hour := t.hour + 1)))
      else Fallback(svc, date, time)
    case None => Fallback(svc, date, time)
  }

  function Fallback(svc: Services, date: Json, time: Json): (r: Outcome<string>)
    ensures time.JStr? <==> r.Ok?
  {
    if time.JStr? then Ok(PyStr(svc, date) + "T" + Split(time.s, ":")[0] + ":59:59")
    else Raised("'" + TypeName(time) + "' object has no attribute 'split'")
  }

  /** The event body `create_calendar_event` hands to the calendar insert call
      for the request's JSON object, in the grey colour "7". */
  function CustomEventBody(svc: Services, data: Record): (r: Outcome<CalendarSync.EventBody>)
    requires Truthy(Get(data, "title", JNull)) && Truthy(Get(data, "date", JNull))
  {
    var date := data["date"];
    var time := Get(data, "time", JNull);
    var summary := data["title"];
    var description := Get(data, "description", JStr(""));
    if !Truthy(time) then
      Ok(CalendarSync.EventBody(summary, description, CalendarSync.OnDate(date), CalendarSync.OnDate(date), Some("7")))
    else
      var start := PyStr(svc, date) + "T" + PyStr(svc, time) + ":00";
      match CustomEnd(svc, date, time, start)
      case Raised(m) => Raised(m)
      case Ok(end) =>
        Ok(CalendarSync.EventBody(summary, description, CalendarSync.AtTime(start, "UTC"),
                                  CalendarSync.AtTime(end, "UTC"), Some("7")))
  }

  /** The reply of `create_calendar_event` for the created event. */
  datatype CustomCreated = CustomCreated(id: Json, title: Json, description: Json, start: Json, end: Json,
                                         htmlLink: Json, kind: string, status: string)

  /** The reply for the request's JSON object, given the session's credentials
      and the insert call: 400 for a missing title or date, 500 with the text of
      any other exception (a missing `token`, the fallback on a non-string time,
      the insert call, a key missing from the created event). */
  function CreateEventReply(svc: Services, insert: CalendarSync.EventBody -> Outcome<Record>, credentials: Record,
                            data: Record): (r: Reply<CustomCreated>)
  {
    if !Truthy(Get(data, "title", JNull)) || !Truthy(Get(data, "date", JNull)) then HttpError(400, MissingFields)
    else if "token" !in credentials then CreateFailure("'token'")
    else
      match CustomEventBody(svc, data)
      case Raised(m) => CreateFailure(m)
      case Ok(body) =>
        match insert(body)
        case Raised(m) => CreateFailure(m)
        case Ok(created) => CreatedReply(created)
  }

  /** The reply read from the created event: its keys `id`, `summary`, `start`
      and `end` are required (a KeyError names the first one missing). */
  function CreatedReply(created: Record): (r: Reply<CustomCreated>)
    ensures r.Body? <==> "id" in created && "summary" in created && "start" in created && "end" in created
    ensures r.Body? ==> r.body.id == created["id"] && r.body.title == created["summary"]
                        && r.body.kind == "custom" && r.body.status == "created"
  {
    if "id" !in created then CreateFailure("'id'")
    else if "summary" !in created then CreateFailure("'summary'")
    else if "start" !in created then CreateFailure("'start'")
    else if "end" !in created then CreateFailure("'end'")
    else Body(CustomCreated(created["id"], created["summary"], Get(created, "description", JStr("")),
                            created["start"], created["end"], Get(created, "htmlLink", JStr("")),
                            "custom", "created"))
  }

  function CreateFailure(message: string): (r: Reply<CustomCreated>)
    ensures r.HttpError? && r.status == 500
  {
    HttpError(500, "Failed to create event: " + message)
  }

  /** Nothing reaches the calendar without a title and a date. */
  lemma MissingFieldIsRejected(svc: Services, insert: CalendarSync.EventBody -> Outcome<Record>, credentials: Record,
                               data: Record)
    requires !Truthy(Get(data, "title", JNull)) || !Truthy(Get(data, "date", JNull))
    ensures CreateEventReply(svc, insert, credentials, data) == HttpError(400, MissingFields)
  {
  }

  /** Without a time the custom event is an all-day event on that date. */
  lemma UntimedCustomEventIsAllDay(svc: Services, data: Record)
    requires Truthy(Get(data, "title", JNull)) && Truthy(Get(data, "date", JNull))
    requires !Truthy(Get(data, "time", JNull))
    ensures CustomEventBody(svc, data).Ok?
    ensures var b := CustomEventBody(svc, data).value;
      b.start == CalendarSync.OnDate(data["date"]) && b.end == b.start
      && b.summary == data["title"] && b.colorId == Some("7")
  {
  }

  /** A timed custom event starts at `{date}T{time}:00` in UTC and ends where
      `CustomEnd` says. */
  lemma TimedBody(svc: Services, data: Record, date: string, time: string, end: string)
    requires Truthy(Get(data, "title", JNull))
    requires Get(data, "date", JNull) == JStr(date) && date != ""
    requires Get(data, "time", JNull) == JStr(time) && time != ""
    requires CustomEnd(svc, JStr(date), JStr(time), date + "T" + time + ":00") == Ok(end)
    ensures CustomEventBody(svc, data).Ok?
    ensures CustomEventBody(svc, data).value.start == CalendarSync.AtTime(date + "T" + time + ":00", "UTC")
    ensures CustomEventBody(svc, data).value.end == CalendarSync.AtTime(end, "UTC")
  {
    assert Truthy(JStr(time)) && PyStr(svc, JStr(date)) == date && PyStr(svc, JStr(time)) == time;
  }

  /** A start that parses at an hour before 23 ends at the same minute of the
      next hour, in UTC. */
  lemma TimedCustomEvent(svc: Services, data: Record, date: string, time: string, t: DateTime)
    requires Truthy(Get(data, "title", JNull))
    requires Get(data, "date", JNull) == JStr(date) && date != ""
    requires Get(data, "time", JNull) == JStr(time) && time != ""
    requires ParseIsoDateTime(date + "T" + time + ":00") == Some(t) && t.hour < 23
    ensures CustomEventBody(svc, data).Ok?
    ensures CustomEventBody(svc, data).value.start == CalendarSync.AtTime(date + "T" + time + ":00", "UTC")
    ensures CustomEventBody(svc, data).value.end == CalendarSync.AtTime(FormatDateTime(t.(hour := t.hour + 1)), "UTC")
  {
    TimedBody(svc, data, date, time, FormatDateTime(t.(hour := t.hour + 1)));
  }

  /** At 23:00 or later the hour cannot be replaced by the next one, and the
      event ends at second 59:59 of the time's hour on the same date instead. */
  lemma LateCustomEventFallsBack(svc: Services, data: Record, date: string, time: string, t: DateTime)
    requires Truthy(Get(data, "title", JNull))
    requires Get(data, "date", JNull) == JStr(date) && date != ""
    requires Get(data, "time", JNull) == JStr(time) && time != ""
    requires ParseIsoDateTime(date + "T" + time + ":00") == Some(t) && t.hour == 23
    ensures CustomEventBody(svc, data).Ok?
    ensures CustomEventBody(svc, data).value.end
         == CalendarSync.AtTime(date + "T" + Split(time, ":")[0] + ":59:59", "UTC")
  {
    TimedBody(svc, data, date, time, date + "T" + Split(time, ":")[0] + ":59:59");
  }

  /** The date and time the form sends, `YYYY-MM-DD` and `HH:MM`, make a start
      text that reads back as that moment. */
  lemma FormStartIsParsed(d: Date, h: nat, m: nat)
    requires ValidDate(d) && d.year >= 1000 && h < 24 && m < 60
    ensures ParseIsoDateTime(FormatDate(d) + "T" + (Pad2(h) + ":" + Pad2(m)) + ":00") == Some(DateTime(d, h, m, 0))
  {
    CalendarSync.StartTextIsIso(d, h, m);
    FormatDateTimeRoundTrip(DateTime(d, h, m, 0));
  }

  /** The text before the colon of an `HH:MM` time is its hour. */
  lemma HourBeforeColon(h: nat, m: nat)
    requires h < 100 && m < 100
    ensures Split(Pad2(h) + ":" + Pad2(m), ":")[0] == Pad2(h)
  {
    var time := Pad2(h) + ":" + Pad2(m);
    Deduplication.Pad2HasNoColon(h);
    assert time[0] == Pad2(h)[0] && time[1] == Pad2(h)[1] && time[2] == ':';
    FindColon(time);
    assert time[..2] == Pad2(h);
  }

  lemma FindColon(time: string)
    requires |time| >= 3 && time[2] == ':' && time[0] != ':' && time[1] != ':'
    ensures Split(time, ":")[0] == time[..2]
  {
    FindFirstChar(time, ':', 2);
    SplitHead(time, ":");
  }

  // ---------------------------------------------------------------- sync_all

  /** A `calendar_events` entry of `sync_all` (its `status` is always "created"):
      the created event's fields under the kind of the loop that added it. */
  datatype CalendarEntry = CalendarEntry(kind: CalendarSync.Kind, id: Json, title: Json, description: Json,
                                         start: Json, end: Json, htmlLink: Json, courseName: Json, courseId: Json)

  function EntryOf(kind: CalendarSync.Kind, e: CalendarSync.CreatedEvent): CalendarEntry
  {
    CalendarEntry(kind, e.id, e.summary, e.description, e.start, e.end, e.htmlLink, e.courseName, e.courseId)
  }

  /** The entries one loop of `sync_all` appends: one per created event, in order,
      each of the loop's kind. */
  function Entries(kind: CalendarSync.Kind, events: seq<CalendarSync.CreatedEvent>): (r: seq<CalendarEntry>)
    ensures |r| == |events|
    ensures forall k :: 0 <= k < |r| ==> r[k] == EntryOf(kind, events[k])
    decreases |events|
  {
    if events == [] then []
    else Entries(kind, events[..|events| - 1]) + [EntryOf(kind, events[|events| - 1])]
  }

  /** The `results` object of `sync_all`; `announcements` is None while it is
      still the initial empty list. */
  datatype Progress = Progress(step: nat, totalSteps: nat, currentAction: string, completed: bool,
                               classwork: Classwork, announcements: Option<AnnouncementReport>,
                               calendarEvents: seq<CalendarEntry>, errors: seq<string>)

  const Starting := Progress(0, 4, "Starting sync process", false, Assignments([]), None, [], [])
  const FetchingAssignments := "Fetching assignments from Google Classroom"
  const FetchingAnnouncements := "Fetching announcements and extracting deadlines"
  const SyncingAssignments := "Syncing assignments to Google Calendar"
  const SyncingDeadlines := "Syncing deadlines to Google Calendar"
  const ErrorPrefix := "Error during sync: "

  /** What the `except` clause does with the partial results. */
  function Failed(p: Progress, message: string): Progress
  {
    p.(errors := p.errors + [message], currentAction := ErrorPrefix + message)
  }

  /** The results of `sync_all` and what it stores for the session: the fetched
      classwork (from step 1 on) and the unique deadlines (from step 2 on). */
  datatype SyncRun = SyncRun(progress: Progress, storedClasswork: Option<Classwork>,
                             storedDeadlines: Option<seq<Record>>)

  /** `sync_all` on the session's credentials: each step announces itself, the
      first exception is recorded and ends the run with what was gathered so
      far, and `completed` is never set. */
  function SyncAllRun(st: Stages, creds: Record): (run: SyncRun)
    ensures !run.progress.completed && run.progress.totalSteps == 4
    ensures |run.progress.errors| <= 1
    ensures |run.progress.errors| == 1 ==> run.progress.currentAction == ErrorPrefix + run.progress.errors[0]
    ensures run.progress.errors == [] ==> run.progress.step == 4 && run.progress.currentAction == SyncingDeadlines
    ensures 1 <= run.progress.step <= 4
    ensures run.storedDeadlines.Some? ==> run.storedClasswork.Some?
  {
    var p1 := Starting.(step := 1, currentAction := FetchingAssignments);
    match st.fetchClasswork(creds)
    case Raised(m) => SyncRun(Failed(p1, m), None, None)
    case Ok(classwork) => AfterClasswork(st, creds, classwork)
  }

  /** Steps 2 to 4 once the classwork is fetched and stored. */
  function AfterClasswork(st: Stages, creds: Record, classwork: Classwork): (run: SyncRun)
    ensures !run.progress.completed && run.progress.totalSteps == 4
    ensures |run.progress.errors| <= 1
    ensures |run.progress.errors| == 1 ==> run.progress.currentAction == ErrorPrefix + run.progress.errors[0]
    ensures run.progress.errors == [] ==> run.progress.step == 4 && run.progress.currentAction == SyncingDeadlines
    ensures 2 <= run.progress.step <= 4
    ensures run.progress.classwork == classwork && run.storedClasswork == Some(classwork)
  {
    var p2 := Starting.(classwork := classwork, step := 2, currentAction := FetchingAnnouncements);
    match AnnouncementStep(st, creds, classwork)
    case Raised(m) => SyncRun(Failed(p2, m), Some(classwork), None)
    case Ok((report, unique)) =>
      SyncRun(CalendarSteps(st, creds, p2.(announcements := Some(report)), classwork, unique), Some(classwork), Some(unique))
  }

  /** Steps 3 and 4: the assignment sync, then the deadline sync, each appending
      an entry per created event. */
  function CalendarSteps(st: Stages, creds: Record, p: Progress, classwork: Classwork, unique: seq<Record>): (q: Progress)
    requires p.errors == [] && !p.completed && p.totalSteps == 4
    ensures !q.completed && q.totalSteps == 4
    ensures |q.errors| <= 1
    ensures |q.errors| == 1 ==> q.currentAction == ErrorPrefix + q.errors[0]
    ensures q.errors == [] ==> q.step == 4 && q.currentAction == SyncingDeadlines
    ensures 3 <= q.step <= 4
    ensures q.classwork == p.classwork && q.announcements == p.announcements
  {
    var p3 := p.(step := 3, currentAction := SyncingAssignments);
    match st.syncAssignments(classwork, creds)
    case Raised(m) => Failed(p3, m)
    case Ok(a) =>
      var p4 := p3.(calendarEvents := p3.calendarEvents + Entries(CalendarSync.AssignmentKind, a.tally.createdEvents),
                    step := 4, currentAction := SyncingDeadlines);
      match st.syncAnnouncements(unique, creds)
      case Raised(m) => Failed(p4, m)
      case Ok(b) => p4.(calendarEvents := p4.calendarEvents + Entries(CalendarSync.AnnouncementKind, b.tally.createdEvents))
  }

  /** Step 2, shared with `/fetch-announcements`: fetch the announcements,
      extract their deadlines, deduplicate them against `classwork`, and report
      the counts; the report and the unique deadlines, or the first exception. */
  function AnnouncementStep(st: Stages, creds: Record, classwork: Classwork): (r: Outcome<(AnnouncementReport, seq<Record>)>)
    ensures r.Ok? ==> r.value.0.extracted == r.value.1
    ensures r.Ok? ==> r.value.0.stats.uniqueDeadlines == |r.value.1|
  {
    match st.fetchAnnouncements(creds)
    case Raised(m) => Raised(m)
    case Ok(raw) =>
      match st.extractDeadlines(raw)
      case Raised(m) => Raised(m)
      case Ok(extracted) =>
        match st.deduplicate(classwork, extracted)
        case Raised(m) => Raised(m)
        case Ok(unique) => Ok((AnnouncementReport(raw, unique, StatsOf(raw, extracted, unique)), unique))
  }

  /** Every assignment entry comes before every announcement entry. */
  predicate AssignmentsFirst(events: seq<CalendarEntry>)
  {
    forall i, j :: 0 <= i < j < |events| && events[j].kind == CalendarSync.AssignmentKind
      ==> events[i].kind == CalendarSync.AssignmentKind
  }

  /** When no step raises, the events of the assignment sync come first and those
      of the deadline sync after them, each in the order they were created, and
      both the classwork and the unique deadlines are stored. */
  lemma CompleteRunListsEvents(st: Stages, creds: Record, classwork: Classwork, report: AnnouncementReport,
                               unique: seq<Record>, a: SyncResult, b: SyncResult)
    requires st.fetchClasswork(creds) == Ok(classwork)
    requires AnnouncementStep(st, creds, classwork) == Ok((report, unique))
    requires st.syncAssignments(classwork, creds) == Ok(a)
    requires st.syncAnnouncements(unique, creds) == Ok(b)
    ensures var p := SyncAllRun(st, creds).progress;
      p.errors == [] && p.classwork == classwork && p.announcements == Some(report)
      && p.calendarEvents == Entries(CalendarSync.AssignmentKind, a.tally.createdEvents)
                             + Entries(CalendarSync.AnnouncementKind, b.tally.createdEvents)
      && AssignmentsFirst(p.calendarEvents)
    ensures SyncAllRun(st, creds).storedClasswork == Some(classwork)
    ensures SyncAllRun(st, creds).storedDeadlines == Some(unique)
  {
    var xs := Entries(CalendarSync.AssignmentKind, a.tally.createdEvents);
    var ys := Entries(CalendarSync.AnnouncementKind, b.tally.createdEvents);
    KindsInOrder(xs, ys);
    assert [] + xs == xs;
  }

  lemma KindsInOrder(xs: seq<CalendarEntry>, ys: seq<CalendarEntry>)
    requires forall k :: 0 <= k < |xs| ==> xs[k].kind == CalendarSync.AssignmentKind
    requires forall k :: 0 <= k < |ys| ==> ys[k].kind == CalendarSync.AnnouncementKind
    ensures AssignmentsFirst(xs + ys)
  {
    var zs := xs + ys;
    forall i, j | 0 <= i < j < |zs| && zs[j].kind == CalendarSync.AssignmentKind
      ensures zs[i].kind == CalendarSync.AssignmentKind
    {
      assert j < |xs|;
    }
  }

  /** The events of `sync_all` always list assignments before deadlines. */
  lemma EventsAreOrdered(st: Stages, creds: Record)
    ensures AssignmentsFirst(SyncAllRun(st, creds).progress.calendarEvents)
  {
    match st.fetchClasswork(creds)
    case Raised(_) =>
    case Ok(classwork) =>
      match AnnouncementStep(st, creds, classwork)
      case Raised(_) =>
      case Ok((report, unique)) =>
        match st.syncAssignments(classwork, creds)
        case Raised(_) =>
        case Ok(a) =>
          match st.syncAnnouncements(unique, creds)
          case Raised(_) =>
          case Ok(b) =>
            CompleteRunListsEvents(st, creds, classwork, report, unique, a, b);
  }

  /** An exception in the fetch of the classwork is reported at step 1 with
      nothing gathered and nothing stored. */
  lemma FailedFetchGathersNothing(st: Stages, creds: Record, m: string)
    requires st.fetchClasswork(creds) == Raised(m)
    ensures var run := SyncAllRun(st, creds);
      run.progress.errors == [m] && run.progress.step == 1 && run.progress.calendarEvents == []
      && run.progress.announcements == None && run.storedClasswork == None && run.storedDeadlines == None
  {
  }

  /** An exception after step 1 keeps the classwork in the results and in the
      store; one in either calendar sync also keeps the deadline report. */
  lemma PartialResultsAreKept(st: Stages, creds: Record, classwork: Classwork)
    requires st.fetchClasswork(creds) == Ok(classwork)
    ensures SyncAllRun(st, creds).progress.classwork == classwork
    ensures SyncAllRun(st, creds).storedClasswork == Some(classwork)
    ensures AnnouncementStep(st, creds, classwork).Ok? ==>
      SyncAllRun(st, creds).progress.announcements == Some(AnnouncementStep(st, creds, classwork).value.0)
      && SyncAllRun(st, creds).storedDeadlines == Some(AnnouncementStep(st, creds, classwork).value.1)
    ensures AnnouncementStep(st, creds, classwork).Raised? ==>
      SyncAllRun(st, creds).progress.errors == [AnnouncementStep(st, creds, classwork).message]
      && SyncAllRun(st, creds).progress.step == 2
  {
  }

  // ---------------------------------------------------------------- the application state

  /** The module-level dictionaries of the server. `oauth_states` maps each
      pending state to True, so it is a set here. */
  class App {
    var oauthStates: set<string>
    var credentialsStore: map<string, Record>
    var assignmentsStore: map<string, Classwork>
    var announcementsStore: map<string, seq<Record>>

    /** Only a session that has credentials ever gets data stored under it. */
    ghost predicate Valid()
      reads this
    {
      assignmentsStore.Keys <= credentialsStore.Keys && announcementsStore.Keys <= credentialsStore.Keys
    }

    constructor()
      ensures Valid()
      ensures oauthStates == {} && credentialsStore == map[] && assignmentsStore == map[] && announcementsStore == map[]
    {
      oauthStates := {};
      credentialsStore := map[];
      assignmentsStore := map[];
      announcementsStore := map[];
    }

    /** `check_auth_status`: the session cookie names a session with credentials. */
    function CheckAuthStatus(session: Option<string>): (authenticated: bool)
      reads this
    {
      session.Some? && session.value != "" && session.value in credentialsStore
    }

    /** `get_current_credentials`, the dependency of every data endpoint: the
        session's credentials, or 401 exactly when `check_auth_status` is false. */
    function GetCurrentCredentials(session: Option<string>): (r: Reply<Record>)
      reads this
      ensures r.Body? <==> CheckAuthStatus(session)
      ensures r.Body? ==> r.body == credentialsStore[session.value]
      ensures r.HttpError? ==> r.status == 401 && r.detail == NotAuthenticated
      ensures !r.Redirect?
    {
      if session.None? || session.value == "" || session.value !in credentialsStore then
        HttpError(401, NotAuthenticated)
      else Body(credentialsStore[session.value])
    }

    /** `login`: ask for an authorization URL for the callback address and remember
        its state; a failure is a 500 and nothing is remembered. */
    method Login(baseUrl: string, authorize: string -> Outcome<(string, string)>) returns (r: Reply<()>)
      requires Valid()
      modifies this
      ensures Valid()
      ensures authorize(RedirectUri(baseUrl)).Raised? ==>
        r == HttpError(500, "Failed to create authorization URL: " + authorize(RedirectUri(baseUrl)).message)
        && oauthStates == old(oauthStates)
      ensures authorize(RedirectUri(baseUrl)).Ok? ==>
        r == Redirect(authorize(RedirectUri(baseUrl)).value.0)
        && oauthStates == old(oauthStates) + {authorize(RedirectUri(baseUrl)).value.1}
      ensures credentialsStore == old(credentialsStore) && assignmentsStore == old(assignmentsStore)
      ensures announcementsStore == old(announcementsStore)
    {
      var redirectUri := RedirectUri(baseUrl);
      var auth := authorize(redirectUri);
      if auth.Raised? {
        return HttpError(500, "Failed to create authorization URL: " + auth.message);
      }
      var (authUrl, state) := auth.value;
      oauthStates := oauthStates + {state};
      r := Redirect(authUrl);
    }

    /** `callback`: a missing, empty or unknown state is a 400 that changes
        nothing; otherwise the token is fetched for the callback address, the
        state and the request URL (loopback written `localhost`). A failure is a
        400 that keeps the state; a success stores the credentials under the
        fresh session id, sets the session cookie to it and consumes the state. */
    method Callback(baseUrl: string, requestUrl: string, state: Option<string>,
                    fetchToken: (string, string, string) -> Outcome<Record>, freshId: string, session: Option<string>)
      returns (r: Reply<()>, newSession: Option<string>)
      requires Valid()
      modifies this
      ensures Valid()
      ensures state.None? || state.value == "" || state.value !in old(oauthStates) ==>
        r == HttpError(400, InvalidState) && newSession == session
        && oauthStates == old(oauthStates) && credentialsStore == old(credentialsStore)
      ensures state.Some? && state.value != "" && state.value in old(oauthStates) ==>
        var token := fetchToken(RedirectUri(baseUrl), state.value, ReplaceAll(requestUrl, "127.0.0.1", "localhost"));
        (token.Raised? ==>
          r == HttpError(400, "Failed to fetch token: " + token.message) && newSession == session
          && oauthStates == old(oauthStates) && credentialsStore == old(credentialsStore))
        && (token.Ok? ==>
          r == Redirect(FrontendUrl) && newSession == Some(freshId)
          && oauthStates == old(oauthStates) - {state.value}
          && credentialsStore == old(credentialsStore)[freshId := token.value])
      ensures assignmentsStore == old(assignmentsStore) && announcementsStore == old(announcementsStore)
    {
      newSession := session;
      if state.None? || state.value == "" || state.value !in oauthStates {
        return HttpError(400, InvalidState), newSession;
      }
      var redirectUri := RedirectUri(baseUrl);
      var authorizationResponse := ReplaceAll(requestUrl, "127.0.0.1", "localhost");
      var credentials := fetchToken(redirectUri, state.value, authorizationResponse);
      if credentials.Raised? {
        return HttpError(400, "Failed to fetch token: " + credentials.message), newSession;
      }
      newSession := Some(freshId);
      credentialsStore := credentialsStore[freshId := credentials.value];
      if state.value in oauthStates {
        oauthStates := oauthStates - {state.value};
      }
      r := Redirect(FrontendUrl);
    }

    /** `/fetch-classwork`: the session's classwork, stored for it; an exception
        in the fetch is a 500 that stores nothing. */
    method FetchClassworkEndpoint(session: Option<string>, st: Stages) returns (r: Reply<Classwork>)
      requires Valid()
      modifies this
      ensures Valid()
      ensures !CheckAuthStatus(session) ==> r == HttpError(401, NotAuthenticated)
      ensures CheckAuthStatus(session) && st.fetchClasswork(credentialsStore[session.value]).Raised? ==>
        r == HttpError(500, InternalError)
      ensures CheckAuthStatus(session) && st.fetchClasswork(credentialsStore[session.value]).Ok? ==>
        r == Body(st.fetchClasswork(credentialsStore[session.value]).value)
      ensures r.Body? ==> assignmentsStore == old(assignmentsStore)[session.value := r.body]
      ensures !r.Body? ==> assignmentsStore == old(assignmentsStore)
      ensures oauthStates == old(oauthStates) && credentialsStore == old(credentialsStore)
      ensures announcementsStore == old(announcementsStore)
    {
      var auth := GetCurrentCredentials(session);
      if !auth.Body? {
        return HttpError(auth.status, auth.detail);
      }
      var classwork := st.fetchClasswork(auth.body);
      if classwork.Raised? {
        return HttpError(500, InternalError);
      }
      assignmentsStore := assignmentsStore[session.value := classwork.value];
      r := Body(classwork.value);
    }

    /** The classwork stored for a session, or the empty list. */
    function StoredClasswork(session: string): Classwork
      reads this
    {
      if session in assignmentsStore then assignmentsStore[session] else Assignments([])
    }

    /** `/fetch-announcements`: step 2 against the stored classwork (none yet: the
        empty list); on success the unique deadlines are stored for the session,
        and any exception is a 500 that stores nothing. */
    method FetchAnnouncementsEndpoint(session: Option<string>, st: Stages) returns (r: Reply<AnnouncementReport>)
      requires Valid()
      modifies this
      ensures Valid()
      ensures !CheckAuthStatus(session) ==> r == HttpError(401, NotAuthenticated)
      ensures CheckAuthStatus(session) ==>
        var step := AnnouncementStep(st, credentialsStore[session.value], StoredClasswork(session.value));
        (step.Raised? ==> r == HttpError(500, "Failed to fetch announcements: " + step.message))
        && (step.Ok? ==> r == Body(step.value.0))
      ensures r.Body? ==>
        exists unique ::
          && AnnouncementStep(st, credentialsStore[session.value], StoredClasswork(session.value)) == Ok((r.body, unique))
          && announcementsStore == old(announcementsStore)[session.value := unique]
      ensures !r.Body? ==> announcementsStore == old(announcementsStore)
      ensures oauthStates == old(oauthStates) && credentialsStore == old(credentialsStore)
      ensures assignmentsStore == old(assignmentsStore)
    {
      var auth := GetCurrentCredentials(session);
      if !auth.Body? {
        return HttpError(auth.status, auth.detail);
      }
      var assignments := StoredClasswork(session.value);
      var step := AnnouncementStep(st, auth.body, assignments);
      if step.Raised? {
        return HttpError(500, "Failed to fetch announcements: " + step.message);
      }
      var (report, unique) := step.value;
      announcementsStore := announcementsStore[session.value := unique];
      r := Body(report);
    }

    /** `/sync-events`: 400 unless classwork is stored for the session; then the
        assignment sync of it, whose exception is a 500. Nothing is stored. */
    method SyncEventsEndpoint(session: Option<string>, st: Stages) returns (r: Reply<SyncResult>)
      requires Valid()
      ensures !CheckAuthStatus(session) ==> r == HttpError(401, NotAuthenticated)
      ensures CheckAuthStatus(session) && session.value !in assignmentsStore ==> r == HttpError(400, NoAssignments)
      ensures CheckAuthStatus(session) && session.value in assignmentsStore ==>
        var result := st.syncAssignments(assignmentsStore[session.value], credentialsStore[session.value]);
        r == if result.Ok? then Body(result.value) else HttpError(500, InternalError)
    {
      var auth := GetCurrentCredentials(session);
      if !auth.Body? {
        return HttpError(auth.status, auth.detail);
      }
      if session.value !in assignmentsStore {
        return HttpError(400, NoAssignments);
      }
      var result := st.syncAssignments(assignmentsStore[session.value], auth.body);
      if result.Raised? {
        return HttpError(500, InternalError);
      }
      r := Body(result.value);
    }

    /** `/sync-announcements`: 400 unless unique deadlines are stored for the
        session; then the deadline sync of them. Nothing is stored. */
    method SyncAnnouncementsEndpoint(session: Option<string>, st: Stages) returns (r: Reply<SyncResult>)
      requires Valid()
      ensures !CheckAuthStatus(session) ==> r == HttpError(401, NotAuthenticated)
      ensures CheckAuthStatus(session) && session.value !in announcementsStore ==> r == HttpError(400, NoDeadlines)
      ensures CheckAuthStatus(session) && session.value in announcementsStore ==>
        var result := st.syncAnnouncements(announcementsStore[session.value], credentialsStore[session.value]);
        r == if result.Ok? then Body(result.value) else HttpError(500, InternalError)
    {
      var auth := GetCurrentCredentials(session);
      if !auth.Body? {
        return HttpError(auth.status, auth.detail);
      }
      if session.value !in announcementsStore {
        return HttpError(400, NoDeadlines);
      }
      var result := st.syncAnnouncements(announcementsStore[session.value], auth.body);
      if result.Raised? {
        return HttpError(500, InternalError);
      }
      r := Body(result.value);
    }

    /** `create_calendar_event`: after the credentials check, the reply of
        `CreateEventReply`, filling in the event as the handler does. */
    method CreateCalendarEvent(session: Option<string>, svc: Services,
                               insert: CalendarSync.EventBody -> Outcome<Record>, data: Record)
      returns (r: Reply<CustomCreated>)
      ensures !CheckAuthStatus(session) ==> r == HttpError(401, NotAuthenticated)
      ensures CheckAuthStatus(session) ==> r == CreateEventReply(svc, insert, credentialsStore[session.value], data)
    {
      var auth := GetCurrentCredentials(session);
      if !auth.Body? {
        return HttpError(auth.status, auth.detail);
      }
      var credentials := auth.body;
      if !Truthy(Get(data, "title", JNull)) || !Truthy(Get(data, "date", JNull)) {
        return HttpError(400, MissingFields);
      }
      if "token" !in credentials {
        return CreateFailure("'token'");
      }
      var event := BuildCustomEvent(svc, data);
      if event.Raised? {
        return CreateFailure(event.message);
      }
      var createdEvent := insert(event.value);
      if createdEvent.Raised? {
        return CreateFailure(createdEvent.message);
      }
      r := CreatedReply(createdEvent.value);
    }

    /** `/sync-all`: after the credentials check it never fails; it returns the
        results of `SyncAllRun` and stores what that run gathered. */
    method SyncAll(session: Option<string>, st: Stages) returns (r: Reply<Progress>)
      requires Valid()
      modifies this
      ensures Valid()
      ensures !CheckAuthStatus(session) ==> r == HttpError(401, NotAuthenticated)
      ensures !CheckAuthStatus(session) ==>
        assignmentsStore == old(assignmentsStore) && announcementsStore == old(announcementsStore)
      ensures CheckAuthStatus(session) ==>
        var run := SyncAllRun(st, credentialsStore[session.value]);
        r == Body(run.progress)
        && assignmentsStore == (if run.storedClasswork.Some?
                                then old(assignmentsStore)[session.value := run.storedClasswork.value]
                                else old(assignmentsStore))
        && announcementsStore == (if run.storedDeadlines.Some?
                                  then old(announcementsStore)[session.value := run.storedDeadlines.value]
                                  else old(announcementsStore))
      ensures oauthStates == old(oauthStates) && credentialsStore == old(credentialsStore)
    {
      var auth := GetCurrentCredentials(session);
      if !auth.Body? {
        return HttpError(auth.status, auth.detail);
      }
      var sid := session.value;
      var credentials := auth.body;
      var results := Starting;
      results := results.(step := 1, currentAction := FetchingAssignments);
      var fetched := st.fetchClasswork(credentials);
      if fetched.Raised? {
        return Body(Failed(results, fetched.message));
      }
      var classwork := fetched.value;
      assignmentsStore := assignmentsStore[sid := classwork];
      results := results.(classwork := classwork);
      results := results.(step := 2, currentAction := FetchingAnnouncements);
      var step := AnnouncementStep(st, credentials, classwork);
      if step.Raised? {
        return Body(Failed(results, step.message));
      }
      var (report, unique) := step.value;
      announcementsStore := announcementsStore[sid := unique];
      results := results.(announcements := Some(report));
      results := SyncCalendar(st, credentials, results, classwork, unique);
      r := Body(results);
    }
  }

  /** Steps 3 and 4 of `sync_all`, which only change its results. */
  method SyncCalendar(st: Stages, credentials: Record, p: Progress, classwork: Classwork, unique: seq<Record>)
    returns (results: Progress)
    requires p.errors == [] && !p.completed && p.totalSteps == 4
    ensures results == CalendarSteps(st, credentials, p, classwork, unique)
  {
    results := p.(step := 3, currentAction := SyncingAssignments);
    var assignmentsSync := st.syncAssignments(classwork, credentials);
    if assignmentsSync.Raised? {
      return Failed(results, assignmentsSync.message);
    }
    var events := AppendEntries(results.calendarEvents, CalendarSync.AssignmentKind,
                                assignmentsSync.value.tally.createdEvents);
    results := results.(calendarEvents := events);
    results := results.(step := 4, currentAction := SyncingDeadlines);
    var announcementsSync := st.syncAnnouncements(unique, credentials);
    if announcementsSync.Raised? {
      return Failed(results, announcementsSync.message);
    }
    events := AppendEntries(results.calendarEvents, CalendarSync.AnnouncementKind,
                            announcementsSync.value.tally.createdEvents);
    results := results.(calendarEvents := events);
  }

  /** The event body filled in as `create_calendar_event` does: summary,
      description and colour first, then the start and the end. */
  method BuildCustomEvent(svc: Services, data: Record) returns (r: Outcome<CalendarSync.EventBody>)
    requires Truthy(Get(data, "title", JNull)) && Truthy(Get(data, "date", JNull))
    ensures r == CustomEventBody(svc, data)
  {
    var title := data["title"];
    var description := Get(data, "description", JStr(""));
    var date := data["date"];
    var time := Get(data, "time", JNull);
    var start, end;
    if Truthy(time) {
      var startText := PyStr(svc, date) + "T" + PyStr(svc, time) + ":00";
      start := CalendarSync.AtTime(startText, "UTC");
      var dt := ParseIsoDateTime(startText);
      if dt.Some? && dt.value.hour < 23 {
        end := CalendarSync.AtTime(FormatDateTime(dt.value.(hour := dt.value.hour + 1)), "UTC");
      } else if time.JStr? {
        end := CalendarSync.AtTime(PyStr(svc, date) + "T" + Split(time.s, ":")[0] + ":59:59", "UTC");
      } else {
        return Raised("'" + TypeName(time) + "' object has no attribute 'split'");
      }
    } else {
      start := CalendarSync.OnDate(date);
      end := CalendarSync.OnDate(date);
    }
    r := Ok(CalendarSync.EventBody(title, description, start, end, Some("7")));
  }

  /** One loop of `sync_all` over a sync's created events, appending an entry of
      the loop's kind for each. */
  method AppendEntries(before: seq<CalendarEntry>, kind: CalendarSync.Kind, created: seq<CalendarSync.CreatedEvent>)
    returns (after: seq<CalendarEntry>)
    ensures after == before + Entries(kind, created)
  {
    after := before;
    for i := 0 to |created|
      invariant after == before + Entries(kind, created[..i])
    {
      assert created[..i + 1][..i] == created[..i];
      after := after + [EntryOf(kind, created[i])];
    }
    assert created[..|created|] == created;
  }

  /** A state is good for one successful callback only: replaying it is refused. */
  method ReplayIsRefused(app: App, baseUrl: string, requestUrl: string, state: string,
                         fetchToken: (string, string, string) -> Outcome<Record>, id1: string, id2: string,
                         session: Option<string>)
    returns (first: Reply<()>, second: Reply<()>)
    requires app.Valid()
    modifies app
    ensures app.Valid()
    ensures first.Redirect? ==> second == HttpError(400, InvalidState)
  {
    var s1, s2;
    first, s1 := app.Callback(baseUrl, requestUrl, Some(state), fetchToken, id1, session);
    second, s2 := app.Callback(baseUrl, requestUrl, Some(state), fetchToken, id2, s1);
  }

  /** After a login whose state comes back with a token, the new session is
      authenticated and the state is no longer pending. */
  method LoginThenCallback(app: App, baseUrl: string, requestUrl: string, authorize: string -> Outcome<(string, string)>,
                           fetchToken: (string, string, string) -> Outcome<Record>, freshId: string)
    returns (session: Option<string>)
    requires app.Valid() && freshId != ""
    requires authorize(RedirectUri(baseUrl)).Ok? && authorize(RedirectUri(baseUrl)).value.1 != ""
    requires fetchToken(RedirectUri(baseUrl), authorize(RedirectUri(baseUrl)).value.1,
                        ReplaceAll(requestUrl, "127.0.0.1", "localhost")).Ok?
    modifies app
    ensures app.Valid()
    ensures session == Some(freshId) && app.CheckAuthStatus(session)
    ensures authorize(RedirectUri(baseUrl)).value.1 !in app.oauthStates
  {
    var state := authorize(RedirectUri(baseUrl)).value.1;
    var login := app.Login(baseUrl, authorize);
    var reply, s := app.Callback(baseUrl, requestUrl, Some(state), fetchToken, freshId, None);
    session := s;
  }
}
