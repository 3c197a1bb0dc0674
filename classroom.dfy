/** The Classroom fetch: the courses created after the semester cutoff, and the
    assignments of those courses that are not yet due, reshaped into the records
    the dashboard and the calendar sync read. The API's responses are inputs: the
    course list is a sequence and the coursework listing of a course is a function
    from its id to its items (None when that call raises). */
module ClassroomFetch {
  import opened Wrappers
  import opened Text
  import opened JsonModel
  import opened Dates
  import opened Seqs
  import Deduplication

  // ---------------------------------------------------------------- the semester cutoff

  /** The cutoff date; courses must be created strictly after its midnight (UTC). */
  const CutoffDate := Date(2025, 3, 23)

  const NoCoursesMessage := "No courses found."

  predicate ZFree(s: string)
  {
    forall k :: 0 <= k < |s| ==> s[k] != 'Z'
  }

  /** `s.replace("Z", "+00:00")`. */
  function ReplaceZ(s: string): (r: string)
    ensures ZFree(r)
    ensures ZFree(s) ==> r == s
    decreases |s|
  {
    if s == [] then ""
    else
      var c := s[|s| - 1];
      assert ZFree(s) ==> ZFree(s[..|s| - 1]);
      ReplaceZ(s[..|s| - 1]) + (if c == 'Z' then "+00:00" else [c])
  }

  /** An aware UTC instant: a date and time with whole seconds, and the microseconds. */
  datatype Stamp = Stamp(time: DateTime, micros: nat)

  /** The microseconds of an optional fraction `.d…` of one to six digits. */
  function FractionMicros(f: string): (r: Option<nat>)
    ensures f == "" ==> r == Some(0)
    ensures r.Some? && f != "" ==> f[0] == '.' && AllDigits(f[1..])
  {
    if f == "" then Some(0)
    else if f[0] == '.' && |f| <= 7 && AllDigits(f[1..]) then Some(DigitsValue(f[1..]) * Power10(7 - |f|))
    else None
  }

  /** `datetime.fromisoformat` on the form the Classroom API gives `creationTime`
      after `Z` became `+00:00`: `YYYY-MM-DDTHH:MM:SS`, an optional fraction of
      one to six digits, and the UTC offset; None for anything else. */
  function ParseUtcStamp(s: string): (r: Option<Stamp>)
    ensures r.Some? ==> ValidDateTime(r.value.time)
  {
    if |s| < 25 || s[|s| - 6..] != "+00:00" then None
    else
      var t := ParseIsoDateTime(s[..19]);
      var f := FractionMicros(s[19..|s| - 6]);
      if t.Some? && f.Some? then Some(Stamp(t.value, f.value)) else None
  }

  /** `created > datetime(2025, 3, 23, tzinfo=timezone.utc)`. */
  predicate AfterCutoff(st: Stamp)
  {
    var t := st.time;
    DateLess(CutoffDate, t.date)
    || (t.date == CutoffDate && (t.hour > 0 || t.minute > 0 || t.second > 0 || st.micros > 0))
  }

  /** One iteration of the course loop. A course without a creation time is passed
      over; a creation time that is not a string (`.replace` raises) or does not
      parse raises out of the whole fetch. */
  function CourseCheck(course: Record): Deduplication.Verdict
  {
    var iso := Get(course, "creationTime", JNull);
    if !Truthy(iso) then Deduplication.Drop
    else if !iso.JStr? then Deduplication.Fail
    else
      match ParseUtcStamp(ReplaceZ(iso.s))
      case None => Deduplication.Fail
      case Some(st) => if AfterCutoff(st) then Deduplication.Retain else Deduplication.Drop
  }

  function CourseVerdicts(): Record -> Deduplication.Verdict
  {
    c => CourseCheck(c)
  }

  /** The courses of the current semester, in order; None when the loop raises. */
  function SemesterCourses(courses: seq<Record>): (r: Option<seq<Record>>)
    ensures r.Some? ==> |r.value| <= |courses|
  {
    Deduplication.Survivors(CourseVerdicts(), courses)
  }

  /** The courses the filter keeps. */
  function InSemester(): Record -> bool
  {
    Deduplication.Retains(CourseVerdicts())
  }

  /** The course filter raises exactly when some course has an unreadable creation
      time, and otherwise keeps exactly the courses created after the cutoff. */
  lemma SemesterCoursesSelect(courses: seq<Record>)
    ensures SemesterCourses(courses).None? <==> exists k :: 0 <= k < |courses| && CourseCheck(courses[k]).Fail?
    ensures SemesterCourses(courses).Some? ==> SemesterCourses(courses).value == Filter(InSemester(), courses)
  {
    Deduplication.SurvivorsRaiseIff(CourseVerdicts(), courses);
    if SemesterCourses(courses).Some? {
      Deduplication.SurvivorsAreRetained(CourseVerdicts(), courses);
    }
  }

  lemma ZFreeJoin(a: string, b: string)
    requires ZFree(a) && ZFree(b)
    ensures ZFree(a + b)
  {
  }

  /** What `dt.strftime("%Y-%m-%dT%H:%M:%S")` prints has no `Z` in it. */
  lemma IsoTextIsZFree(t: DateTime)
    requires ValidDateTime(t)
    ensures ZFree(FormatDateTime(t))
  {
    var y := Pad4(t.date.year);
    var mo := Pad2(t.date.month);
    var d := Pad2(t.date.day);
    var h := Pad2(t.hour);
    var mi := Pad2(t.minute);
    var se := Pad2(t.second);
    assert ZFree(y) by { DigitsOfPad4(t.date.year); }
    assert ZFree(mo) by { DigitsOfPad2(t.date.month); }
    assert ZFree(d) by { DigitsOfPad2(t.date.day); }
    assert ZFree(h) by { DigitsOfPad2(t.hour); }
    assert ZFree(mi) by { DigitsOfPad2(t.minute); }
    assert ZFree(se) by { DigitsOfPad2(t.second); }
    IsoPiecesAreZFree(y, mo, d, h, mi, se);
  }

  lemma IsoPiecesAreZFree(y: string, mo: string, d: string, h: string, mi: string, se: string)
    requires ZFree(y) && ZFree(mo) && ZFree(d) && ZFree(h) && ZFree(mi) && ZFree(se)
    ensures ZFree(y + "-" + mo + "-" + d + "T" + h + ":" + mi + ":" + se)
  {
    ZFreeJoin(y, "-");
    ZFreeJoin(y + "-", mo);
    ZFreeJoin(y + "-" + mo, "-");
    ZFreeJoin(y + "-" + mo + "-", d);
    ZFreeJoin(y + "-" + mo + "-" + d, "T");
    ZFreeJoin(y + "-" + mo + "-" + d + "T", h);
    ZFreeJoin(y + "-" + mo + "-" + d + "T" + h, ":");
    ZFreeJoin(y + "-" + mo + "-" + d + "T" + h + ":", mi);
    ZFreeJoin(y + "-" + mo + "-" + d + "T" + h + ":" + mi, ":");
    ZFreeJoin(y + "-" + mo + "-" + d + "T" + h + ":" + mi + ":", se);
  }

  /** A creation time in the API's form is read as that instant. */
  lemma CreationTimeIsRead(t: DateTime)
    requires ValidDateTime(t)
    ensures ParseUtcStamp(ReplaceZ(FormatDateTime(t) + "Z")) == Some(Stamp(t, 0))
  {
    var f := FormatDateTime(t);
    IsoTextIsZFree(t);
    var s0 := f + "Z";
    assert s0[..|s0| - 1] == f;
    assert ReplaceZ(s0) == f + "+00:00";
    FormatDateTimeRoundTrip(t);
    var s := f + "+00:00";
    assert |f| == 19 by {
      DigitsOfPad4(t.date.year);
    }
    assert s[..19] == f;
    assert s[19..|s| - 6] == "";
    assert s[|s| - 6..] == "+00:00";
  }

  /** A course created at a whole second `t` (UTC) belongs to the semester exactly
      when `t` is later than 2025-03-23T00:00:00Z; a course created at that very
      instant does not. */
  lemma CutoffIsStrict(course: Record, t: DateTime)
    requires ValidDateTime(t)
    requires Get(course, "creationTime", JNull) == JStr(FormatDateTime(t) + "Z")
    ensures CourseCheck(course).Fail? == false
    ensures CourseCheck(course).Retain?
        <==> (DateLess(CutoffDate, t.date) || (t.date == CutoffDate && (t.hour, t.minute, t.second) != (0, 0, 0)))
  {
    var iso := Get(course, "creationTime", JNull);
    assert Truthy(iso) && iso.JStr? && iso.s == FormatDateTime(t) + "Z";
    assert ParseUtcStamp(ReplaceZ(iso.s)) == Some(Stamp(t, 0)) by {
      CreationTimeIsRead(t);
    }
    assert CourseCheck(course) == if AfterCutoff(Stamp(t, 0)) then Deduplication.Retain else Deduplication.Drop;
  }

  /** A course whose creation time is missing or empty is never used. */
  lemma UndatedCourseIsSkipped(course: Record)
    requires !Truthy(Get(course, "creationTime", JNull))
    ensures CourseCheck(course).Drop?
  {
  }

  // ---------------------------------------------------------------- one assignment

  /** The year, month and day of a Classroom `dueDate` object; None when it is not
      an object or a field is missing or not an integer (the indexing, the `:02d`
      format or the `datetime` constructor raises). */
  function DueDateFields(due: Json): (r: Option<Date>)
    ensures r.Some? ==> due.JObj? && "year" in due.fields && due.fields["year"] == JInt(r.value.year)
  {
    match due
    case JObj(f) =>
      if "year" in f && "month" in f && "day" in f && f["year"].JInt? && f["month"].JInt? && f["day"].JInt? then
        Some(Date(f["year"].i, f["month"].i, f["day"].i))
      else None
    case _ => None
  }

  /** The hours and minutes of a Classroom `dueTime` object, each 0 when absent
      (the API omits zero fields); None when it is not an object or a field is not
      an integer. */
  function DueTimeFields(time: Json): (r: Option<(int, int)>)
    ensures time.JObj? && "hours" !in time.fields && "minutes" !in time.fields ==> r == Some((0, 0))
    ensures r.Some? ==> time.JObj?
  {
    match time
    case JObj(f) =>
      var h := Get(f, "hours", JInt(0));
      var m := Get(f, "minutes", JInt(0));
      if h.JInt? && m.JInt? then Some((h.i, m.i)) else None
    case _ => None
  }

  /** What one iteration of the coursework loop does with an item. */
  datatype ItemOutcome<R> = Skip | Keep(assignment: R) | Raise

  /** The time part of an assignment with a due time: `dueTime` (UTC `HH:MM`),
      `localDueTime` and `localTimezone`; `dueTimeUTC` is always True. */
  datatype DueAt = DueAt(utc: string, local: string, zone: string)

  /** The reshaped assignment the fetch appends. */
  datatype Assignment = Assignment(title: Json, description: Json, courseName: Json, workType: Json,
                                   dueDate: string, time: Option<DueAt>)

  /** The dictionary the fetch returns for an assignment. */
  function AsRecord(x: Assignment): Record
  {
    var base := map["title" := x.title, "description" := x.description, "courseName" := x.courseName,
                    "workType" := x.workType, "dueDate" := JStr(x.dueDate)];
    match x.time
    case None => base
    case Some(t) =>
      base["dueTime" := JStr(t.utc)]["dueTimeUTC" := JBool(true)]
          ["localDueTime" := JStr(t.local)]["localTimezone" := JStr(t.zone)]
  }

  function ToRecords(xs: seq<Assignment>): (rs: seq<Record>)
    ensures |rs| == |xs| && forall i :: 0 <= i < |xs| ==> rs[i] == AsRecord(xs[i])
  {
    seq(|xs|, i requires 0 <= i < |xs| => AsRecord(xs[i]))
  }

  /** The dictionary holds the assignment's fields under the source's keys... */
  lemma AsRecordFields(x: Assignment)
    ensures var r := AsRecord(x);
      && r["title"] == x.title && r["description"] == x.description
      && r["courseName"] == x.courseName && r["workType"] == x.workType
      && r["dueDate"] == JStr(x.dueDate)
  {
  }

  /** ...and the time keys exactly when the assignment has a due time. */
  lemma AsRecordTime(x: Assignment)
    ensures var r := AsRecord(x);
      && ("dueTimeUTC" in r <==> x.time.Some?)
      && (x.time.Some? ==> r["dueTime"] == JStr(x.time.value.utc) && r["dueTimeUTC"] == JBool(true)
                           && r["localDueTime"] == JStr(x.time.value.local)
                           && r["localTimezone"] == JStr(x.time.value.zone))
  {
  }

  /** `f"{h:02d}:{m:02d}"`. */
  function ClockText(h: int, m: int): string
  {
    Pad2(h) + ":" + Pad2(m)
  }

  function Untimed(courseName: Json, a: Record, d: Date): Assignment
  {
    Assignment(Get(a, "title", JNull), Get(a, "description", JNull), courseName, Get(a, "workType", JNull),
               FormatDate(d), None)
  }

  /** The due time of a timed assignment: UTC `h:m`, and the local instant `local`
      as `HH:MM` with the zone's name. */
  function TimeOf(h: int, m: int, local: Moment, zone: string): DueAt
  {
    DueAt(ClockText(h, m), ClockText(local.minute / 60, local.minute % 60), zone)
  }

  /** One iteration of the coursework loop with local clock reading `now` and local
      UTC offset `offset` minutes (named `zone`). Items without a due date are
      passed over. A timed item is kept when its instant, seen in local time, is
      not before now; an untimed one when its date is not before today. Malformed
      fields and an impossible date or time raise. */
  function ItemCheck(courseName: Json, now: Clock, offset: int, zone: string, a: Record): ItemOutcome<Assignment>
    requires -MinutesPerDay < offset < MinutesPerDay
  {
    var due := Get(a, "dueDate", JNull);
    var time := Get(a, "dueTime", JNull);
    if !Truthy(due) then Skip
    else
      match DueDateFields(due)
      case None => Raise
      case Some(d) =>
        if !Truthy(time) then
          if !ValidDate(d) then Raise
          else if DateLess(d, now.date) then Skip
          else Keep(Untimed(courseName, a, d))
        else
          match DueTimeFields(time)
          case None => Raise
          case Some((h, m)) => TimedCheck(courseName, now, offset, zone, a, d, h, m)
  }

  function TimedCheck(courseName: Json, now: Clock, offset: int, zone: string, a: Record, d: Date, h: int, m: int)
    : ItemOutcome<Assignment>
    requires -MinutesPerDay < offset < MinutesPerDay
  {
    if !(ValidDate(d) && 0 <= h < 24 && 0 <= m < 60) then Raise
    else
      match Shift(Moment(d, h * 60 + m), offset)
      case None => Raise
      case Some(local) =>
        if Before(local, now) then Skip
        else Keep(Untimed(courseName, a, d).(time := Some(TimeOf(h, m, local, zone))))
  }

  function ItemChecks(courseName: Json, now: Clock, offset: int, zone: string): Record -> ItemOutcome<Assignment>
    requires -MinutesPerDay < offset < MinutesPerDay
  {
    a => ItemCheck(courseName, now, offset, zone, a)
  }

  /** An item without a (truthy) due date is never listed. */
  lemma UndatedItemIsSkipped(courseName: Json, now: Clock, offset: int, zone: string, a: Record)
    requires -MinutesPerDay < offset < MinutesPerDay
    requires !Truthy(Get(a, "dueDate", JNull))
    ensures ItemCheck(courseName, now, offset, zone, a) == Skip
  {
  }

  /** An untimed item with a valid due date `d` is kept exactly when `d` is today
      or later, and then carries its title, description, work type, course name
      and `YYYY-MM-DD` date and no time. */
  lemma UntimedItemRule(courseName: Json, now: Clock, offset: int, zone: string, a: Record, d: Date)
    requires -MinutesPerDay < offset < MinutesPerDay
    requires Truthy(Get(a, "dueDate", JNull)) && DueDateFields(Get(a, "dueDate", JNull)) == Some(d)
    requires ValidDate(d) && !Truthy(Get(a, "dueTime", JNull))
    ensures var o := ItemCheck(courseName, now, offset, zone, a);
      && (o.Keep? <==> DateAtMost(now.date, d))
      && (o.Keep? ==> o.assignment == Assignment(Get(a, "title", JNull), Get(a, "description", JNull), courseName,
                                                 Get(a, "workType", JNull), FormatDate(d), None))
      && !o.Raise?
  {
  }

  /** A timed item with a valid date and time is kept exactly when its instant in
      the local zone is not before now, and then carries its title, description,
      work type, course name and `YYYY-MM-DD` date, the UTC time `HH:MM` and the
      local `HH:MM` with the zone's name. */
  lemma TimedItemRule(courseName: Json, now: Clock, offset: int, zone: string, a: Record, d: Date, h: int, m: int)
    requires -MinutesPerDay < offset < MinutesPerDay
    requires Truthy(Get(a, "dueDate", JNull)) && DueDateFields(Get(a, "dueDate", JNull)) == Some(d)
    requires Truthy(Get(a, "dueTime", JNull)) && DueTimeFields(Get(a, "dueTime", JNull)) == Some((h, m))
    requires ValidDate(d) && 0 <= h < 24 && 0 <= m < 60
    requires Shift(Moment(d, h * 60 + m), offset).Some?
    ensures var local := Shift(Moment(d, h * 60 + m), offset).value;
      var o := ItemCheck(courseName, now, offset, zone, a);
      && (o.Keep? <==> !Before(local, now))
      && (o.Keep? ==> o.assignment == Assignment(Get(a, "title", JNull), Get(a, "description", JNull), courseName,
                                                 Get(a, "workType", JNull), FormatDate(d),
                                                 Some(DueAt(ClockText(h, m), ClockText(local.minute / 60, local.minute % 60), zone))))
      && !o.Raise?
  {
  }

  /** A kept item had a due date; its assignment names the course and the date,
      and has a time exactly when the item had one. */
  lemma KeptItemShape(courseName: Json, now: Clock, offset: int, zone: string, a: Record)
    requires -MinutesPerDay < offset < MinutesPerDay
    requires ItemCheck(courseName, now, offset, zone, a).Keep?
    ensures Truthy(Get(a, "dueDate", JNull))
    ensures var d := DueDateFields(Get(a, "dueDate", JNull));
      var x := ItemCheck(courseName, now, offset, zone, a).assignment;
      && d.Some? && ValidDate(d.value)
      && x.dueDate == FormatDate(d.value) && x.courseName == courseName
      && (x.time.Some? <==> Truthy(Get(a, "dueTime", JNull)))
  {
    var time := Get(a, "dueTime", JNull);
    if Truthy(time) {
      var d := DueDateFields(Get(a, "dueDate", JNull)).value;
      var hm := DueTimeFields(time).value;
      assert ItemCheck(courseName, now, offset, zone, a) == TimedCheck(courseName, now, offset, zone, a, d, hm.0, hm.1);
    }
  }

  /** The due date and due time of a timed assignment are read back by the later
      stages as the same date (for four-digit years) and the same minute of the day. */
  lemma TimedTextsAreReadBack(x: Assignment, d: Date, h: int, m: int)
    requires ValidDate(d) && d.year >= 1000 && 0 <= h < 24 && 0 <= m < 60
    requires x.dueDate == FormatDate(d) && x.time.Some? && x.time.value.utc == ClockText(h, m)
    ensures ParseIsoDate(x.dueDate) == Some(d)
    ensures Deduplication.TimeOfDay(x.time.value.utc) == Some(h * 60 + m)
  {
    FormatDateRoundTrip(d);
    Deduplication.TimeTextIsRead(h, m);
  }

  /** The local time printed for a timed record is the valid clock face of the
      shifted instant. */
  lemma LocalTimeIsShifted(d: Date, h: int, m: int, offset: int)
    requires ValidDate(d) && 0 <= h < 24 && 0 <= m < 60 && -MinutesPerDay < offset < MinutesPerDay
    requires Shift(Moment(d, h * 60 + m), offset).Some?
    ensures var local := Shift(Moment(d, h * 60 + m), offset).value;
      && 0 <= local.minute / 60 < 24 && 0 <= local.minute % 60 < 60
      && local.minute == (h * 60 + m + offset) % MinutesPerDay
  {
  }

  // ---------------------------------------------------------------- one course

  /** What the coursework loop of one course appended, and whether it stopped on
      an exception (which skips the rest of that course). */
  datatype Gathered<R> = Gathered(kept: seq<R>, stopped: bool)

  function Collected<T, R>(check: T -> ItemOutcome<R>, items: seq<T>): (g: Gathered<R>)
    ensures |g.kept| <= |items|
    decreases |items|
  {
    if items == [] then Gathered([], false)
    else
      var g := Collected(check, items[..|items| - 1]);
      if g.stopped then g
      else
        match check(items[|items| - 1])
        case Raise => Gathered(g.kept, true)
        case Skip => g
        case Keep(x) => Gathered(g.kept + [x], false)
  }

  /** The records kept from a sequence of items none of which raises. */
  function KeptOf<T, R>(check: T -> ItemOutcome<R>, items: seq<T>): seq<R>
    decreases |items|
  {
    if items == [] then []
    else
      var rest := KeptOf(check, items[..|items| - 1]);
      match check(items[|items| - 1])
      case Keep(x) => rest + [x]
      case _ => rest
  }

  /** Without an exception, every kept item is appended, in order. */
  lemma {:induction false} CollectedWithoutRaise<T, R>(check: T -> ItemOutcome<R>, items: seq<T>)
    requires forall k :: 0 <= k < |items| ==> !check(items[k]).Raise?
    ensures Collected(check, items) == Gathered(KeptOf(check, items), false)
    decreases |items|
  {
    if items != [] {
      var init := items[..|items| - 1];
      assert forall k :: 0 <= k < |init| ==> init[k] == items[k];
      CollectedWithoutRaise(check, init);
    }
  }

  /** Once the loop has stopped, later items change nothing. */
  lemma {:induction false} StoppedStays<T, R>(check: T -> ItemOutcome<R>, items: seq<T>, more: seq<T>)
    requires Collected(check, items).stopped
    ensures Collected(check, items + more) == Collected(check, items)
    decreases |more|
  {
    if more != [] {
      var m' := more[..|more| - 1];
      assert (items + more)[..|items + more| - 1] == items + m';
      StoppedStays(check, items, m');
      assert Collected(check, items + m').stopped;
      assert Collected(check, items + more) == Collected(check, items + m');
    } else {
      assert items + more == items;
    }
  }

  /** A loop stopped within the first `n` items ends as it was after them. */
  lemma StoppedBefore<T, R>(check: T -> ItemOutcome<R>, items: seq<T>, n: int)
    requires 0 <= n <= |items| && Collected(check, items[..n]).stopped
    ensures Collected(check, items) == Collected(check, items[..n])
  {
    StoppedStays(check, items[..n], items[n..]);
    SplitAt(items, n);
  }

  /** One iteration of the item loop. */
  lemma CollectedStep<T, R>(check: T -> ItemOutcome<R>, items: seq<T>, i: int, kept: seq<R>)
    requires 0 <= i < |items| && Collected(check, items[..i]) == Gathered(kept, false)
    ensures Collected(check, items[..i + 1])
         == match check(items[i])
            case Raise => Gathered(kept, true)
            case Skip => Gathered(kept, false)
            case Keep(x) => Gathered(kept + [x], false)
  {
    assert items[..i + 1][..i] == items[..i];
    assert items[..i + 1][i] == items[i];
  }

  /** An exception at item `k` keeps the items before it and drops every later
      one: the records of that course are those of `items[..k]`. */
  lemma RaiseSkipsRestOfCourse<T, R>(check: T -> ItemOutcome<R>, items: seq<T>, k: int)
    requires 0 <= k < |items| && check(items[k]).Raise?
    requires forall j :: 0 <= j < k ==> !check(items[j]).Raise?
    ensures Collected(check, items).kept == KeptOf(check, items[..k])
    ensures Collected(check, items).stopped
  {
    var pre := items[..k];
    var upto := items[..k + 1];
    assert forall j :: 0 <= j < |pre| ==> pre[j] == items[j];
    CollectedWithoutRaise(check, pre);
    CollectedStep(check, items, k, KeptOf(check, pre));
    StoppedBefore(check, items, k + 1);
  }

  /** Every record a course contributes is the kept form of one of its items. */
  ghost predicate KeptFrom<T, R>(check: T -> ItemOutcome<R>, items: seq<T>, x: R)
  {
    exists k :: 0 <= k < |items| && check(items[k]) == Keep(x)
  }

  lemma {:induction false} CollectedComesFromItems<T, R>(check: T -> ItemOutcome<R>, items: seq<T>)
    ensures forall x :: x in Collected(check, items).kept ==> KeptFrom(check, items, x)
    decreases |items|
  {
    if items != [] {
      var n := |items| - 1;
      var init := items[..n];
      CollectedComesFromItems(check, init);
      forall x | x in Collected(check, items).kept
        ensures KeptFrom(check, items, x)
      {
        if x in Collected(check, init).kept {
          var k :| 0 <= k < |init| && check(init[k]) == Keep(x);
          assert items[k] == init[k];
        } else {
          assert check(items[n]) == Keep(x);
        }
      }
    }
  }

  // ---------------------------------------------------------------- all courses

  /** What a loop that appends each element's share ends with; None as soon as an
      element has no share (it raises). */
  function Accumulated<T, R>(share: T -> Option<seq<R>>, s: seq<T>): (r: Option<seq<R>>)
    decreases |s|
  {
    if s == [] then Some([])
    else
      match Accumulated(share, s[..|s| - 1])
      case None => None
      case Some(acc) =>
        match share(s[|s| - 1])
        case None => None
        case Some(x) => Some(acc + x)
  }

  /** Accumulation works element by element: the result for two runs is the
      results of each, one after the other, and a failure in either fails both. */
  lemma {:induction false} AccumulatedAppend<T, R>(share: T -> Option<seq<R>>, a: seq<T>, b: seq<T>)
    ensures Accumulated(share, a + b)
      == if Accumulated(share, a).Some? && Accumulated(share, b).Some?
         then Some(Accumulated(share, a).value + Accumulated(share, b).value)
         else None
    decreases |b|
  {
    var ra := Accumulated(share, a);
    if b == [] {
      assert a + b == a;
      if ra.Some? {
        assert ra.value + [] == ra.value;
      }
    } else {
      var b' := b[..|b| - 1];
      var last := b[|b| - 1];
      assert (a + b)[..|a + b| - 1] == a + b';
      assert (a + b)[|a + b| - 1] == last;
      AccumulatedAppend(share, a, b');
      var rb' := Accumulated(share, b');
      if ra.Some? && rb'.Some? && share(last).Some? {
        assert ra.value + rb'.value + share(last).value == ra.value + (rb'.value + share(last).value);
      }
    }
  }

  /** An element whose share is empty can be removed without changing the result. */
  lemma EmptyShareIsNeutral<T, R>(share: T -> Option<seq<R>>, a: seq<T>, c: T, b: seq<T>)
    requires share(c) == Some([])
    ensures Accumulated(share, a + [c] + b) == Accumulated(share, a + b)
  {
    AccumulatedAppend(share, a + [c], b);
    AccumulatedAppend(share, a, [c]);
    AccumulatedAppend(share, a, b);
    var none: seq<R> := [];
    assert [c][..0] == [];
    assert Accumulated(share, [c]) == Some(none) by {
      assert Accumulated(share, [c][..0]) == Some(none);
      assert none + none == none;
    }
    var ra := Accumulated(share, a);
    if ra.Some? {
      assert ra.value + [] == ra.value;
    }
  }

  /** `x` is part of the share of one of the elements of `s`. */
  ghost predicate SharedBy<T, R>(share: T -> Option<seq<R>>, s: seq<T>, x: R)
  {
    exists k :: 0 <= k < |s| && share(s[k]).Some? && x in share(s[k]).value
  }

  lemma {:induction false} AccumulatedComesFromShares<T, R>(share: T -> Option<seq<R>>, s: seq<T>)
    requires Accumulated(share, s).Some?
    ensures forall x :: x in Accumulated(share, s).value ==> SharedBy(share, s, x)
    decreases |s|
  {
    if s != [] {
      var n := |s| - 1;
      var init := s[..n];
      AccumulatedComesFromShares(share, init);
      forall x | x in Accumulated(share, s).value
        ensures SharedBy(share, s, x)
      {
        if x in Accumulated(share, init).value {
          var k :| 0 <= k < |init| && share(init[k]).Some? && x in share(init[k]).value;
          assert s[k] == init[k];
        } else {
          assert x in share(s[n]).value;
        }
      }
    }
  }

  /** What one iteration of the course loop contributes: None when the course
      lacks its `id` or `name` (a KeyError outside the handler), nothing when its
      coursework listing raises, and otherwise what its item loop appended. */
  function CourseStep(list: Json -> Option<seq<Record>>, now: Clock, offset: int, zone: string, c: Record): Option<seq<Assignment>>
    requires -MinutesPerDay < offset < MinutesPerDay
  {
    if "id" !in c || "name" !in c then None
    else
      match list(c["id"])
      case None => Some([])
      case Some(items) => Some(Collected(ItemChecks(c["name"], now, offset, zone), items).kept)
  }

  function CourseSteps(list: Json -> Option<seq<Record>>, now: Clock, offset: int, zone: string): Record -> Option<seq<Assignment>>
    requires -MinutesPerDay < offset < MinutesPerDay
  {
    c => CourseStep(list, now, offset, zone, c)
  }

  /** The records the course loop gathers from the semester's courses; None when it raises. */
  function CourseWork(list: Json -> Option<seq<Record>>, now: Clock, offset: int, zone: string,
                      courses: seq<Record>): (r: Option<seq<Assignment>>)
    requires -MinutesPerDay < offset < MinutesPerDay
  {
    Accumulated(CourseSteps(list, now, offset, zone), courses)
  }

  /** A course whose coursework listing raises is passed over without disturbing
      the others. */
  lemma FailingCourseIsSkipped(list: Json -> Option<seq<Record>>, now: Clock, offset: int, zone: string,
                               a: seq<Record>, c: Record, b: seq<Record>)
    requires -MinutesPerDay < offset < MinutesPerDay
    requires "id" in c && "name" in c && list(c["id"]).None?
    ensures CourseWork(list, now, offset, zone, a + [c] + b) == CourseWork(list, now, offset, zone, a + b)
  {
    EmptyShareIsNeutral(CourseSteps(list, now, offset, zone), a, c, b);
  }

  /** A course with an id and a name whose listing succeeds and whose items raise
      nothing contributes exactly its kept items, in order. */
  lemma CleanCourseShare(list: Json -> Option<seq<Record>>, now: Clock, offset: int, zone: string,
                         c: Record, items: seq<Record>)
    requires -MinutesPerDay < offset < MinutesPerDay
    requires "id" in c && "name" in c && list(c["id"]) == Some(items)
    requires forall k :: 0 <= k < |items| ==> !ItemCheck(c["name"], now, offset, zone, items[k]).Raise?
    ensures CourseStep(list, now, offset, zone, c) == Some(KeptOf(ItemChecks(c["name"], now, offset, zone), items))
  {
    CollectedWithoutRaise(ItemChecks(c["name"], now, offset, zone), items);
  }

  // ---------------------------------------------------------------- the fetch

  /** The result of `fetch_classwork`: it raises, reports that no course was found,
      or returns the reshaped assignments. */
  datatype Fetched = Raised | NoCourses | Assignments(items: seq<Assignment>)

  function FetchSpec(courses: seq<Record>, list: Json -> Option<seq<Record>>, now: Clock, offset: int, zone: string): Fetched
    requires -MinutesPerDay < offset < MinutesPerDay
  {
    match SemesterCourses(courses)
    case None => Raised
    case Some(sem) =>
      if sem == [] then NoCourses
      else
        match CourseWork(list, now, offset, zone, sem)
        case None => Raised
        case Some(all) => Assignments(all)
  }

  /** "No courses found." is reported exactly when the course filter neither raises
      nor keeps a course. */
  lemma NoCoursesIff(courses: seq<Record>, list: Json -> Option<seq<Record>>, now: Clock, offset: int, zone: string)
    requires -MinutesPerDay < offset < MinutesPerDay
    ensures FetchSpec(courses, list, now, offset, zone).NoCourses?
        <==> (forall k :: 0 <= k < |courses| ==> !CourseCheck(courses[k]).Fail?)
             && Filter(InSemester(), courses) == []
  {
    SemesterCoursesSelect(courses);
  }

  /** Every assignment the fetch returns comes from an item with a due date of a
      course created after the cutoff: it names that course and carries a valid
      date as `YYYY-MM-DD`. */
  lemma FetchedAssignmentsAreShaped(courses: seq<Record>, list: Json -> Option<seq<Record>>, now: Clock,
                                    offset: int, zone: string, x: Assignment)
    requires -MinutesPerDay < offset < MinutesPerDay
    requires FetchSpec(courses, list, now, offset, zone).Assignments?
    requires x in FetchSpec(courses, list, now, offset, zone).items
    ensures exists c :: c in courses && InSemester()(c) && "name" in c && x.courseName == c["name"]
    ensures exists d :: ValidDate(d) && x.dueDate == FormatDate(d)
  {
    var sem := SemesterCourses(courses).value;
    SemesterCoursesSelect(courses);
    var steps := CourseSteps(list, now, offset, zone);
    AccumulatedComesFromShares(steps, sem);
    var k :| 0 <= k < |sem| && steps(sem[k]).Some? && x in steps(sem[k]).value;
    var c := sem[k];
    FilterMembership(InSemester(), courses, c);
    var items := list(c["id"]).value;
    var check := ItemChecks(c["name"], now, offset, zone);
    CollectedComesFromItems(check, items);
    var j :| 0 <= j < |items| && check(items[j]) == Keep(x);
    KeptItemShape(c["name"], now, offset, zone, items[j]);
  }

  /** The first loop: the courses created after the cutoff; None when it raises. */
  method FilterSemesterCourses(courses: seq<Record>) returns (sem: Option<seq<Record>>)
    ensures sem == SemesterCourses(courses)
  {
    var kept: seq<Record> := [];
    for i := 0 to |courses|
      invariant SemesterCourses(courses[..i]) == Some(kept)
    {
      assert courses[..i + 1][..i] == courses[..i];
      var iso := Get(courses[i], "creationTime", JNull);
      if !Truthy(iso) {
        continue;
      }
      if !iso.JStr? {
        Deduplication.SurvivorsRaiseIff(CourseVerdicts(), courses);
        return None;
      }
      var created := ParseUtcStamp(ReplaceZ(iso.s));
      if created.None? {
        Deduplication.SurvivorsRaiseIff(CourseVerdicts(), courses);
        return None;
      }
      if AfterCutoff(created.value) {
        kept := kept + [courses[i]];
      }
    }
    assert courses[..|courses|] == courses;
    return Some(kept);
  }

  /** The inner loop over one course's items; it stops at the first exception. */
  method CollectCourse(courseName: Json, now: Clock, offset: int, zone: string, items: seq<Record>)
    returns (kept: seq<Assignment>)
    requires -MinutesPerDay < offset < MinutesPerDay
    ensures kept == Collected(ItemChecks(courseName, now, offset, zone), items).kept
  {
    var check := ItemChecks(courseName, now, offset, zone);
    kept := [];
    var i := 0;
    while i < |items|
      invariant 0 <= i <= |items|
      invariant Collected(check, items[..i]) == Gathered(kept, false)
    {
      var outcome := check(items[i]);
      CollectedStep(check, items, i, kept);
      if outcome.Raise? {
        StoppedBefore(check, items, i + 1);
        return;
      }
      if outcome.Keep? {
        kept := kept + [outcome.assignment];
      }
      i := i + 1;
    }
    assert items[..i] == items;
  }

  lemma CourseWorkStep(list: Json -> Option<seq<Record>>, now: Clock, offset: int, zone: string,
                       courses: seq<Record>, i: int, acc: seq<Assignment>)
    requires -MinutesPerDay < offset < MinutesPerDay
    requires 0 <= i < |courses| && CourseWork(list, now, offset, zone, courses[..i]) == Some(acc)
    requires CourseStep(list, now, offset, zone, courses[i]).Some?
    ensures CourseWork(list, now, offset, zone, courses[..i + 1])
         == Some(acc + CourseStep(list, now, offset, zone, courses[i]).value)
  {
    assert courses[..i + 1][..i] == courses[..i];
    assert courses[..i + 1][i] == courses[i];
  }

  /** `fetch_classwork` with the course list and coursework listings as inputs,
      the local clock reading `now` and the local UTC offset `offset`. */
  method FetchClasswork(courses: seq<Record>, list: Json -> Option<seq<Record>>, now: Clock, offset: int, zone: string)
    returns (r: Fetched)
    requires -MinutesPerDay < offset < MinutesPerDay
    ensures r == FetchSpec(courses, list, now, offset, zone)
  {
    var sem := FilterSemesterCourses(courses);
    if sem.None? {
      return Raised;
    }
    var semester := sem.value;
    if semester == [] {
      return NoCourses;
    }
    var all: seq<Assignment> := [];
    for i := 0 to |semester|
      invariant CourseWork(list, now, offset, zone, semester[..i]) == Some(all)
    {
      assert semester[..i + 1][..i] == semester[..i];
      var course := semester[i];
      if "id" !in course || "name" !in course {
        ghost var steps := CourseSteps(list, now, offset, zone);
        assert Accumulated(steps, semester[..i + 1]).None?;
        AccumulatedAppend(steps, semester[..i + 1], semester[i + 1..]);
        assert semester[..i + 1] + semester[i + 1..] == semester;
        return Raised;
      }
      var items := list(course["id"]);
      var kept: seq<Assignment> := [];
      if items.Some? {
        kept := CollectCourse(course["name"], now, offset, zone, items.value);
      }
      assert CourseStep(list, now, offset, zone, course) == Some(kept);
      CourseWorkStep(list, now, offset, zone, semester, i, all);
      all := all + kept;
    }
    assert semester[..|semester|] == semester;
    return Assignments(all);
  }
}
