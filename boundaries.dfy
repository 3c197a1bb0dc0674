/** The three places that decide whether something due today at a given time is
    still ahead, compared at the instant it falls due: the deduplication stage
    wants it strictly after the clock, the deadline sync skips it only strictly
    before, and the Classroom fetch keeps it when it is not before. */
module TemporalRules {
  import opened Wrappers
  import opened Text
  import opened JsonModel
  import opened Dates
  import Deduplication
  import CalendarSync
  import ClassroomFetch

  /** An announcement-derived deadline due on the clock's date at a time text that
      reads as minute `t` of the day (`HH:MM` reads as `h * 60 + m`, by
      `Deduplication.TimeTextIsRead`). */
  predicate DueTodayAt(d: Record, now: Clock, t: int)
  {
    && "dueDate" in d && d["dueDate"] == JStr(FormatDate(now.date))
    && "dueTime" in d && d["dueTime"].JStr? && Deduplication.TimeOfDay(d["dueTime"].s) == Some(t)
  }

  /** The moment the deadline sync compares: the parsed due date at the read time. */
  lemma SyncReadsDueMoment(d: Record, now: Clock, t: int)
    requires ValidClock(now) && now.date.year >= 1000
    requires DueTodayAt(d, now, t)
    ensures CalendarSync.Screen(now, d).Past? <==> Before(Moment(now.date, t), now)
  {
    var time := Get(d, "dueTime", JNull);
    var dt := DateTime(now.date, 0, 0, 0);
    assert ParseIsoDateTime(d["dueDate"].s) == Some(dt) by {
      FormatDateRoundTrip(now.date);
      DateOnlyIsMidnight(FormatDate(now.date));
    }
    assert Truthy(time) by {
      Deduplication.EmptyTimeIsUnreadable();
    }
    assert CalendarSync.Screen(now, d).Past? <==> Before(Moment(dt.date, t), now) by {
      CalendarSync.PastDeadlinesAreSkipped(now, d, dt);
    }
  }

  /** At the very minute a deadline falls due (no microseconds into it), the
      deduplication stage drops it while the deadline sync would still create
      its event. */
  lemma DueNowIsDroppedButNotSkipped(d: Record, now: Clock, t: int)
    requires ValidClock(now) && now.date.year >= 1000
    requires DueTodayAt(d, now, t) && now.minute == t && now.micros == 0
    ensures !Deduplication.DueCheck(d, now).Retain?
    ensures !CalendarSync.Screen(now, d).Past?
  {
    Deduplication.TimedTodayDecides(d, now, t);
    SyncReadsDueMoment(d, now, t);
  }

  /** Once the clock is past that instant, both drop it. */
  lemma DuePastIsDroppedAndSkipped(d: Record, now: Clock, t: int)
    requires ValidClock(now) && now.date.year >= 1000
    requires DueTodayAt(d, now, t) && now.minute == t && now.micros > 0
    ensures !Deduplication.DueCheck(d, now).Retain?
    ensures CalendarSync.Screen(now, d).Past?
  {
    Deduplication.TimedTodayDecides(d, now, t);
    SyncReadsDueMoment(d, now, t);
  }

  /** A Classroom item whose local due moment is the clock's minute is listed
      at that instant and dropped once the minute has begun. */
  lemma FetchKeepsDueNow(courseName: Json, now: Clock, offset: int, zone: string, a: Record, d: Date, h: int, m: int)
    requires -MinutesPerDay < offset < MinutesPerDay
    requires Truthy(Get(a, "dueDate", JNull)) && ClassroomFetch.DueDateFields(Get(a, "dueDate", JNull)) == Some(d)
    requires Truthy(Get(a, "dueTime", JNull)) && ClassroomFetch.DueTimeFields(Get(a, "dueTime", JNull)) == Some((h, m))
    requires ValidDate(d) && 0 <= h < 24 && 0 <= m < 60
    requires Shift(Moment(d, h * 60 + m), offset) == Some(Moment(now.date, now.minute))
    ensures now.micros == 0 ==> ClassroomFetch.ItemCheck(courseName, now, offset, zone, a).Keep?
    ensures now.micros > 0 ==> ClassroomFetch.ItemCheck(courseName, now, offset, zone, a).Skip?
  {
    ClassroomFetch.TimedItemRule(courseName, now, offset, zone, a, d, h, m);
  }
}
