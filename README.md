# Smart Class Update Agent, modelled in Dafny

This is a Dafny model of the pipeline of the Smart Class Update Agent. The agent reads a student's Google
Classroom courses and puts their deadlines into Google Calendar. The stages are:

- **Classroom fetch** (`classroom.dfy`, module `ClassroomFetch`). It keeps the courses created after
  2025-03-23T00:00:00Z. It lists their coursework that is still due: a timed item due at or after the current moment, an
  untimed one due today or later. Each
  assignment becomes a record with a `YYYY-MM-DD` due date and, when the item has a due time, a UTC
  `HH:MM` due time plus the local time.
- **Deadline extraction** (`extract.dfy`, module `ExtractDeadlines`). It keeps the announcements that mention
  a deadline keyword and sends them to the language model in one prompt. It cleans the reply and decodes
  it, using a fallback that decodes the reply's flat `{…}` objects one by one. An item is kept only when
  it names an announcement of the batch, has a due date and has a confidence of at least 0.5.
- **Deduplication** (`dedup.dfy`, module `Deduplication`). It asks the model which extracted deadlines do not
  repeat an assignment and reads the list of indices out of the reply. It keeps those deadlines and then
  drops the ones already due (`check_due`). Any failure returns every extracted deadline.
- **Calendar sync** (`sync.dfy`, module `CalendarSync`). It turns each assignment and each deadline into a
  calendar event whose title shows the due time in IST. A timed event lasts one hour, and an untimed one
  lasts all day. Deadlines that have passed are skipped. The sync counts successes, failures and skips,
  and lists the created events.
- **Backend server** (`server.dfy`, module `Server`). It covers the OAuth login and callback with its
  pending states and the session stores. It also covers the data endpoints, the four-step `/sync-all`
  run with its progress report, and the creation of a custom event from the dashboard form.
- **Calendar view** (`frontend.dfy`, module `CalendarView`). This is the events table's type filter and
  the add-event form. The form checks the date and time shapes and moves the entered time to UTC
  before sending it.
- **Due-moment rules** (`boundaries.dfy`, module `TemporalRules`). It sets the three "still due?" rules
  side by side at the instant a deadline falls due.

Shared helper modules:

- `wrappers.dfy`: `Option`.
- `seqs.dfy`: filtering and subsequences.
- `text.dfy`: Python string operations such as `split`, `find`, `strip`, `lower` and `int()`.
- `json_model.dfy`: decoded JSON values, Python truthiness, `dict.get` and `str()`.
- `dates.dfy`: dates, `fromisoformat`, `strftime`, `timedelta(hours=1)` and clock comparisons.

Calls into code outside the core become parameters:

- The language model, `json.loads`, `json.dumps`, `float()` and `str()` of non-string values are the
  function fields of `JsonModel.Services`.
- The wording of the prompts is a `PromptTexts` value.
- The Google calendar insert call and the coursework listing are function parameters that return the
  created event or the listing, or nothing when the call raises.
- The clock is a `Dates.Clock` parameter (date, minute of the day, microsecond within the minute), and
  the local UTC offset is an integer parameter.
- In the server, the fetch, extraction, deduplication and sync stages are the function fields of
  `Server.Stages`, which return a value or the message of the exception they raise.
- The OAuth provider is represented by the `authorize` and `fetchToken` parameters, and the random
  session id by `freshId`.

## Model

| member | source | states |
|---|---|---|
| ExtractDeadlines.AnyKeywordFrom | backend-agent/src/RAG/extract_deadlines.py:40 | true exactly when one of the keywords from position `i` of the keyword list occurs in the text |
| ExtractDeadlines.FilterRelevantAnnouncements | backend-agent/src/RAG/extract_deadlines.py:30-44 | the loop returns exactly the relevant announcements, in order |
| ExtractDeadlines.RelevantSelection | backend-agent/src/RAG/extract_deadlines.py:33-41 | the kept announcements are a subsequence of the input; an announcement is kept exactly when it has non-empty text whose lower-cased form contains a keyword |
| ExtractDeadlines.JsonFenceIsFence | backend-agent/src/RAG/extract_deadlines.py:151-153 | a reply with a json-tagged fence also contains a plain fence, so the tagged case takes priority over the untagged one |
| ExtractDeadlines.BracketSlice | backend-agent/src/RAG/extract_deadlines.py:156-160 | without fences, the cleaned text is the span from the first '[' through the last ']' |
| ExtractDeadlines.NoBracketPairUnchanged | backend-agent/src/RAG/extract_deadlines.py:159-162 | without fences and with no ']' after any '[', the reply is passed on unchanged |
| ExtractDeadlines.JsonFenceBody | backend-agent/src/RAG/extract_deadlines.py:152 | splitting at a json-tagged fence that does not recur gives the body followed by the closing fence as the second piece |
| ExtractDeadlines.BarePayload | backend-agent/src/RAG/extract_deadlines.py:156-160 | a bare bracketed payload without backticks is its own cleaned form |
| ExtractDeadlines.FenceIdempotence | backend-agent/src/RAG/extract_deadlines.py:148-164 | a bracketed payload is cleaned to itself both bare and inside a json-tagged fence padded with whitespace |
| ExtractDeadlines.BraceSpansAreFlat | backend-agent/src/RAG/extract_deadlines.py:169 | every match of `\{[^{}]*\}` is a flat object: it opens with '{', closes with '}' and has no brace inside |
| ExtractDeadlines.SpansAfterPlain | backend-agent/src/RAG/extract_deadlines.py:169 | text without '{' before the rest of the reply adds no match |
| ExtractDeadlines.SpansAfterObject | backend-agent/src/RAG/extract_deadlines.py:169 | a flat object at the front is one match, and matching resumes right after it |
| ExtractDeadlines.NoCloseNoSpans | backend-agent/src/RAG/extract_deadlines.py:169 | text without '}' holds no match, so an object cut off before its closing brace is dropped |
| ExtractDeadlines.SpansOfTwoObjects | backend-agent/src/RAG/extract_deadlines.py:169 | two flat objects separated by plain text, followed by an unterminated one, give exactly those two matches |
| ExtractDeadlines.ParsedSpans | backend-agent/src/RAG/extract_deadlines.py:171-179 | the fallback never yields more values than there are matches |
| ExtractDeadlines.ParsedSpansAreParseable | backend-agent/src/RAG/extract_deadlines.py:174-179 | the fallback keeps, in order, the decoded value of every match that decodes and of no other match |
| ExtractDeadlines.ParsedTwo | backend-agent/src/RAG/extract_deadlines.py:174-179 | two decodable matches give their two values in order |
| ExtractDeadlines.FallbackJsonParse | backend-agent/src/RAG/extract_deadlines.py:166-185 | the loop returns the decoded values of the decodable `findall` matches, in order |
| ExtractDeadlines.FallbackRecoversCompleteObjects | backend-agent/src/RAG/extract_deadlines.py:166-185 | a reply holding two complete objects and a truncated third yields exactly the two complete values |
| ExtractDeadlines.IntegerNumber | backend-agent/src/RAG/extract_deadlines.py:119-122 | an integer announcement number is read as itself; only integers and booleans give a number at all |
| ExtractDeadlines.Examine | backend-agent/src/RAG/extract_deadlines.py:117-139 | a kept item passes the gate (valid announcement number, a due date that is not "null", confidence at least 0.5, the announcement's course name, source "announcement") and keeps every other field; a non-object item raises; an object item is kept exactly when its own fields open the gate |
| ExtractDeadlines.ExamineFields | backend-agent/src/RAG/extract_deadlines.py:119-139 | for an object item: kept exactly when its fields open the gate, and then enriched with the announcement's course name and source while every other field stays as it was; it raises when the announcement number is not a number, is a float naming an announcement (a float index), or is an integer naming an announcement while `float()` of the confidence fails; an integer number outside 1..n is skipped |
| ExtractDeadlines.ProcessInfos | backend-agent/src/RAG/extract_deadlines.py:113-142 | the processed deadlines are at most as many as the items, and every one of them passes the gate |
| ExtractDeadlines.ProcessAllOrNothing | backend-agent/src/RAG/extract_deadlines.py:117-146 | the whole batch is lost (the handler returns `[]`) exactly when some item raises |
| ExtractDeadlines.ProcessKeepsPassing | backend-agent/src/RAG/extract_deadlines.py:117-135 | when nothing raises, as many deadlines are kept as there are items whose verdict is keep |
| ExtractDeadlines.GatePassersAreKept | backend-agent/src/RAG/extract_deadlines.py:117-135 | when the batch is not lost, every object item that opens the gate is kept, enriched, in the output |
| ExtractDeadlines.ProcessDeadlines | backend-agent/src/RAG/extract_deadlines.py:113-142 | the loop computes `ProcessInfos`: the gated items, or nothing when one raises |
| ExtractDeadlines.Blocks | backend-agent/src/RAG/extract_deadlines.py:56-60 | one prompt block per announcement, numbered from 1 in order |
| ExtractDeadlines.BuildBatchPrompt | backend-agent/src/RAG/extract_deadlines.py:50-87 | the loop builds the instructions followed by every announcement's block in order and then the closing instructions |
| ExtractDeadlines.PromptCoversEveryAnnouncement | backend-agent/src/RAG/extract_deadlines.py:56-60 | every announcement of the batch appears in the prompt under its 1-based number |
| ExtractDeadlines.BatchOutcome | backend-agent/src/RAG/extract_deadlines.py:89-146 | every deadline of a batch passes the gate, and a failed model call yields no deadlines |
| ExtractDeadlines.TruncatedReplyIsSalvaged | backend-agent/src/RAG/extract_deadlines.py:101-110 | a reply that does not decode as a whole but holds two complete objects is processed as the list of those two objects |
| ExtractDeadlines.DecodeReply | backend-agent/src/RAG/extract_deadlines.py:99-110 | the reply is cleaned and decoded, and the fallback objects are used when the cleaned text does not decode |
| ExtractDeadlines.ExtractDeadlines | backend-agent/src/RAG/extract_deadlines.py:46-146 | one model call on the batch prompt; the result is that reply's outcome, and every deadline passes the gate |
| ExtractDeadlines.ExtractDeadlinesFromAnnouncements | backend-agent/src/RAG/extract_deadlines.py:187-214 | a missing or empty API key is reported before anything else; no relevant announcement gives no deadlines; otherwise the result is the batch outcome over the relevant announcements, all passing the gate |
| Deduplication.CloseOnLineSpec | backend-agent/src/utils/ai_deduplication.py:127 | the lazy `.*?` from a position ends exactly at the first ']' after it, provided no line break comes before that ']' |
| Deduplication.ArrayStartSpec | backend-agent/src/utils/ai_deduplication.py:127-128 | no match of `\[.*?\]` starts before the position the search returns |
| Deduplication.ArraySearchSpec | backend-agent/src/utils/ai_deduplication.py:126-130 | `re.search` finds nothing exactly when the pattern matches nowhere; otherwise it returns the leftmost match |
| Deduplication.DropJsonTag | backend-agent/src/utils/ai_deduplication.py:119-121 | a body starting with "json" loses exactly that prefix; any other body is unchanged |
| Deduplication.IndexValue | backend-agent/src/utils/ai_deduplication.py:141 | a non-negative integer item is read as itself (negative numbers, booleans and floats fail `str(i).isdigit()`) |
| Deduplication.CoerceIndicesMembership | backend-agent/src/utils/ai_deduplication.py:141 | an index is in the result exactly when some list item is read as that index |
| Deduplication.CoerceIndices | backend-agent/src/utils/ai_deduplication.py:141 | the comprehension yields at most one index per list item |
| Deduplication.CoerceIndicesInOrder | backend-agent/src/utils/ai_deduplication.py:141 | the indices are read at strictly increasing list positions, and every item that reads as an index contributes its index: list order and repeats are kept, and only unreadable items are passed over |
| Deduplication.CoerceIndicesAppend | backend-agent/src/utils/ai_deduplication.py:141 | each item is read on its own: reading a concatenation of lists gives the concatenation of their readings |
| Deduplication.MixedListExample | backend-agent/src/utils/ai_deduplication.py:141 | the mixed list `[2, "x", "0"]` is read as `[2, 0]` |
| Deduplication.ParseAiResponse | backend-agent/src/utils/ai_deduplication.py:106-146 | never raises: a cleaned reply that does not decode, or decodes to something other than a list, gives no indices; otherwise at most one index per item, an index is returned exactly when some item is read as it, and the indices follow the list's order with its repeats |
| Deduplication.IndexListRoundTrip | backend-agent/src/utils/ai_deduplication.py:133-141 | a JSON list of non-negative integers is read back as exactly those indices, in order |
| Deduplication.UnfencedOf | backend-agent/src/utils/ai_deduplication.py:111-122 | a reply with a complete fenced block is reduced to its first block's body, without the tag and stripped |
| Deduplication.WithoutFence | backend-agent/src/utils/ai_deduplication.py:111 | a reply without backticks is not touched by the fence handling |
| Deduplication.BareReplyIsDecoded | backend-agent/src/utils/ai_deduplication.py:125 | a bracketed reply without fences is decoded as it stands |
| Deduplication.FenceSplit | backend-agent/src/utils/ai_deduplication.py:113-115 | a fenced body without inner backticks is the second piece of the split at the fence |
| Deduplication.TagIsDropped | backend-agent/src/utils/ai_deduplication.py:120-121 | a "json" tag (or none) before a body not starting with 'j' is removed and leaves the body |
| Deduplication.FencedReplyIsDecoded | backend-agent/src/utils/ai_deduplication.py:111-125 | a bracketed payload in a fenced block, tagged or untagged and padded with whitespace, is decoded as the bare payload |
| Deduplication.FencedBodyIsDecoded | backend-agent/src/utils/ai_deduplication.py:111-125 | a fenced body that strips to a bracketed text is decoded as that text |
| Deduplication.CleanOfBracketed | backend-agent/src/utils/ai_deduplication.py:125 | an unfenced text that is bracketed skips the regular expression |
| Deduplication.CleanOfUnbracketed | backend-agent/src/utils/ai_deduplication.py:125-130 | an unfenced text not starting with '[' is replaced by its first `\[.*?\]` match, if there is one |
| Deduplication.ListedIndicesAreRead | backend-agent/src/utils/ai_deduplication.py:106-141 | an index list the model returns bare or in a fenced block is parsed to exactly those indices |
| Deduplication.ProseBeforeListIsSkipped | backend-agent/src/utils/ai_deduplication.py:124-130 | prose before an index list on the same line is skipped, and the list alone is decoded |
| Deduplication.SelectByIndices | backend-agent/src/utils/ai_deduplication.py:83-86 | the selection has at most as many deadlines as indices |
| Deduplication.InRange | backend-agent/src/utils/ai_deduplication.py:85 | every index kept by the bound check is below the number of extracted deadlines |
| Deduplication.SelectionFollowsIndices | backend-agent/src/utils/ai_deduplication.py:83-86 | the selection is the deadlines at the in-range indices, in the order listed, and out-of-range indices are ignored |
| Deduplication.SelectedAreExtracted | backend-agent/src/utils/ai_deduplication.py:83-86 | whatever the reply, every selected deadline is one of the extracted deadlines |
| Deduplication.IncreasingIndicesKeepOrder | backend-agent/src/utils/ai_deduplication.py:83-86 | indices listed in increasing order select a subsequence of the extracted deadlines |
| Deduplication.AllIndicesKeepAll | backend-agent/src/utils/ai_deduplication.py:83-86 | a reply listing every index keeps every deadline |
| Deduplication.RepeatedIndexRepeatsDeadline | backend-agent/src/utils/ai_deduplication.py:83-86 | a repeated index repeats its deadline in the selection |
| Deduplication.TimeOfDay | backend-agent/src/utils/ai_deduplication.py:185-190 | a due time that reads as `int(hour):int(minute)` and that `time()` accepts is a minute of the day |
| Deduplication.HourMinute | backend-agent/src/utils/ai_deduplication.py:190 | `time(hour, minute)` accepts exactly hours 0-23 and minutes 0-59, giving `h*60+m` |
| Deduplication.TodayCheck | backend-agent/src/utils/ai_deduplication.py:182-200 | the check of a deadline due today raises exactly when its due time is truthy but not a string (`.split` on a non-string is not caught); with no time, or a time that does not read as an hour and minute, it keeps the deadline; with a readable time it keeps it exactly when that moment is after the clock |
| Deduplication.SurvivorsRaiseIff | backend-agent/src/utils/ai_deduplication.py:167-205 | the filter loop raises exactly when the verdict on some deadline is a raise |
| Deduplication.SurvivorsAreRetained | backend-agent/src/utils/ai_deduplication.py:165-208 | when the filter loop does not raise, it keeps exactly the retained deadlines, in order |
| Deduplication.CheckDueSpec | backend-agent/src/utils/ai_deduplication.py:148-208 | `check_due` never returns more deadlines than it was given |
| Deduplication.CheckDueRaisesIff | backend-agent/src/utils/ai_deduplication.py:167-205 | `check_due` raises exactly when some deadline's check raises |
| Deduplication.CheckDueSelects | backend-agent/src/utils/ai_deduplication.py:165-208 | when it does not raise, `check_due` keeps exactly the deadlines retained at that clock reading, in order |
| Deduplication.RetentionIsMonotone | backend-agent/src/utils/ai_deduplication.py:161-200 | a deadline kept at some clock reading is kept at every earlier reading |
| Deduplication.DueDateDecides | backend-agent/src/utils/ai_deduplication.py:170-179 | a deadline dated a later day than today is kept, and one dated an earlier day is dropped, whatever its time |
| Deduplication.TimedTodayDecides | backend-agent/src/utils/ai_deduplication.py:182-194 | a deadline due today at a time that reads as minute `t` of the day (`HH:MM`, by TimeTextIsRead) is kept exactly when that moment is strictly after the clock |
| Deduplication.ReadableTimeDecides | backend-agent/src/utils/ai_deduplication.py:182-194 | for a deadline due today, a readable time keeps it exactly when that moment is still ahead of the clock |
| Deduplication.EmptyTimeIsUnreadable | backend-agent/src/utils/ai_deduplication.py:185-187 | an empty time text has no hour and minute |
| Deduplication.UntimedTodayIsKept | backend-agent/src/utils/ai_deduplication.py:198-200 | a deadline due today with no time (absent, null or empty) is kept |
| Deduplication.UnreadableTodayIsKept | backend-agent/src/utils/ai_deduplication.py:195-197 | a deadline due today whose time text does not read as an hour and minute is kept |
| Deduplication.UndatedIsDropped | backend-agent/src/utils/ai_deduplication.py:169-174 | a deadline whose due date is missing, empty, not a string or not an ISO date is dropped, whatever its time |
| Deduplication.DueTodayChecksTime | backend-agent/src/utils/ai_deduplication.py:181-200 | a deadline dated today is decided by the time check |
| Deduplication.SplitAtColon | backend-agent/src/utils/ai_deduplication.py:185 | `a:b` splits at ':' into `a` and `b` when neither contains a ':' |
| Deduplication.TimeOfDayOf | backend-agent/src/utils/ai_deduplication.py:185-190 | the due time `a:b` is read as `int(a)` hours and `int(b)` minutes |
| Deduplication.HourMinuteValue | backend-agent/src/utils/ai_deduplication.py:190 | an hour 0-23 and a minute 0-59 make the minute of the day `h*60+m` |
| Deduplication.TimeTextIsRead | backend-agent/src/utils/ai_deduplication.py:185-190 | a due time written `HH:MM` is read as that minute of the day |
| Deduplication.CheckDue | backend-agent/src/utils/ai_deduplication.py:148-208 | the loop equals `CheckDueSpec`: it raises exactly when some check raises, and otherwise keeps exactly the retained deadlines, in order |
| Deduplication.PromptCarriesBothLists | backend-agent/src/utils/ai_deduplication.py:58-64 | the prompt contains the JSON dump of both the assignments and the extracted deadlines |
| Deduplication.DedupOutcome | backend-agent/src/utils/ai_deduplication.py:74-104 | the assignments are always returned unchanged; when the model call raises, or the date filter raises on a selected deadline, the unique deadlines are exactly the extracted ones, unfiltered (fail-open); otherwise they are the deadlines at the listed indices that the date filter retains, in the order listed; every unique deadline is one of the extracted ones |
| Deduplication.KeptIffSelectedAndDue | backend-agent/src/utils/ai_deduplication.py:83-95 | on the success path a deadline is kept exactly when the reply selects it and the date filter retains it |
| Deduplication.FilteredAreSelected | backend-agent/src/utils/ai_deduplication.py:90 | the date filter does not add deadlines: what it keeps of the selection is still extracted |
| Deduplication.DeduplicateWithAi | backend-agent/src/utils/ai_deduplication.py:12-104 | no extracted deadlines give none; no assignments keeps all extracted deadlines without a model call; otherwise, when the model call raises, all extracted deadlines unfiltered (fail-open), and when it answers, the selected deadlines the date filter retains, or all extracted deadlines if that filter raises; the assignments are unchanged and the unique deadlines are always extracted ones |
| CalendarSync.IstIsShifted | backend-agent/src/calendar_agent/sync_events.py:44-61 | for every valid UTC time, the 12-hour reading is well formed (hour 1-12, minute 0-59, AM or PM), denotes the time 330 minutes later modulo a day, and says AM exactly before noon |
| CalendarSync.IstNoonAndMidnight | backend-agent/src/calendar_agent/sync_events.py:57-59 | 18:30 UTC reads as 12:00 AM, 06:30 as 12:00 PM, 00:15 as 5:45 AM and 18:45 as 12:15 AM |
| CalendarSync.TimeFields | backend-agent/src/calendar_agent/sync_events.py:41-43 | the pieces of a time text read as integers agree with the deduplication stage's reading of the same text |
| CalendarSync.TimeFieldsOf | backend-agent/src/calendar_agent/sync_events.py:41-43 | `a:b` with integer pieces is read as `(int(a), int(b))` |
| CalendarSync.UnreadableTimeIsShownAsUtc | backend-agent/src/calendar_agent/sync_events.py:62-63 | a due time that is not text, or whose pieces do not read as integers, is shown as given and marked UTC instead of failing the record |
| CalendarSync.SuffixOfFields | backend-agent/src/calendar_agent/sync_events.py:36-61 | a readable due time is shown as its IST reading |
| CalendarSync.IstOfUtcText | backend-agent/src/calendar_agent/sync_events.py:36-61 | a due time written `HH:MM` is shown as the IST reading of that time |
| CalendarSync.EarlyMorningText | backend-agent/src/calendar_agent/sync_events.py:61 | the reading 5:45 AM prints as " (Due: 5:45 AM IST)" |
| CalendarSync.PastMidnightText | backend-agent/src/calendar_agent/sync_events.py:61 | the reading 12:15 AM prints as " (Due: 12:15 AM IST)" |
| CalendarSync.IstExamples | backend-agent/src/calendar_agent/sync_events.py:36-63 | "00:15" is shown as " (Due: 5:45 AM IST)" and "18:45" as " (Due: 12:15 AM IST)" |
| CalendarSync.StartTextIsIso | backend-agent/src/calendar_agent/sync_events.py:76 | the start text built from a fetched due date and time is the ISO text of that moment |
| CalendarSync.TimedEventLastsOneHour | backend-agent/src/calendar_agent/sync_events.py:74-89 | a timed event starts at its due moment and ends exactly one hour later (on the next day from 23:00), both in UTC; it fails only past 9999-12-31 |
| CalendarSync.WindowOfParsed | backend-agent/src/calendar_agent/sync_events.py:74-89 | a start text that parses gives that start and the parsed moment plus one hour as the end |
| CalendarSync.UntimedEventIsAllDay | backend-agent/src/calendar_agent/sync_events.py:90-97 | without a due time, the event is an all-day event on the due date |
| CalendarSync.Description | backend-agent/src/calendar_agent/sync_events.py:68 | a truthy description is used as it is; otherwise the description is the empty text |
| CalendarSync.EventFor | backend-agent/src/calendar_agent/sync_events.py:66-97 | an event is built exactly when its start and end can be; assignment events carry no colour and announcement events colour 4; the description is the record's |
| CalendarSync.AssignmentSummaryShowsIst | backend-agent/src/calendar_agent/sync_events.py:67 | an assignment due at `HH:MM` UTC gets the title, that time's IST reading and the course name |
| CalendarSync.AnnouncementSummaryShowsType | backend-agent/src/calendar_agent/sync_events.py:220-224 | an announcement event's summary starts with the deadline's event type, or "Deadline" when it has none, then the title, the IST reading of an `HH:MM` due time and the course name |
| CalendarSync.AssignmentStep | backend-agent/src/calendar_agent/sync_events.py:29-100 | an assignment is never skipped; one without a due date fails; an inserted one carries the event built for it |
| CalendarSync.DueDateOf | backend-agent/src/calendar_agent/sync_events.py:163 | the due date is read only from a due-date text that `fromisoformat` accepts, and it is the date of the parsed value |
| CalendarSync.AnnouncementStep | backend-agent/src/calendar_agent/sync_events.py:155-258 | a deadline without a due date fails; an inserted one carries its event; it is skipped exactly when the past-event check says so |
| CalendarSync.Screen | backend-agent/src/calendar_agent/sync_events.py:156-188 | a record without a due date is rejected before any check |
| CalendarSync.PastDeadlinesAreSkipped | backend-agent/src/calendar_agent/sync_events.py:161-188 | a deadline with a readable time is skipped exactly when that moment is strictly before now; one without a time, when its date is before today; one with an unreadable time is never skipped; a non-text time fails |
| CalendarSync.CountersAddUp | backend-agent/src/calendar_agent/sync_events.py:29-123 | every record bumps at least one counter, and no more events are listed than were counted as successes; when every insert response has its keys, each record bumps exactly one counter and each success has one entry in `events` and one in `created_events` |
| CalendarSync.AdvanceAddsEntryOf | backend-agent/src/calendar_agent/sync_events.py:100-119 | one record adds at most one `created_events` entry, at the end, of the loop's type and with the record's course name |
| CalendarSync.EntriesNameTheirRecord | backend-agent/src/calendar_agent/sync_events.py:109-119 | every `created_events` entry has the loop's type and the course name of one of the records |
| CalendarSync.SyncIsCompositional | backend-agent/src/calendar_agent/sync_events.py:29-123 | the summary over two lists together is the two summaries combined, so records are handled independently |
| CalendarSync.AdvanceCombines | backend-agent/src/calendar_agent/sync_events.py:100-123 | one more record after a combined summary is the same as that record after the second summary |
| CalendarSync.NoDueDateFails | backend-agent/src/calendar_agent/sync_events.py:30-33 | a record without a due date adds exactly one failure and nothing else, in both loops |
| CalendarSync.AssignmentsAreNeverSkipped | backend-agent/src/calendar_agent/sync_events.py:21-33 | the assignment sync never counts an assignment as a skipped past event |
| CalendarSync.InsertEvent | backend-agent/src/calendar_agent/sync_events.py:100-119 | after the insert, the success counter is bumped and then the response is read into `events` and `created_events`, a missing key counting as a failure |
| CalendarSync.SyncAssignmentsToCalendar | backend-agent/src/calendar_agent/sync_events.py:6-125 | the total is the number of assignments, and the loop's counters and lists are those of `Synced` over the assignment steps |
| CalendarSync.SyncAnnouncementsToCalendar | backend-agent/src/calendar_agent/sync_events.py:128-284 | the total is the number of deadlines, and the loop's counters and lists are those of `Synced` over the announcement steps at that clock reading |
| ClassroomFetch.ReplaceZ | backend-agent/src/classroom_agent/fetch_assignments.py:29 | `replace("Z", "+00:00")` leaves no 'Z' and does not change a text that has none |
| ClassroomFetch.FractionMicros | backend-agent/src/classroom_agent/fetch_assignments.py:29 | no fraction is zero microseconds; a fraction that is read is '.' followed by digits |
| ClassroomFetch.ParseUtcStamp | backend-agent/src/classroom_agent/fetch_assignments.py:29 | a creation time that parses is a valid date and time |
| ClassroomFetch.SemesterCourses | backend-agent/src/classroom_agent/fetch_assignments.py:24-32 | the semester's courses are at most as many as the courses |
| ClassroomFetch.SemesterCoursesSelect | backend-agent/src/classroom_agent/fetch_assignments.py:25-32 | the course loop raises exactly when some course has an unreadable creation time, and otherwise keeps exactly the courses created after the cutoff, in order |
| ClassroomFetch.CreationTimeIsRead | backend-agent/src/classroom_agent/fetch_assignments.py:26-29 | a creation time in the API's `…Z` form is read as that very instant in UTC |
| ClassroomFetch.CutoffIsStrict | backend-agent/src/classroom_agent/fetch_assignments.py:17-32 | a course created at a whole second is kept exactly when that second is strictly after 2025-03-23T00:00:00Z |
| ClassroomFetch.UndatedCourseIsSkipped | backend-agent/src/classroom_agent/fetch_assignments.py:26-28 | a course without a creation time is passed over |
| ClassroomFetch.DueDateFields | backend-agent/src/classroom_agent/fetch_assignments.py:61-70 | a due date is read only from an object whose year is an integer, and that year is the date's year |
| ClassroomFetch.DueTimeFields | backend-agent/src/classroom_agent/fetch_assignments.py:73-78 | a due-time object without hours and minutes is 00:00, and only objects are read |
| ClassroomFetch.AsRecordFields | backend-agent/src/classroom_agent/fetch_assignments.py:53-70 | the record holds the title, description, course name, work type and due-date text under the source's keys |
| ClassroomFetch.AsRecordTime | backend-agent/src/classroom_agent/fetch_assignments.py:73-105 | the record has the time keys exactly when the assignment has a due time, with the UTC time, the flag `true`, the local time and the zone's name |
| ClassroomFetch.UndatedItemIsSkipped | backend-agent/src/classroom_agent/fetch_assignments.py:61-66 | an item without a due date is never listed |
| ClassroomFetch.UntimedItemRule | backend-agent/src/classroom_agent/fetch_assignments.py:107-119 | an untimed item is kept exactly when its date is today or later, and it then carries its fields and the `YYYY-MM-DD` date without a time |
| ClassroomFetch.TimedItemRule | backend-agent/src/classroom_agent/fetch_assignments.py:85-119 | a timed item is kept exactly when its instant in local time is not before now, and it then carries its title, description, work type, course name and date, the UTC `HH:MM`, the local `HH:MM` and the zone |
| ClassroomFetch.KeptItemShape | backend-agent/src/classroom_agent/fetch_assignments.py:51-119 | a kept item had a due date, names the course, prints that valid date, and has a time exactly when the item had one |
| ClassroomFetch.TimedTextsAreReadBack | backend-agent/src/classroom_agent/fetch_assignments.py:69-78 | the printed due date and UTC time are read back by the later stages as the same date and minute of the day |
| ClassroomFetch.LocalTimeIsShifted | backend-agent/src/classroom_agent/fetch_assignments.py:97-104 | the local time printed is a valid time of day: the UTC minute of the day shifted by the offset, modulo a day |
| ClassroomFetch.CollectedWithoutRaise | backend-agent/src/classroom_agent/fetch_assignments.py:51-119 | without an exception, every kept item of a course is appended in order |
| ClassroomFetch.StoppedStays | backend-agent/src/classroom_agent/fetch_assignments.py:46-123 | once a course's item loop raised, later items of that course add nothing |
| ClassroomFetch.RaiseSkipsRestOfCourse | backend-agent/src/classroom_agent/fetch_assignments.py:46-123 | an exception at item `k` keeps the items kept before it and drops every later item of that course |
| ClassroomFetch.CollectedComesFromItems | backend-agent/src/classroom_agent/fetch_assignments.py:51-119 | every record a course contributes is the kept form of one of its items |
| ClassroomFetch.AccumulatedAppend | backend-agent/src/classroom_agent/fetch_assignments.py:41-123 | the course loop over two lists is the loop over each, one after the other, and a failure in either fails both |
| ClassroomFetch.EmptyShareIsNeutral | backend-agent/src/classroom_agent/fetch_assignments.py:41-123 | a course that contributes nothing can be removed without changing the result |
| ClassroomFetch.AccumulatedComesFromShares | backend-agent/src/classroom_agent/fetch_assignments.py:41-123 | every gathered record comes from one course's contribution |
| ClassroomFetch.FailingCourseIsSkipped | backend-agent/src/classroom_agent/fetch_assignments.py:46-123 | a course whose coursework listing raises is passed over without disturbing the others |
| ClassroomFetch.CleanCourseShare | backend-agent/src/classroom_agent/fetch_assignments.py:42-119 | a course whose listing succeeds and whose items raise nothing contributes exactly its kept items, in order |
| ClassroomFetch.NoCoursesIff | backend-agent/src/classroom_agent/fetch_assignments.py:33-34 | "No courses found." is returned exactly when the course loop neither raises nor keeps a course |
| ClassroomFetch.FetchedAssignmentsAreShaped | backend-agent/src/classroom_agent/fetch_assignments.py:18-125 | every assignment returned names a course created after the cutoff and carries a valid `YYYY-MM-DD` date |
| ClassroomFetch.FilterSemesterCourses | backend-agent/src/classroom_agent/fetch_assignments.py:24-32 | the course loop computes `SemesterCourses` |
| ClassroomFetch.CollectCourse | backend-agent/src/classroom_agent/fetch_assignments.py:51-119 | the item loop of one course keeps what `Collected` keeps, stopping at the first exception |
| ClassroomFetch.FetchClasswork | backend-agent/src/classroom_agent/fetch_assignments.py:18-125 | the nested loops compute `FetchSpec`: an exception, "No courses found.", or the gathered assignments |
| Server.ReplaceAbsent | backend-agent/src/main.py:60 | `replace` leaves a text without the pattern unchanged |
| Server.TrimSlashes | backend-agent/src/main.py:61 | `rstrip("/")` is the longest prefix not ending in '/', with only slashes after it |
| Server.RedirectUri | backend-agent/src/main.py:60-61 | the redirect address ends with `/oauth2callback`, with no slash right before it |
| Server.PlainBaseUrl | backend-agent/src/main.py:60-61 | a base URL without the loopback address and without a trailing slash just gets `/oauth2callback` appended |
| Server.StatsOf | backend-agent/src/main.py:183-188 | the stats count the announcements, the deadlines found and the unique ones, and found = unique + removed |
| Server.RemovedIsNonNegative | backend-agent/src/main.py:187 | the removal count is not negative when the unique deadlines are a subsequence of the extracted ones |
| Server.Fallback | backend-agent/src/main.py:449-455 | the fallback end exists exactly when the time is a string; otherwise `split` raises |
| Server.CreatedReply | backend-agent/src/main.py:466-478 | the reply is a body exactly when the created event has `id`, `summary`, `start` and `end`, and it then carries that id and summary as title, type "custom" and status "created" |
| Server.CreateFailure | backend-agent/src/main.py:483-490 | any other exception becomes a 500 reply |
| Server.MissingFieldIsRejected | backend-agent/src/main.py:400-404 | a request without a truthy title or date gets 400 "Missing required fields…" and nothing is inserted |
| Server.UntimedCustomEventIsAllDay | backend-agent/src/main.py:456-463 | without a time, the custom event is an all-day event on that date, titled with the title and coloured "7" |
| Server.TimedBody | backend-agent/src/main.py:433-448 | a timed custom event starts at `{date}T{time}:00` in UTC and ends at the end the next step computes, in UTC |
| Server.TimedCustomEvent | backend-agent/src/main.py:441-448 | a start that parses at an hour before 23 ends at the same minute of the next hour, in UTC |
| Server.LateCustomEventFallsBack | backend-agent/src/main.py:449-455 | at hour 23 `replace(hour=24)` raises, and the event ends at `{date}T{hour}:59:59` instead |
| Server.FormStartIsParsed | backend-agent/src/main.py:435-443 | the date and time the form sends make a start text that reads back as that moment |
| Server.HourBeforeColon | backend-agent/src/main.py:453 | the text before the colon of an `HH:MM` time is its hour |
| Server.Entries | backend-agent/src/main.py:305-318 | one entry per created event, in order, each of the loop's type |
| Server.SyncAllRun | backend-agent/src/main.py:231-349 | `completed` stays false and there are 4 steps; at most one error is recorded, and then the action is "Error during sync: " plus it; without an error the run ends at step 4; deadlines are stored only after classwork |
| Server.AfterClasswork | backend-agent/src/main.py:264-349 | steps 2 to 4 keep the fetched classwork in the results and in the store, and end at step 4 or with one error |
| Server.CalendarSteps | backend-agent/src/main.py:297-343 | steps 3 and 4 keep the classwork and the report, and end at step 4 or with one error |
| Server.AnnouncementStep | backend-agent/src/main.py:268-295 | the report lists exactly the unique deadlines that are stored, and counts them |
| Server.CompleteRunListsEvents | backend-agent/src/main.py:297-343 | when no step raises, the results list the assignment events and then the deadline events, each in creation order, and both the classwork and the unique deadlines are stored |
| Server.EventsAreOrdered | backend-agent/src/main.py:297-343 | in every run, assignment entries come before announcement entries |
| Server.FailedFetchGathersNothing | backend-agent/src/main.py:253-349 | an exception in the classwork fetch is reported at step 1, with nothing gathered and nothing stored |
| Server.PartialResultsAreKept | backend-agent/src/main.py:253-349 | an exception after step 1 keeps the classwork in the results and the store; one in a calendar sync also keeps the deadline report |
| Server.App.constructor | backend-agent/src/main.py:23-51 | the server starts with no pending states and empty stores |
| Server.App.GetCurrentCredentials | backend-agent/src/main.py:135-142 | the session's credentials exactly when the session cookie names a stored session, otherwise 401 "Not authenticated. Please log in first." |
| Server.App.Login | backend-agent/src/main.py:57-71 | a redirect to the authorization URL with its state remembered, or a 500 that remembers nothing; the stores are unchanged |
| Server.App.Callback | backend-agent/src/main.py:73-120 | a missing, empty or unknown state is a 400 that changes nothing; a failed token fetch is a 400 that keeps the state; success stores the credentials under the fresh session id, sets the cookie, consumes the state and redirects to the frontend |
| Server.App.FetchClassworkEndpoint | backend-agent/src/main.py:144-151 | 401 without a session; otherwise the fetched classwork is returned and stored for the session, and an exception is a 500 that stores nothing |
| Server.App.FetchAnnouncementsEndpoint | backend-agent/src/main.py:155-191 | 401 without a session; otherwise step 2 against the stored classwork (or the empty list), whose unique deadlines are stored; an exception is a 500 "Failed to fetch announcements: …" that stores nothing |
| Server.App.SyncEventsEndpoint | backend-agent/src/main.py:193-210 | 401 without a session, 400 without stored classwork, otherwise the assignment sync's result (500 on an exception) |
| Server.App.SyncAnnouncementsEndpoint | backend-agent/src/main.py:212-229 | 401 without a session, 400 without stored deadlines, otherwise the deadline sync's result (500 on an exception) |
| Server.App.CreateCalendarEvent | backend-agent/src/main.py:389-490 | 401 without a session; otherwise exactly `CreateEventReply` on the session's credentials |
| Server.App.SyncAll | backend-agent/src/main.py:231-349 | 401 without a session; otherwise the results of `SyncAllRun`, with that run's classwork and deadlines stored for the session |
| Server.SyncCalendar | backend-agent/src/main.py:297-343 | steps 3 and 4 as the handler runs them compute `CalendarSteps` |
| Server.BuildCustomEvent | backend-agent/src/main.py:420-463 | the event the handler fills in field by field is `CustomEventBody` |
| Server.AppendEntries | backend-agent/src/main.py:305-318 | the loop appends one entry of the loop's type per created event, in order |
| Server.ReplayIsRefused | backend-agent/src/main.py:79-107 | after a successful callback, replaying its state is refused with 400 "Invalid state parameter" |
| Server.LoginThenCallback | backend-agent/src/main.py:57-113 | a login followed by a successful callback on its state authenticates the fresh session and leaves the state no longer pending |
| CalendarView.FilteredEvents | frontend/src/components/CalendarEventsList.jsx:15-18 | under "all" every event is listed; otherwise exactly the events of that type, as a subsequence in their order |
| CalendarView.JsRem | frontend/src/components/CalendarEventsList.jsx:138 | JavaScript's `%`: the remainder has the sign of the dividend |
| CalendarView.WrapHours | frontend/src/components/CalendarEventsList.jsx:138 | `((h % 24) + 24) % 24` is the non-negative remainder of `h` by 24 |
| CalendarView.ApplyOffset | frontend/src/components/CalendarEventsList.jsx:106-123 | applying the offset's hours and minutes moves the time by exactly `getTimezoneOffset()` minutes and shifts the minute by less than an hour |
| CalendarView.Borrow | frontend/src/components/CalendarEventsList.jsx:126-129 | the underflow step keeps the total minutes and makes a minute above -60 non-negative |
| CalendarView.Carry | frontend/src/components/CalendarEventsList.jsx:132-135 | the overflow step keeps the total minutes, brings a minute of 0-119 into 0-59 and one of 0-159 below 100 |
| CalendarView.AdjustAsWritten | frontend/src/components/CalendarEventsList.jsx:94-141 | the code as written always gives an hour 0-23, and a minute below 100 for entered minutes below 100 |
| CalendarView.AdjustTextAsWritten | frontend/src/components/CalendarEventsList.jsx:94-146 | the text `adjustTimeForBackend` returns for a validated time always has the `HH:MM` shape and, for entered minutes 0-59, is the modular shift |
| CalendarView.AdjustTime | frontend/src/components/CalendarEventsList.jsx:94-146 | the intended conversion gives a valid time of day that is the entered minute moved by the offset, modulo a day |
| CalendarView.AsWrittenShiftsModulo | frontend/src/components/CalendarEventsList.jsx:94-146 | for every entered minute 0-59, the code as written computes that modular shift |
| CalendarView.MinutesOverflowExample | frontend/src/components/CalendarEventsList.jsx:62-146 | "10:95" passes the `HH:MM` check and, at offset 210, the code as written prints "14:65" where the modular shift gives "15:05" |
| CalendarView.TimeOfText | frontend/src/components/CalendarEventsList.jsx:96 | a validated `HH:MM` text reads as hours and minutes below 100 |
| CalendarView.AdjustText | frontend/src/components/CalendarEventsList.jsx:73 | the time sent for a valid entry is itself a valid `HH:MM` text |
| CalendarView.IndiaExamples | frontend/src/components/CalendarEventsList.jsx:103-123 | at offset -330, "10:00" is sent as "04:30" and "00:15" as "18:45", both as written and as intended |
| CalendarView.AdjustTimeForBackend | frontend/src/components/CalendarEventsList.jsx:94-146 | the step-by-step conversion prints the as-written shift of the entered time, always of the `HH:MM` shape, and the modular shift for entered minutes 0-59 |
| CalendarView.SubmitValidates | frontend/src/components/CalendarEventsList.jsx:55-65 | the event is sent exactly when the date has the `YYYY-MM-DD` shape and the time is empty or has the `HH:MM` shape; a bad date is reported first |
| CalendarView.SentPayload | frontend/src/components/CalendarEventsList.jsx:67-75 | a sent event is custom, with the entered title, description and date, no time when none was entered, and otherwise the as-written conversion, of the `HH:MM` shape, which for entered minutes 0-59 is the entered time moved by the offset modulo a day |
| CalendarView.SentTimeIsRead | frontend/src/components/CalendarEventsList.jsx:141 | the `HH:MM` text of a valid time reads back as that time |
| CalendarView.CalendarEventsList.constructor | frontend/src/components/CalendarEventsList.jsx:4-12 | the component starts with filter "all", the form hidden and blank fields |
| CalendarView.CalendarEventsList.Shown | frontend/src/components/CalendarEventsList.jsx:15-18 | the table lists a subsequence of the events |
| CalendarView.CalendarEventsList.SetFilter | frontend/src/components/CalendarEventsList.jsx:155-159 | choosing a filter sets it and changes nothing else |
| CalendarView.CalendarEventsList.ToggleAddForm | frontend/src/components/CalendarEventsList.jsx:169 | the add button flips whether the form is shown and changes nothing else |
| CalendarView.CalendarEventsList.CancelAddForm | frontend/src/components/CalendarEventsList.jsx:250 | the Cancel button hides the form and keeps its fields |
| CalendarView.CalendarEventsList.HandleInputChange | frontend/src/components/CalendarEventsList.jsx:46-49 | the named field takes the new value and nothing else changes |
| CalendarView.CalendarEventsList.HandleSubmit | frontend/src/components/CalendarEventsList.jsx:52-91 | the result is `SubmitOutcome` of the fields (the time converted by `AdjustTimeForBackend`); an alert leaves everything as it was; a sent event resets the form to blank and hides it; the filter is unchanged |
| TemporalRules.SyncReadsDueMoment | backend-agent/src/calendar_agent/sync_events.py:166-180 | for a deadline due today at a time that reads as minute `t` of the day, the deadline sync skips it exactly when that moment is strictly before the clock |
| TemporalRules.DueNowIsDroppedButNotSkipped | backend-agent/src/utils/ai_deduplication.py:190-194 | at the very instant a deadline falls due, deduplication drops it while the deadline sync would still create its event |
| TemporalRules.DuePastIsDroppedAndSkipped | backend-agent/src/calendar_agent/sync_events.py:175-180 | once that minute has begun, both stages drop it |
| TemporalRules.FetchKeepsDueNow | backend-agent/src/classroom_agent/fetch_assignments.py:97-100 | a Classroom item due at the clock's minute is listed at that instant and dropped once the minute has begun |
| Dates.AddHour | backend-agent/src/calendar_agent/sync_events.py:83 | `+ timedelta(hours=1)` keeps the minute and second and moves the hour on by one, to the next day from 23:00; it fails only at 9999-12-31 23:xx |
| Dates.FormatDateRoundTrip | backend-agent/src/classroom_agent/fetch_assignments.py:69 | the `YYYY-MM-DD` text of a date with a four-digit year is read back by `fromisoformat` as that date |
| Dates.FormatDateTimeRoundTrip | backend-agent/src/calendar_agent/sync_events.py:84 | the `strftime("%Y-%m-%dT%H:%M:%S")` text of a moment is read back by `fromisoformat` as that moment |
| Dates.Shift | backend-agent/src/classroom_agent/fetch_assignments.py:97 | `astimezone()` with a fixed offset gives a valid moment whose minute of the day is shifted by the offset, modulo a day |

## Left out

- I/O and clients: the Google API clients, the Gemini client, FastAPI routing, the session middleware, CORS, environment loading and logging (`print`, `console.log`). These become the parameters described above.
- `fetch_announcements` (classroom_agent/fetch_announcements.py) is not part of this model. Its result is the `fetchAnnouncements` stage of `Server.Stages`.
- Server.SyncAllRun: the four stages are parameters of type `Server.Stages`, so the composition of the modelled stages is not re-proved inside the server. Each stage's own module states what that stage computes.
- Server.App.SyncEventsEndpoint: the reply is the sync result without the constant `message` text that goes with it. The same holds for Server.App.SyncAnnouncementsEndpoint.
- Server.App.Callback: the `debug_info` part of the 400 body is not modelled. A request without the `code` query parameter is refused by the framework (422) before the handler runs, so it is not modelled either.
- Server.App.FetchClassworkEndpoint: the framework turns the fetch's exception into a bare 500. The model represents it by its detail text `Internal Server Error`. The sync endpoints are modelled the same way.
- `secrets.token_hex` for session ids gives the `freshId` parameter, and the session cookie is the `session` parameter and result.
- `delete_calendar_event` is a single pass-through API call and is not modelled. The constant endpoints `/` and `/check-auth-success` are not modelled either.
- `create_calendar_event` on a request body that is not a JSON object is not modelled: the model's request is a `Record`.
- Dates.ParseIsoDateTime: reads only the `YYYY-MM-DD`, `YYYY-MM-DDTHH:MM` and `YYYY-MM-DDTHH:MM:SS` forms of `fromisoformat`. The other ISO forms it accepts (week dates, fractions, offsets, other separators) are not modelled.
- ClassroomFetch.ParseUtcStamp: reads only the form the Classroom API gives `creationTime` (seconds, an optional fraction of 1 to 6 digits, `Z`). Other offsets and longer fractions are read as unparseable.
- Dates.FormatDateTime: `strftime("%Y")` is modelled with four digits. Years below 1000 are excluded by the lemmas that need the round trip (`year >= 1000` in their requires).
- Dates.Shift: the local zone is a fixed UTC offset. Daylight-saving changes between the two instants compared are not modelled.
- Text.ParseInt: `int()` is modelled as ASCII digits with an optional sign, inside optional whitespace. Underscores between digits and non-ASCII digits, which Python also accepts, are read as unparseable. `isdigit` and `lower` are likewise ASCII only.
- ExtractDeadlines.IntegerNumber: a boolean announcement number counts as 0 or 1, as in Python. Key order inside JSON objects is not modelled, because objects are maps.
- JsonModel.Services: the model's replies, `json.loads`, `json.dumps`, `float()` on strings and `str()` of floats, lists and objects are oracles. Only the properties the source relies on are fixed: `str` of a string is that string, and `float` of an int or float is its value.
- PromptTexts: the wording of the instructions in both prompts is a parameter. The model states where the announcements and the two JSON lists are placed in the prompts.
- CalendarSync.Synced: `created_events` is an always-present list. In the source the key appears only after the first success. `/sync-all` reads it with `get(..., [])`, which is the same either way.
- CalendarSync.InsertEvent: a response lacking `id` counts the record both as a success and as a failure, as the source does. CountersAddUp states the exact sum only for complete responses.
- Server.RemovedIsNonNegative: proved only when the unique deadlines are a subsequence of the extracted ones. A reply that repeats an index makes `duplicates_removed` negative (Deduplication.RepeatedIndexRepeatsDeadline).
- `formatEventDate` in CalendarEventsList.jsx depends on the browser's locale and time zone and is not modelled. The table's markup, the delete button and the other UI components (DashboardView, LoginScreen, App, SyncProgressBar, LoadingSpinner) are not modelled either.
- CalendarView.TimeOfText: `Number()` on pieces that are not numeric (NaN) cannot occur after the `HH:MM` check and is not modelled.
- types/index.py only declares types and is not part of this model.
- ExtractDeadlines.Announcement: an announcement always has a `courseName`, and its `text` is either a string or absent. A `text` that is present but null (`.lower()` raises) and a missing `courseName` (the prompt loop raises outside the `try`) are not modelled. The Classroom fetch always supplies both keys.
- CoerceIndices: its own ensures only bounds the length. The order and repeats of the indices are stated by CoerceIndicesInOrder and CoerceIndicesAppend, and ParseAiResponse states them. They are kept out of the function's ensures so that proofs which only use the function do not carry them.
- Floating point: the confidence is compared as a real number. Rounding of the decoded float is part of the `parseJson` oracle.

## Findings

| source | as written | input that shows it | evidently intended | confidence | as-written member | corrected member |
|---|---|---|---|---|---|---|
| frontend/src/components/CalendarEventsList.jsx:62-146 | The `^\d{2}:\d{2}$` check accepts minutes 60-99. `adjustTimeForBackend` then does only one borrow or carry between minutes and hours, so it can print a minute of 60 or more. | Time "10:95" with `getTimezoneOffset()` = 210 (UTC-3:30) is sent as "14:65". | The entered time moved by the offset modulo a day, "15:05", which is always a valid `HH:MM`. | low (the time input is a browser time picker, which produces only 00-59 minutes; the text reaches the check unpicked only where the browser falls back to a text field), not executed | CalendarView.AdjustAsWritten, CalendarView.MinutesOverflowExample | CalendarView.AdjustTime, CalendarView.AdjustText (the form keeps the code as written, `AdjustTextAsWritten`, which equals this for every minute 0-59) |
