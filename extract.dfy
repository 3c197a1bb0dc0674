/** Deadline extraction from Classroom announcements: keyword pre-filter, one
    batched model call, tolerant decoding of the reply, and the confidence gate
    that decides which extracted items survive (backend-agent/src/RAG/extract_deadlines.py). */
module ExtractDeadlines {
  import opened Wrappers
  import opened Text
  import opened Seqs
  import opened JsonModel

  /** The words whose presence marks an announcement as possibly holding a deadline. */
  const RelevantKeywords: seq<string> := [
    "assignment", "quiz", "exam", "test", "homework", "report", "submission", "project",
    "deadline", "due", "due by", "submit", "due date", "turn in", "presentation",
    "tomorrow", "next week", "friday", "monday", "tuesday", "wednesday", "thursday",
    "saturday", "sunday", "lab report", "midterm", "final"
  ]

  /** An announcement as fetched from Classroom; `text` and `creationTime` may be absent. */
  datatype Announcement = Announcement(text: Option<string>, courseName: string, creationTime: Option<string>)

  // ---------------------------------------------------------------- keyword filter

  /** Some keyword occurs in `t`, stated declaratively. */
  ghost predicate MentionsKeyword(t: string)
  {
    exists k :: 0 <= k < |RelevantKeywords| && Contains(t, RelevantKeywords[k])
  }

  /** `any(keyword in t for keyword in RELEVANT_KEYWORDS[i:])`. */
  function AnyKeywordFrom(t: string, i: nat): (r: bool)
    requires i <= |RelevantKeywords|
    ensures r <==> exists k :: i <= k < |RelevantKeywords| && Contains(t, RelevantKeywords[k])
    decreases |RelevantKeywords| - i
  {
    if i == |RelevantKeywords| then false
    else Has(t, RelevantKeywords[i]) || AnyKeywordFrom(t, i + 1)
  }

  /** The lower-cased text is non-empty and mentions a keyword. */
  predicate IsRelevant(a: Announcement)
  {
    var t := Lower(a.text.GetOr(""));
    t != "" && AnyKeywordFrom(t, 0)
  }

  method FilterRelevantAnnouncements(announcements: seq<Announcement>) returns (relevant: seq<Announcement>)
    ensures relevant == Filter(IsRelevant, announcements)
  {
    relevant := [];
    for i := 0 to |announcements|
      invariant relevant == Filter(IsRelevant, announcements[..i])
    {
      assert announcements[..i + 1][..i] == announcements[..i];
      var announcement := announcements[i];
      var text := Lower(announcement.text.GetOr(""));
      if text == "" {
        continue;
      }
      if AnyKeywordFrom(text, 0) {
        relevant := relevant + [announcement];
      }
    }
    assert announcements[..|announcements|] == announcements;
  }

  /** The filter keeps the original order and keeps an announcement exactly when it
      has non-empty text that, lower-cased, contains one of the keywords. */
  lemma RelevantSelection(announcements: seq<Announcement>)
    ensures IsSubsequence(Filter(IsRelevant, announcements), announcements)
    ensures forall a :: a in Filter(IsRelevant, announcements) <==>
      a in announcements && a.text.Some? && a.text.value != "" && MentionsKeyword(Lower(a.text.value))
  {
    FilterIsSubsequence(IsRelevant, announcements);
    forall a
      ensures a in Filter(IsRelevant, announcements) <==>
        a in announcements && a.text.Some? && a.text.value != "" && MentionsKeyword(Lower(a.text.value))
    {
      FilterMembership(IsRelevant, announcements, a);
    }
  }

  // ---------------------------------------------------------------- reply cleaning

  /** Isolates the JSON part of the model reply: the body of a json-tagged fence,
      else of the first fence, else the span from the first '[' to the last ']'. */
  function ExtractJsonFromResponse(text: string): string
  {
    if Has(text, "```json") then
      Strip(Split(Split(text, "```json")[1], "```")[0])
    else if Has(text, "```") then
      Strip(Split(text, "```")[1])
    else
      var start := Find(text, "[");
      var end := RFind(text, ']') + 1;
      if start >= 0 && end > start then text[start..end] else text
  }

  lemma JsonFenceIsFence(text: string)
    ensures Contains(text, "```json") ==> Contains(text, "```")
  {
    if Contains(text, "```json") {
      var p :| OccursAt(text, "```json", p);
      assert text[p..p + 3] == text[p..p + 7][..3];
      assert OccursAt(text, "```", p);
    }
  }

  /** Without fences, the cleaned text is the span from the first '[' through the last ']'. */
  lemma BracketSlice(text: string, i: int, j: int)
    requires !Contains(text, "```")
    requires 0 <= i < j < |text| && text[i] == '[' && text[j] == ']'
    requires forall k :: 0 <= k < i ==> text[k] != '['
    requires forall k :: j < k < |text| ==> text[k] != ']'
    ensures ExtractJsonFromResponse(text) == text[i..j + 1]
  {
    JsonFenceIsFence(text);
    FindFirstChar(text, '[', i);
  }

  /** Without fences and without any ']' after a '[', the reply is passed on unchanged. */
  lemma NoBracketPairUnchanged(text: string)
    requires !Contains(text, "```")
    requires forall k, l :: 0 <= k < l < |text| && text[k] == '[' ==> text[l] != ']'
    ensures ExtractJsonFromResponse(text) == text
  {
    JsonFenceIsFence(text);
    FindSpec(text, "[");
    var start := Find(text, "[");
    if start >= 0 {
      assert text[start..start + 1] == "[";
      assert text[start] == '[';
    }
  }

  /** The body after an opening json fence that does not recur. */
  lemma JsonFenceBody(u: string)
    requires NoBackticks(u)
    ensures Has("```json" + u + "```", "```json")
    ensures Split("```json" + u + "```", "```json")[1] == u + "```"
  {
    var r := u + "```";
    var text := "```json" + r;
    assert text == "```json" + u + "```";
    FindSpec(text, "```json");
    assert OccursAt(text, "```json", 0);
    assert Find(text, "```json") == 0;
    assert text[7..] == r;
    FindSpec(r, "```json");
    if Contains(r, "```json") {
      var p :| OccursAt(r, "```json", p);
      OnlyTrailingFence(u, "```json", p);
    }
    assert Split(r, "```json") == [r];
  }

  /** A bare bracketed payload without backticks is its own cleaned form. */
  lemma BarePayload(s: string)
    requires |s| > 0 && s[0] == '[' && s[|s| - 1] == ']' && NoBackticks(s)
    ensures ExtractJsonFromResponse(s) == s
  {
    NoFenceIn(s, "```json");
    NoFenceIn(s, "```");
    FindFirstChar(s, '[', 0);
    assert s[0..|s|] == s;
  }

  /** A bracketed payload (free of backticks) survives cleaning both bare and
      wrapped in a json-tagged fence with surrounding whitespace. */
  lemma FenceIdempotence(s: string, ws1: string, ws2: string)
    requires |s| > 0 && s[0] == '[' && s[|s| - 1] == ']' && NoBackticks(s)
    requires AllSpace(ws1) && AllSpace(ws2)
    ensures ExtractJsonFromResponse("```json" + ws1 + s + ws2 + "```") == s
    ensures ExtractJsonFromResponse(s) == s
  {
    var u := ws1 + s + ws2;
    assert NoBackticks(ws1) && NoBackticks(ws2);
    assert NoBackticks(u);
    assert "```json" + ws1 + s + ws2 + "```" == "```json" + u + "```";
    JsonFenceBody(u);
    ClosingFence(u);
    StripPadded(ws1, s, ws2);
    BarePayload(s);
  }

  // ---------------------------------------------------------------- fallback decoding

  predicate IsBrace(c: char) { c == '{' || c == '}' }

  /** Where the first brace of `s` is (|s| when there is none). */
  function BraceFreePrefix(s: string): (n: nat)
    ensures n <= |s|
    ensures n < |s| ==> IsBrace(s[n])
    decreases |s|
  {
    if s == [] || IsBrace(s[0]) then 0 else 1 + BraceFreePrefix(s[1..])
  }

  lemma {:induction false} BraceFreePrefixSkips(s: string)
    ensures forall k :: 0 <= k < BraceFreePrefix(s) ==> !IsBrace(s[k])
    decreases |s|
  {
    if s != [] && !IsBrace(s[0]) {
      BraceFreePrefixSkips(s[1..]);
    }
  }

  /** Brace-free text followed by a brace (or nothing): the first brace is right after it. */
  lemma {:induction false} BraceFreePrefixOf(x: string, rest: string)
    requires forall k :: 0 <= k < |x| ==> !IsBrace(x[k])
    requires rest == [] || IsBrace(rest[0])
    ensures BraceFreePrefix(x + rest) == |x|
    decreases |x|
  {
    if x == [] {
      assert x + rest == rest;
    } else {
      assert (x + rest)[1..] == x[1..] + rest;
      BraceFreePrefixOf(x[1..], rest);
    }
  }

  /** Text matching the pattern `\{[^{}]*\}`: a flat object with no nested braces. */
  predicate IsBraceSpan(t: string)
  {
    |t| >= 2 && t[0] == '{' && t[|t| - 1] == '}' && forall k :: 0 < k < |t| - 1 ==> !IsBrace(t[k])
  }

  /** `re.findall(r'\{[^{}]*\}', s)`: the non-overlapping matches, scanning left to
      right; where no match starts at the first character, scanning moves on by one. */
  function BraceSpans(s: string): seq<string>
    decreases |s|
  {
    if s == [] then []
    else
      var n := if s[0] == '{' then BraceFreePrefix(s[1..]) else 0;
      if s[0] == '{' && n + 1 < |s| && s[n + 1] == '}' then [s[..n + 2]] + BraceSpans(s[n + 2..])
      else BraceSpans(s[1..])
  }

  /** Every match is a flat object. */
  lemma {:induction false} BraceSpansAreFlat(s: string)
    ensures forall k :: 0 <= k < |BraceSpans(s)| ==> IsBraceSpan(BraceSpans(s)[k])
    decreases |s|
  {
    if s != [] {
      var n := if s[0] == '{' then BraceFreePrefix(s[1..]) else 0;
      if s[0] == '{' && n + 1 < |s| && s[n + 1] == '}' {
        BraceSpansAreFlat(s[n + 2..]);
        BraceFreePrefixSkips(s[1..]);
        var t := s[..n + 2];
        forall k | 0 < k < |t| - 1
          ensures !IsBrace(t[k])
        {
          assert t[k] == s[1..][k - 1];
        }
        assert IsBraceSpan(t);
      } else {
        BraceSpansAreFlat(s[1..]);
      }
    }
  }

  /** No '{' in the text: separators between objects. */
  predicate NoOpenBrace(x: string)
  {
    forall k :: 0 <= k < |x| ==> x[k] != '{'
  }

  /** No '}' in the text: an object cut off before its closing brace, or plain text. */
  predicate NoCloseBrace(x: string)
  {
    forall k :: 0 <= k < |x| ==> x[k] != '}'
  }

  /** Text without '{' before `rest` contributes no match. */
  lemma {:induction false} SpansAfterPlain(x: string, rest: string)
    requires NoOpenBrace(x)
    ensures BraceSpans(x + rest) == BraceSpans(rest)
    decreases |x|
  {
    if x == [] {
      assert x + rest == rest;
    } else {
      assert (x + rest)[0] == x[0];
      assert (x + rest)[1..] == x[1..] + rest;
      SpansAfterPlain(x[1..], rest);
    }
  }

  /** A flat object before `rest` is one match, then matching continues in `rest`. */
  lemma SpansAfterObject(t: string, rest: string)
    requires IsBraceSpan(t)
    ensures BraceSpans(t + rest) == [t] + BraceSpans(rest)
  {
    var s := t + rest;
    var inner := t[1..|t| - 1];
    assert s[1..] == inner + ("}" + rest);
    BraceFreePrefixOf(inner, "}" + rest);
    assert s[|t| - 1] == '}';
    assert s[..|t|] == t;
    assert s[|t|..] == rest;
  }

  /** Text without '}' holds no match at all (an unterminated object is dropped). */
  lemma {:induction false} NoCloseNoSpans(s: string)
    requires NoCloseBrace(s)
    ensures BraceSpans(s) == []
    decreases |s|
  {
    if s != [] {
      NoCloseNoSpans(s[1..]);
    }
  }

  /** The decoded values of the spans that parse, in order; the others are dropped. */
  function ParsedSpans(svc: Services, spans: seq<string>): (infos: seq<Json>)
    ensures |infos| <= |spans|
    decreases |spans|
  {
    if spans == [] then []
    else
      ParsedSpans(svc, spans[..|spans| - 1])
        + (match svc.parseJson(spans[|spans| - 1]) case Some(v) => [v] case None => [])
  }

  function Parses(svc: Services): string -> bool
  {
    (t: string) => svc.parseJson(t).Some?
  }

  /** Fallback decoding keeps, in order, the decoded value of every span that
      parses and of nothing else: the values correspond one to one with the
      parseable spans, which are the spans in their original order minus the rest. */
  lemma {:induction false} ParsedSpansAreParseable(svc: Services, spans: seq<string>)
    ensures IsSubsequence(Filter(Parses(svc), spans), spans)
    ensures forall t :: t in Filter(Parses(svc), spans) <==> t in spans && svc.parseJson(t).Some?
    ensures |ParsedSpans(svc, spans)| == |Filter(Parses(svc), spans)|
    ensures forall k :: 0 <= k < |ParsedSpans(svc, spans)| ==>
      svc.parseJson(Filter(Parses(svc), spans)[k]) == Some(ParsedSpans(svc, spans)[k])
    decreases |spans|
  {
    FilterIsSubsequence(Parses(svc), spans);
    forall t
      ensures t in Filter(Parses(svc), spans) <==> t in spans && svc.parseJson(t).Some?
    {
      FilterMembership(Parses(svc), spans, t);
    }
    if spans != [] {
      ParsedSpansAreParseable(svc, spans[..|spans| - 1]);
    }
  }

  /** Decodes each flat object of the reply on its own, skipping those that fail. */
  method FallbackJsonParse(svc: Services, responseText: string) returns (infos: seq<Json>)
    ensures infos == ParsedSpans(svc, BraceSpans(responseText))
  {
    var spans := BraceSpans(responseText);
    infos := [];
    for i := 0 to |spans|
      invariant infos == ParsedSpans(svc, spans[..i])
    {
      assert spans[..i + 1][..i] == spans[..i];
      match svc.parseJson(spans[i]) {
        case Some(obj) => infos := infos + [obj];
        case None =>
      }
    }
    assert spans[..|spans|] == spans;
  }

  /** A reply holding two complete objects, separated by plain text and followed by
      an object cut off before its closing brace, still yields exactly the two
      complete objects. */
  lemma FallbackRecoversCompleteObjects(svc: Services, pre: string, o1: string, mid: string, o2: string, tail: string,
                                        v1: Json, v2: Json)
    requires NoOpenBrace(pre) && NoOpenBrace(mid) && NoCloseBrace(tail)
    requires IsBraceSpan(o1) && IsBraceSpan(o2)
    requires svc.parseJson(o1) == Some(v1) && svc.parseJson(o2) == Some(v2)
    ensures ParsedSpans(svc, BraceSpans(pre + o1 + mid + o2 + tail)) == [v1, v2]
  {
    SpansOfTwoObjects(pre, o1, mid, o2, tail);
    ParsedTwo(svc, o1, o2, v1, v2);
  }

  lemma SpansOfTwoObjects(pre: string, o1: string, mid: string, o2: string, tail: string)
    requires NoOpenBrace(pre) && NoOpenBrace(mid) && NoCloseBrace(tail)
    requires IsBraceSpan(o1) && IsBraceSpan(o2)
    ensures BraceSpans(pre + o1 + mid + o2 + tail) == [o1, o2]
  {
    var r2 := o2 + tail;
    var r1 := mid + r2;
    var r0 := o1 + r1;
    assert pre + o1 + mid + o2 + tail == pre + r0;
    SpansAfterPlain(pre, r0);
    SpansAfterObject(o1, r1);
    SpansAfterPlain(mid, r2);
    SpansAfterObject(o2, tail);
    NoCloseNoSpans(tail);
  }

  lemma ParsedTwo(svc: Services, o1: string, o2: string, v1: Json, v2: Json)
    requires svc.parseJson(o1) == Some(v1) && svc.parseJson(o2) == Some(v2)
    ensures ParsedSpans(svc, [o1, o2]) == [v1, v2]
  {
    assert [o1, o2][..1] == [o1];
    assert [o1][..0] == [];
  }

  // ---------------------------------------------------------------- the gate

  /** Outcome of examining one decoded item. */
  datatype Verdict = Skip | Keep(deadline: Record) | Raise

  /** The announcement number an item gives, when it is an integer (a boolean counts as 0 or 1). */
  function IntegerNumber(j: Json): (n: Option<int>)
    ensures j.JInt? ==> n == Some(j.i)
    ensures n.Some? ==> j.JInt? || j.JBool?
  {
    match j
    case JInt(i) => Some(i)
    case JBool(b) => Some(if b then 1 else 0)
    case _ => None
  }

  /** What the gate guarantees of every item it keeps: it names one of the batch's
      announcements, has a due date other than the text "null", has confidence of
      at least 0.5, and carries that announcement's course name and the source tag. */
  ghost predicate PassesGate(svc: Services, anns: seq<Announcement>, d: Record)
  {
    var num := IntegerNumber(Get(d, "announcementNumber", JInt(0)));
    var due := Get(d, "dueDate", JNull);
    var conf := PyFloat(svc, Get(d, "confidence", JInt(0)));
    && num.Some? && 1 <= num.value <= |anns|
    && Truthy(due) && due != JStr("null")
    && conf.Some? && conf.value >= 0.5
    && Get(d, "courseName", JNull) == JStr(anns[num.value - 1].courseName)
    && Get(d, "source", JNull) == JStr("announcement")
  }

  /** One iteration of the processing loop. Comparing a non-number with the bounds,
      indexing with a float, calling `.get` on a non-dictionary and `float()` on an
      unconvertible confidence all raise, and a raise discards the whole batch. */
  function Examine(svc: Services, anns: seq<Announcement>, info: Json): (v: Verdict)
    ensures v.Keep? ==> PassesGate(svc, anns, v.deadline)
    ensures v.Keep? ==> info.JObj? && forall key :: key in info.fields && key != "courseName" && key != "source" ==>
      key in v.deadline && v.deadline[key] == info.fields[key]
    ensures !info.JObj? ==> v.Raise?
    ensures info.JObj? ==> (v.Keep? <==> GateOpen(svc, anns, info.fields))
  {
    match info
    case JObj(fields) => ExamineFields(svc, anns, fields)
    case _ => Raise
  }

  /** The gate on the item's own fields: an integer announcement number of the
      batch, a due date other than the text "null", and a readable confidence of at
      least 0.5. */
  predicate GateOpen(svc: Services, anns: seq<Announcement>, fields: Record)
  {
    var num := IntegerNumber(Get(fields, "announcementNumber", JInt(0)));
    var due := Get(fields, "dueDate", JNull);
    var conf := PyFloat(svc, Get(fields, "confidence", JInt(0)));
    && num.Some? && 1 <= num.value <= |anns|
    && Truthy(due) && due != JStr("null")
    && conf.Some? && conf.value >= 0.5
  }

  /** One object item. It raises when its announcement number is not a number
      (the comparison with 1 fails), a float naming an announcement (a float index),
      or an integer naming an announcement while its confidence is not convertible
      by `float()`; it is kept exactly when it passes the gate. */
  function ExamineFields(svc: Services, anns: seq<Announcement>, fields: Record): (v: Verdict)
    ensures v.Keep? ==> PassesGate(svc, anns, v.deadline)
    ensures v.Keep? ==> forall key :: key in fields && key != "courseName" && key != "source" ==>
      key in v.deadline && v.deadline[key] == fields[key]
    ensures v.Keep? <==> GateOpen(svc, anns, fields)
    ensures var num := Get(fields, "announcementNumber", JInt(0));
      && (!num.JFloat? && IntegerNumber(num).None? ==> v.Raise?)
      && (num.JFloat? ==> (v.Raise? <==> 1.0 <= num.r <= |anns| as real))
      && (IntegerNumber(num).Some? && !(1 <= IntegerNumber(num).value <= |anns|) ==> v.Skip?)
      && (IntegerNumber(num).Some? && 1 <= IntegerNumber(num).value <= |anns| ==>
            (v.Raise? <==> PyFloat(svc, Get(fields, "confidence", JInt(0))).None?))
  {
    var num := Get(fields, "announcementNumber", JInt(0));
    if num.JFloat? then
      (if 1.0 <= num.r <= |anns| as real then Raise else Skip)
    else if IntegerNumber(num).None? then Raise
    else
      var k := IntegerNumber(num).value;
      if !(1 <= k <= |anns|) then Skip
      else
        var confidence := PyFloat(svc, Get(fields, "confidence", JInt(0)));
        var due := Get(fields, "dueDate", JNull);
        if confidence.None? then Raise
        else if Truthy(due) && due != JStr("null") && confidence.value >= 0.5 then
          Keep(fields["courseName" := JStr(anns[k - 1].courseName)]["source" := JStr("announcement")])
        else Skip
  }

  /** The kept items of a decoded list, or None when some item raises. */
  function ProcessInfos(svc: Services, anns: seq<Announcement>, infos: seq<Json>): (r: Option<seq<Record>>)
    ensures r.Some? ==> |r.value| <= |infos|
    ensures r.Some? ==> forall k :: 0 <= k < |r.value| ==> PassesGate(svc, anns, r.value[k])
    decreases |infos|
  {
    if infos == [] then Some([])
    else
      match ProcessInfos(svc, anns, infos[..|infos| - 1])
      case None => None
      case Some(acc) =>
        match Examine(svc, anns, infos[|infos| - 1])
        case Raise => None
        case Skip => Some(acc)
        case Keep(d) => Some(acc + [d])
  }

  /** All or nothing: the batch is lost exactly when one of its items raises. */
  lemma {:induction false} ProcessAllOrNothing(svc: Services, anns: seq<Announcement>, infos: seq<Json>)
    ensures ProcessInfos(svc, anns, infos).None? <==>
      exists k :: 0 <= k < |infos| && Examine(svc, anns, infos[k]).Raise?
    decreases |infos|
  {
    if infos != [] {
      var n := |infos| - 1;
      var init := infos[..n];
      ProcessAllOrNothing(svc, anns, init);
      if ProcessInfos(svc, anns, init).None? {
        var k :| 0 <= k < n && Examine(svc, anns, init[k]).Raise?;
        assert infos[k] == init[k];
      } else if Examine(svc, anns, infos[n]).Raise? {
        assert ProcessInfos(svc, anns, infos).None?;
      } else {
        forall k | 0 <= k < |infos|
          ensures !Examine(svc, anns, infos[k]).Raise?
        {
          if k < n {
            assert infos[k] == init[k];
          }
        }
      }
    }
  }

  /** Every item that does not raise and passes the gate is kept, and only those. */
  lemma {:induction false} ProcessKeepsPassing(svc: Services, anns: seq<Announcement>, infos: seq<Json>)
    requires ProcessInfos(svc, anns, infos).Some?
    ensures |ProcessInfos(svc, anns, infos).value| == |Filter((j: Json) => Examine(svc, anns, j).Keep?, infos)|
    decreases |infos|
  {
    if infos != [] {
      ProcessKeepsPassing(svc, anns, infos[..|infos| - 1]);
    }
  }

  /** Conversely, when the batch is not lost, every object item that passes the
      gate is in the output, enriched with its announcement's course name. */
  lemma {:induction false} GatePassersAreKept(svc: Services, anns: seq<Announcement>, infos: seq<Json>, k: nat)
    requires ProcessInfos(svc, anns, infos).Some?
    requires k < |infos| && infos[k].JObj? && GateOpen(svc, anns, infos[k].fields)
    ensures Examine(svc, anns, infos[k]).Keep?
    ensures Examine(svc, anns, infos[k]).deadline in ProcessInfos(svc, anns, infos).value
    decreases |infos|
  {
    var n := |infos| - 1;
    if k < n {
      assert infos[..n][k] == infos[k];
      GatePassersAreKept(svc, anns, infos[..n], k);
    }
  }

  method ProcessDeadlines(svc: Services, anns: seq<Announcement>, infos: seq<Json>) returns (r: Option<seq<Record>>)
    ensures r == ProcessInfos(svc, anns, infos)
  {
    var processed: seq<Record> := [];
    for i := 0 to |infos|
      invariant ProcessInfos(svc, anns, infos[..i]) == Some(processed)
    {
      assert infos[..i + 1][..i] == infos[..i];
      match Examine(svc, anns, infos[i]) {
        case Raise =>
          ProcessAllOrNothing(svc, anns, infos);
          return None;
        case Skip =>
        case Keep(d) =>
          processed := processed + [d];
      }
    }
    assert infos[..|infos|] == infos;
    r := Some(processed);
  }

  // ---------------------------------------------------------------- the batch call

  /** The part of the prompt describing the `i`-th announcement (numbered from 1). */
  function AnnouncementBlock(i: int, a: Announcement): string
    requires a.text.Some?
  {
    "\nANNOUNCEMENT " + IntToString(i) + ":\n"
      + "Course: \"" + a.courseName + "\"\n"
      + "Created at: " + a.creationTime.GetOr("unknown time") + "\n"
      + "Text: \"" + a.text.value + "\"\n"
  }

  predicate AllHaveText(anns: seq<Announcement>)
  {
    forall k :: 0 <= k < |anns| ==> anns[k].text.Some?
  }

  /** The blocks of the announcements, numbered from 1. */
  function Blocks(anns: seq<Announcement>): (blocks: seq<string>)
    requires AllHaveText(anns)
    ensures |blocks| == |anns|
    ensures forall k :: 0 <= k < |anns| ==> blocks[k] == AnnouncementBlock(k + 1, anns[k])
  {
    seq(|anns|, k requires 0 <= k < |anns| => AnnouncementBlock(k + 1, anns[k]))
  }

  function BatchPrompt(texts: PromptTexts, anns: seq<Announcement>): string
    requires AllHaveText(anns)
  {
    texts.extractHeader + Concat(Blocks(anns)) + texts.extractFooter
  }

  method BuildBatchPrompt(texts: PromptTexts, anns: seq<Announcement>) returns (prompt: string)
    requires AllHaveText(anns)
    ensures prompt == BatchPrompt(texts, anns)
  {
    var blocks := Blocks(anns);
    var body := "";
    for i := 0 to |anns|
      invariant body == Concat(blocks[..i])
    {
      assert blocks[..i + 1][..i] == blocks[..i];
      body := body + AnnouncementBlock(i + 1, anns[i]);
    }
    assert blocks[..|anns|] == blocks;
    prompt := texts.extractHeader + body + texts.extractFooter;
  }

  /** Every announcement of the batch appears in the prompt under its 1-based number. */
  lemma PromptCoversEveryAnnouncement(texts: PromptTexts, anns: seq<Announcement>, i: nat)
    requires AllHaveText(anns) && i < |anns|
    ensures Contains(BatchPrompt(texts, anns), AnnouncementBlock(i + 1, anns[i]))
  {
    ConcatContains(Blocks(anns), i);
    ContainsInfix(texts.extractHeader, Concat(Blocks(anns)), texts.extractFooter, AnnouncementBlock(i + 1, anns[i]));
  }

  /** The items the reply describes: the primary decode of the cleaned reply when it
      is a list, the fallback objects when it does not decode, and None when it decodes
      to something else (every such value ends the batch with nothing). */
  function DecodeInfos(svc: Services, responseText: string): Option<seq<Json>>
  {
    match svc.parseJson(ExtractJsonFromResponse(responseText))
    case None => Some(ParsedSpans(svc, BraceSpans(responseText)))
    case Some(JArr(items)) => Some(items)
    case Some(_) => None
  }

  /** What one batch yields for the model's reply (None when the call raised). */
  function BatchOutcome(svc: Services, anns: seq<Announcement>, reply: Option<string>): (r: seq<Record>)
    ensures forall k :: 0 <= k < |r| ==> PassesGate(svc, anns, r[k])
    ensures reply.None? ==> r == []
  {
    match reply
    case None => []
    case Some(text) =>
      match DecodeInfos(svc, text)
      case None => []
      case Some(infos) => ProcessInfos(svc, anns, infos).GetOr([])
  }

  /** A reply that fails to decode as a whole but holds two complete objects and a
      truncated one is processed as the list of the two complete objects. */
  lemma TruncatedReplyIsSalvaged(svc: Services, anns: seq<Announcement>,
                                 pre: string, o1: string, mid: string, o2: string, tail: string, v1: Json, v2: Json)
    requires NoOpenBrace(pre) && NoOpenBrace(mid) && NoCloseBrace(tail)
    requires IsBraceSpan(o1) && IsBraceSpan(o2)
    requires svc.parseJson(o1) == Some(v1) && svc.parseJson(o2) == Some(v2)
    requires svc.parseJson(ExtractJsonFromResponse(pre + o1 + mid + o2 + tail)) == None
    ensures BatchOutcome(svc, anns, Some(pre + o1 + mid + o2 + tail)) == ProcessInfos(svc, anns, [v1, v2]).GetOr([])
  {
    FallbackRecoversCompleteObjects(svc, pre, o1, mid, o2, tail, v1, v2);
  }

  /** Cleans and decodes the reply, falling back to the flat objects it holds
      when the cleaned text is not valid JSON. */
  method DecodeReply(svc: Services, responseText: string) returns (infos: Option<seq<Json>>)
    ensures infos == DecodeInfos(svc, responseText)
  {
    var jsonText := ExtractJsonFromResponse(responseText);
    match svc.parseJson(jsonText) {
      case None =>
        var objects := FallbackJsonParse(svc, responseText);
        infos := Some(objects);
      case Some(parsed) =>
        infos := if parsed.JArr? then Some(parsed.items) else None;
    }
  }

  /** One model call for the whole batch; every failure yields no deadlines. */
  method ExtractDeadlines(svc: Services, texts: PromptTexts, anns: seq<Announcement>) returns (deadlines: seq<Record>)
    requires AllHaveText(anns)
    ensures deadlines == BatchOutcome(svc, anns, svc.infer(BatchPrompt(texts, anns)))
    ensures forall k :: 0 <= k < |deadlines| ==> PassesGate(svc, anns, deadlines[k])
  {
    var prompt := BuildBatchPrompt(texts, anns);
    var reply := svc.infer(prompt);
    if reply.None? {
      return [];
    }
    var decoded := DecodeReply(svc, reply.value);
    if decoded.None? {
      return [];
    }
    var processed := ProcessDeadlines(svc, anns, decoded.value);
    deadlines := processed.GetOr([]);
  }

  datatype Extraction = MissingApiKey | Extracted(deadlines: seq<Record>)

  /** The whole stage: the key check (which comes first, even for no input), the
      keyword filter, then one batch call over the relevant announcements. */
  method ExtractDeadlinesFromAnnouncements(apiKey: Option<string>, svc: Services, texts: PromptTexts,
                                           announcements: seq<Announcement>) returns (r: Extraction)
    ensures r.MissingApiKey? <==> apiKey.GetOr("") == ""
    ensures r.Extracted? && Filter(IsRelevant, announcements) == [] ==> r.deadlines == []
    ensures r.Extracted? && Filter(IsRelevant, announcements) != [] ==>
      AllHaveText(Filter(IsRelevant, announcements)) &&
      r.deadlines == BatchOutcome(svc, Filter(IsRelevant, announcements),
                                  svc.infer(BatchPrompt(texts, Filter(IsRelevant, announcements))))
    ensures r.Extracted? ==> forall k :: 0 <= k < |r.deadlines| ==>
      PassesGate(svc, Filter(IsRelevant, announcements), r.deadlines[k])
  {
    if apiKey.GetOr("") == "" {
      return MissingApiKey;
    }
    if |announcements| == 0 {
      assert Filter(IsRelevant, announcements) == [];
      return Extracted([]);
    }
    var relevant := FilterRelevantAnnouncements(announcements);
    if relevant == [] {
      return Extracted([]);
    }
    RelevantSelection(announcements);
    assert AllHaveText(relevant) by {
      forall k | 0 <= k < |relevant|
        ensures relevant[k].text.Some?
      {
        assert relevant[k] in relevant;
      }
    }
    var deadlines := ExtractDeadlines(svc, texts, relevant);
    r := Extracted(deadlines);
  }
}
