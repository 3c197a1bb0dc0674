/** Removal of announcement-derived deadlines that duplicate Classroom
    assignments: one model call returns the indices of the deadlines to keep,
    the reply is cleaned and read as a list of indices, the indexed deadlines
    are selected, and those already past are dropped. Every failure of the
    model call keeps all extracted deadlines. */
module Deduplication {
  import opened Wrappers
  import opened Text
  import opened Seqs
  import opened JsonModel
  import opened Dates

  const Fence := "```"

  // ---------------------------------------------------------------- the regular expression \[.*?\]

  /** The lazy `.*?` starting at `from` stops at `j`: the first ']' from there on,
      with no line break before it (`.` does not match a line break). */
  ghost predicate ClosesAt(t: string, from: int, j: int)
  {
    0 <= from <= j < |t| && t[j] == ']' && forall k :: from <= k < j ==> t[k] != ']' && t[k] != '\n'
  }

  /** The pattern `\[.*?\]` matches `t[i..j + 1]` when the search tries position `i`. */
  ghost predicate ArrayAt(t: string, i: int, j: int)
  {
    0 <= i < |t| && t[i] == '[' && ClosesAt(t, i + 1, j)
  }

  /** Where the lazy repetition from `from` ends, or -1 when it cannot. */
  function CloseOnLine(t: string, from: nat): (r: int)
    ensures r == -1 || (from <= r < |t| && t[r] == ']')
    decreases |t| - from
  {
    if from >= |t| || t[from] == '\n' then -1
    else if t[from] == ']' then from
    else CloseOnLine(t, from + 1)
  }

  lemma {:induction false} CloseOnLineSpec(t: string, from: nat)
    ensures forall j :: ClosesAt(t, from, j) <==> 0 <= j == CloseOnLine(t, from)
    decreases |t| - from
  {
    if from >= |t| {
    } else if t[from] == '\n' {
      forall j
        ensures !ClosesAt(t, from, j)
      {
      }
    } else if t[from] == ']' {
      assert ClosesAt(t, from, from);
      forall j | ClosesAt(t, from, j)
        ensures j == from
      {
      }
    } else {
      CloseOnLineSpec(t, from + 1);
      forall j
        ensures ClosesAt(t, from, j) <==> ClosesAt(t, from + 1, j)
      {
      }
    }
  }

  /** The first position at or after `i` where the pattern matches, or -1. */
  function ArrayStart(t: string, i: nat): (p: int)
    ensures p == -1 || (i <= p < |t| && t[p] == '[' && CloseOnLine(t, p + 1) >= 0)
    decreases |t| - i
  {
    if i >= |t| then -1
    else if t[i] == '[' && CloseOnLine(t, i + 1) >= 0 then i
    else ArrayStart(t, i + 1)
  }

  lemma {:induction false} ArrayStartSpec(t: string, i: nat)
    ensures forall q, k :: i <= q && (ArrayStart(t, i) == -1 || q < ArrayStart(t, i)) ==> !ArrayAt(t, q, k)
    decreases |t| - i
  {
    if i < |t| {
      CloseOnLineSpec(t, i + 1);
      if !(t[i] == '[' && CloseOnLine(t, i + 1) >= 0) {
        ArrayStartSpec(t, i + 1);
      }
    }
  }

  /** `re.search(r'\[.*?\]', t)`: the matched text, if any. */
  function ArraySearch(t: string): (m: Option<string>)
  {
    var p := ArrayStart(t, 0);
    if p < 0 then None else Some(t[p..CloseOnLine(t, p + 1) + 1])
  }

  /** The search finds the leftmost match of the pattern, and finds nothing only
      when the pattern matches nowhere. */
  lemma ArraySearchSpec(t: string)
    ensures ArraySearch(t).None? <==> forall i, j :: !ArrayAt(t, i, j)
    ensures ArraySearch(t).Some? ==>
      exists i, j :: ArrayAt(t, i, j) && ArraySearch(t).value == t[i..j + 1]
                     && forall q, k :: q < i ==> !ArrayAt(t, q, k)
  {
    ArrayStartSpec(t, 0);
    var p := ArrayStart(t, 0);
    if p >= 0 {
      CloseOnLineSpec(t, p + 1);
      assert ArrayAt(t, p, CloseOnLine(t, p + 1));
    }
  }

  // ---------------------------------------------------------------- reading the reply

  /** A leading "json" language tag removed (`replace("json", "", 1)` on a text that
      starts with it, whose first occurrence is therefore at the start). */
  function DropJsonTag(body: string): (r: string)
    ensures StartsWith(body, "json") ==> body == "json" + r
    ensures !StartsWith(body, "json") ==> r == body
  {
    if StartsWith(body, "json") then body[4..] else body
  }

  /** The text inside the fences: the body of the first fenced block (or what follows
      a lone fence) without its tag, stripped; a reply without fences as it is. */
  function Unfenced(text: string): string
  {
    if Has(text, Fence) then
      var parts := Split(text, Fence);
      Strip(DropJsonTag(if |parts| >= 3 then parts[1] else parts[|parts| - 1]))
    else text
  }

  /** The text that is decoded: the unfenced text when it is bracketed, else the
      first match of `\[.*?\]` in it, if there is one. */
  function CleanReply(text: string): string
  {
    var t := Unfenced(text);
    if StartsWith(t, "[") && EndsWith(t, "]") then t
    else ArraySearch(t).GetOr(t)
  }

  /** A list item as an index: `isinstance(i, (int, float, str)) and str(i).isdigit()`,
      then `int(i)`. A negative integer prints with a minus sign, a boolean as "True" or
      "False", a float always with '.', 'e', "inf" or "nan", so only non-negative
      integers and all-digit strings pass; `int` of an all-digit string is its value
      (`Text.ParseUnsigned`). */
  function IndexValue(j: Json): (k: Option<nat>)
    ensures j.JInt? && j.i >= 0 ==> k == Some(j.i)
  {
    match j
    case JInt(i) => if i >= 0 then Some(i) else None
    case JStr(s) => if AllDigits(s) then Some(DigitsValue(s)) else None
    case _ => None
  }

  /** `ks` is read from `items` at the strictly increasing positions `pos`, and `pos`
      holds every position whose item reads as an index: the indices come in list
      order, with repeats kept, and nothing else is dropped or added. */
  ghost predicate ReadInOrder(items: seq<Json>, ks: seq<nat>, pos: seq<int>)
  {
    && |pos| == |ks|
    && (forall k :: 0 <= k < |pos| ==> 0 <= pos[k] < |items| && IndexValue(items[pos[k]]) == Some(ks[k]))
    && (forall k, l :: 0 <= k < l < |pos| ==> pos[k] < pos[l])
    && (forall i :: 0 <= i < |items| && IndexValue(items[i]).Some? ==> i in pos)
  }

  /** The indices a decoded list gives, in list order. */
  function CoerceIndices(items: seq<Json>): (ks: seq<nat>)
    ensures |ks| <= |items|
    decreases |items|
  {
    if items == [] then []
    else
      var last := IndexValue(items[|items| - 1]);
      CoerceIndices(items[..|items| - 1]) + (if last.Some? then [last.value] else [])
  }

  /** The indices are read in list order, repeats kept, from exactly the items that
      read as an index. */
  lemma {:induction false} CoerceIndicesInOrder(items: seq<Json>)
    ensures exists pos :: ReadInOrder(items, CoerceIndices(items), pos)
    decreases |items|
  {
    if items == [] {
      assert ReadInOrder(items, CoerceIndices(items), []);
    } else {
      var n := |items| - 1;
      CoerceIndicesInOrder(items[..n]);
      var pos :| ReadInOrder(items[..n], CoerceIndices(items[..n]), pos);
      var last := IndexValue(items[n]);
      ReadInOrderExtends(items, CoerceIndices(items[..n]), pos, last);
      assert ReadInOrder(items, CoerceIndices(items), pos + (if last.Some? then [n] else []));
    }
  }

  /** The positions of a prefix extend to the whole list by the last position,
      when the last item reads as an index. */
  lemma ReadInOrderExtends(items: seq<Json>, init: seq<nat>, pos: seq<int>, last: Option<nat>)
    requires |items| > 0 && ReadInOrder(items[..|items| - 1], init, pos)
    requires last == IndexValue(items[|items| - 1])
    ensures ReadInOrder(items, init + (if last.Some? then [last.value] else []),
                        pos + (if last.Some? then [|items| - 1] else []))
  {
    var n := |items| - 1;
    var ks := init + (if last.Some? then [last.value] else []);
    var pos' := pos + (if last.Some? then [n] else []);
    forall k | 0 <= k < |pos'|
      ensures 0 <= pos'[k] < |items| && IndexValue(items[pos'[k]]) == Some(ks[k])
    {
      if k < |pos| {
        assert items[..n][pos[k]] == items[pos[k]];
      }
    }
    forall i | 0 <= i < |items| && IndexValue(items[i]).Some?
      ensures i in pos'
    {
      if i < n {
        assert items[..n][i] == items[i];
      }
    }
  }

  /** Each item is read on its own: reading a concatenation concatenates the readings. */
  lemma {:induction false} CoerceIndicesAppend(a: seq<Json>, b: seq<Json>)
    ensures CoerceIndices(a + b) == CoerceIndices(a) + CoerceIndices(b)
    decreases |b|
  {
    if b == [] {
      assert a + b == a;
    } else {
      var b' := b[..|b| - 1];
      assert (a + b)[..|a + b| - 1] == a + b';
      CoerceIndicesAppend(a, b');
    }
  }

  /** `[2, "x", "0"]` is read as `[2, 0]`: the unreadable item is passed over and
      the order of the rest is kept. */
  lemma MixedListExample()
    ensures CoerceIndices([JInt(2), JStr("x"), JStr("0")]) == [2, 0]
  {
    var items := [JInt(2), JStr("x"), JStr("0")];
    assert IndexValue(items[1]) == None by {
      assert !IsDigit('x');
    }
    assert IndexValue(items[2]) == Some(0) by {
      assert AllDigits("0");
    }
    assert items[..2][..1] == [JInt(2)];
    assert items[..2] == [JInt(2), JStr("x")];
  }

  /** An index is read exactly when some item of the list denotes it. */
  lemma {:induction false} CoerceIndicesMembership(items: seq<Json>, x: nat)
    ensures x in CoerceIndices(items) <==> exists i :: 0 <= i < |items| && IndexValue(items[i]) == Some(x)
    decreases |items|
  {
    if items != [] {
      var n := |items| - 1;
      CoerceIndicesMembership(items[..n], x);
      if exists i :: 0 <= i < n && IndexValue(items[..n][i]) == Some(x) {
        var i :| 0 <= i < n && IndexValue(items[..n][i]) == Some(x);
        assert items[i] == items[..n][i];
      }
      if exists i :: 0 <= i < |items| && IndexValue(items[i]) == Some(x) {
        var i :| 0 <= i < |items| && IndexValue(items[i]) == Some(x);
        if i < n {
          assert items[..n][i] == items[i];
        }
      }
    }
  }

  /** The JSON list of the given indices. */
  function IndexList(ks: seq<nat>): (items: seq<Json>)
    ensures |items| == |ks|
    ensures forall k :: 0 <= k < |ks| ==> items[k] == JInt(ks[k])
  {
    seq(|ks|, k requires 0 <= k < |ks| => JInt(ks[k]))
  }

  /** A list of non-negative integers is read back as exactly those indices. */
  lemma {:induction false} IndexListRoundTrip(ks: seq<nat>)
    ensures CoerceIndices(IndexList(ks)) == ks
    decreases |ks|
  {
    if ks != [] {
      var n := |ks| - 1;
      IndexListRoundTrip(ks[..n]);
      assert IndexList(ks)[..n] == IndexList(ks[..n]);
      assert ks == ks[..n] + [ks[n]];
    }
  }

  /** `parse_ai_response`: the indices the reply lists, or none when the cleaned
      text does not decode (the raise is caught) or does not decode to a list. */
  function ParseAiResponse(svc: Services, responseText: string): (ks: seq<nat>)
    ensures !DecodesToList(svc, CleanReply(responseText)) ==> ks == []
    ensures DecodesToList(svc, CleanReply(responseText)) ==>
      var items := svc.parseJson(CleanReply(responseText)).value.items;
      && |ks| <= |items|
      && (forall x :: x in ks <==> exists i :: 0 <= i < |items| && IndexValue(items[i]) == Some(x))
      && exists pos :: ReadInOrder(items, ks, pos)
  {
    match svc.parseJson(CleanReply(responseText))
    case Some(JArr(items)) =>
      assert forall x :: x in CoerceIndices(items) <==> exists i :: 0 <= i < |items| && IndexValue(items[i]) == Some(x) by {
        forall x {
          CoerceIndicesMembership(items, x);
        }
      }
      assert exists pos :: ReadInOrder(items, CoerceIndices(items), pos) by {
        CoerceIndicesInOrder(items);
      }
      CoerceIndices(items)
    case _ => []
  }

  /** `json.loads` of the text succeeds and gives a list. */
  predicate DecodesToList(svc: Services, text: string)
  {
    svc.parseJson(text).Some? && svc.parseJson(text).value.JArr?
  }

  lemma Bracketed(s: string)
    requires |s| > 0 && s[0] == '[' && s[|s| - 1] == ']'
    ensures StartsWith(s, "[") && EndsWith(s, "]")
  {
    assert s[..1] == "[";
    assert s[|s| - 1..] == "]";
  }

  lemma UnfencedOf(text: string, body: string)
    requires Has(text, Fence) && |Split(text, Fence)| >= 3 && Split(text, Fence)[1] == body
    ensures Unfenced(text) == Strip(DropJsonTag(body))
  {
  }

  lemma WithoutFence(text: string)
    requires NoBackticks(text)
    ensures Unfenced(text) == text
  {
    NoFenceIn(text, Fence);
  }

  /** A bracketed reply without fences is decoded as it stands. */
  lemma BareReplyIsDecoded(s: string)
    requires |s| > 0 && s[0] == '[' && s[|s| - 1] == ']' && NoBackticks(s)
    ensures CleanReply(s) == s
  {
    WithoutFence(s);
    Bracketed(s);
  }

  /** The body of a fenced block without inner backticks is the second piece of the split. */
  lemma FenceSplit(body: string)
    requires NoBackticks(body)
    ensures Has(Fence + body + Fence, Fence)
    ensures |Split(Fence + body + Fence, Fence)| >= 3 && Split(Fence + body + Fence, Fence)[1] == body
  {
    var text := Fence + body + Fence;
    FindSpec(text, Fence);
    assert OccursAt(text, Fence, 0);
    assert text[3..] == body + Fence;
    ClosingFence(body);
    assert Split(text, Fence) == [text[..0]] + Split(body + Fence, Fence);
  }

  lemma TagIsDropped(tag: string, u: string)
    requires tag == "json" || tag == ""
    requires u != [] && u[0] != 'j'
    ensures DropJsonTag(tag + u) == u
  {
    if tag == "" {
      assert tag + u == u;
    } else {
      assert (tag + u)[..4] == "json";
    }
  }

  /** A bracketed payload in a fenced block, tagged "json" or untagged and padded with
      whitespace, is decoded as the bare payload. */
  lemma FencedReplyIsDecoded(tag: string, ws1: string, s: string, ws2: string)
    requires tag == "json" || tag == ""
    requires |s| > 0 && s[0] == '[' && s[|s| - 1] == ']' && NoBackticks(s)
    requires AllSpace(ws1) && AllSpace(ws2)
    ensures CleanReply(Fence + tag + ws1 + s + ws2 + Fence) == s
  {
    var u := ws1 + s + ws2;
    assert DropJsonTag(tag + u) == u by {
      assert u[0] == (if ws1 == [] then s[0] else ws1[0]);
      TagIsDropped(tag, u);
    }
    assert Strip(u) == s by {
      StripPadded(ws1, s, ws2);
    }
    assert NoBackticks(tag + u) by {
      TagHasNoBackticks(tag);
      SpaceHasNoBackticks(ws1);
      SpaceHasNoBackticks(ws2);
      NoBackticksAppend(ws1, s);
      NoBackticksAppend(ws1 + s, ws2);
      NoBackticksAppend(tag, u);
    }
    FencedBodyIsDecoded(tag + u, s);
    calc {
      Fence + (tag + u);
      { AppendAssoc(ws1, s, ws2); }
      Fence + (tag + (ws1 + (s + ws2)));
      { AppendAssoc(tag, ws1, s + ws2); }
      Fence + ((tag + ws1) + (s + ws2));
      { AppendAssoc(tag + ws1, s, ws2); }
      Fence + (((tag + ws1) + s) + ws2);
      { AppendAssoc(Fence, (tag + ws1) + s, ws2); AppendAssoc(Fence, tag + ws1, s); AppendAssoc(Fence, tag, ws1); }
      Fence + tag + ws1 + s + ws2;
    }
  }

  lemma TagHasNoBackticks(tag: string)
    requires tag == "json" || tag == ""
    ensures NoBackticks(tag)
  {
    if tag == "json" {
      assert tag[0] == 'j' && tag[1] == 's' && tag[2] == 'o' && tag[3] == 'n';
    }
  }

  lemma FencedBodyIsDecoded(body: string, s: string)
    requires NoBackticks(body) && Strip(DropJsonTag(body)) == s
    requires |s| > 0 && s[0] == '[' && s[|s| - 1] == ']'
    ensures CleanReply(Fence + body + Fence) == s
  {
    FenceSplit(body);
    UnfencedOf(Fence + body + Fence, body);
    CleanOfBracketed(Fence + body + Fence, s);
  }

  lemma CleanOfBracketed(text: string, s: string)
    requires Unfenced(text) == s && |s| > 0 && s[0] == '[' && s[|s| - 1] == ']'
    ensures CleanReply(text) == s
  {
    Bracketed(s);
  }

  lemma CleanOfUnbracketed(text: string)
    requires Unfenced(text) == text && text != [] && text[0] != '['
    ensures CleanReply(text) == ArraySearch(text).GetOr(text)
  {
    assert text[..1] == [text[0]];
  }

  /** An index list the model returns bare or in a fenced block is read back exactly. */
  lemma ListedIndicesAreRead(svc: Services, tag: string, ws1: string, s: string, ws2: string, ks: seq<nat>)
    requires tag == "json" || tag == ""
    requires |s| > 0 && s[0] == '[' && s[|s| - 1] == ']' && NoBackticks(s)
    requires AllSpace(ws1) && AllSpace(ws2)
    requires svc.parseJson(s) == Some(JArr(IndexList(ks)))
    ensures ParseAiResponse(svc, s) == ks
    ensures ParseAiResponse(svc, Fence + tag + ws1 + s + ws2 + Fence) == ks
  {
    BareReplyIsDecoded(s);
    FencedReplyIsDecoded(tag, ws1, s, ws2);
    IndexListRoundTrip(ks);
  }

  /** Prose before an index list on one line is skipped: the list is found by the
      regular expression and decoded alone. */
  lemma ProseBeforeListIsSkipped(pre: string, inner: string, post: string)
    requires NoBackticks(pre + "[" + inner + "]" + post)
    requires pre != [] && forall k :: 0 <= k < |pre| ==> pre[k] != '['
    requires forall k :: 0 <= k < |inner| ==> inner[k] != ']' && inner[k] != '\n'
    ensures CleanReply(pre + "[" + inner + "]" + post) == "[" + inner + "]"
  {
    var t := pre + "[" + inner + "]" + post;
    assert t[0] == pre[0];
    WithoutFence(t);
    CleanOfUnbracketed(t);
    assert ArraySearch(t) == Some("[" + inner + "]") by {
      var p := |pre|;
      var j := p + 1 + |inner|;
      assert t[p] == '[' && t[j] == ']';
      assert ClosesAt(t, p + 1, j);
      CloseOnLineSpec(t, p + 1);
      ArrayStartSpec(t, 0);
      assert ArrayAt(t, p, j);
      assert ArrayStart(t, 0) == p;
      assert t[p..j + 1] == "[" + inner + "]";
    }
  }

  // ---------------------------------------------------------------- selecting by index

  /** `[extracted[i] for i in indices if i < len(extracted)]`. */
  function SelectByIndices(extracted: seq<Record>, indices: seq<nat>): (unique: seq<Record>)
    ensures |unique| <= |indices|
    decreases |indices|
  {
    if indices == [] then []
    else
      var i := indices[|indices| - 1];
      SelectByIndices(extracted, indices[..|indices| - 1]) + (if i < |extracted| then [extracted[i]] else [])
  }

  function Below(n: nat): nat -> bool
  {
    i => i < n
  }

  lemma FilterBelowBound(n: nat, indices: seq<nat>, k: int)
    requires 0 <= k < |Filter<nat>(Below(n), indices)|
    ensures Filter<nat>(Below(n), indices)[k] < n
  {
    FilterMembership<nat>(Below(n), indices, Filter<nat>(Below(n), indices)[k]);
  }

  /** The indices of the reply that are in range, in the order listed. */
  function InRange(n: nat, indices: seq<nat>): (kept: seq<nat>)
    ensures forall k :: 0 <= k < |kept| ==> kept[k] < n
  {
    var kept := Filter<nat>(Below(n), indices);
    assert forall k :: 0 <= k < |kept| ==> kept[k] < n by {
      forall k | 0 <= k < |kept| {
        FilterBelowBound(n, indices, k);
      }
    }
    kept
  }

  /** The selection is the deadlines at the in-range indices, in the order listed;
      out-of-range indices are ignored. */
  lemma {:induction false} SelectionFollowsIndices(extracted: seq<Record>, indices: seq<nat>)
    ensures |SelectByIndices(extracted, indices)| == |InRange(|extracted|, indices)|
    ensures forall k :: 0 <= k < |InRange(|extracted|, indices)| ==>
      SelectByIndices(extracted, indices)[k] == extracted[InRange(|extracted|, indices)[k]]
    decreases |indices|
  {
    if indices != [] {
      SelectionFollowsIndices(extracted, indices[..|indices| - 1]);
    }
  }

  /** Deduplication only removes: whatever the reply, every selected deadline is
      one of the extracted deadlines. */
  lemma SelectedAreExtracted(extracted: seq<Record>, indices: seq<nat>)
    ensures forall k :: 0 <= k < |SelectByIndices(extracted, indices)| ==>
      SelectByIndices(extracted, indices)[k] in extracted
  {
    SelectionFollowsIndices(extracted, indices);
  }

  /** Indices listed in increasing order keep the deadlines in their extracted order. */
  lemma IncreasingIndicesKeepOrder(extracted: seq<Record>, indices: seq<nat>)
    requires forall a, b :: 0 <= a < b < |indices| ==> indices[a] < indices[b]
    ensures IsSubsequence(SelectByIndices(extracted, indices), extracted)
  {
    var kept := InRange(|extracted|, indices);
    SelectionFollowsIndices(extracted, indices);
    FilterIsSubsequence<nat>(Below(|extracted|), indices);
    var via :| SubsequenceVia(kept, indices, via);
    var idx := seq(|kept|, k requires 0 <= k < |kept| => kept[k] as int);
    forall a, b | 0 <= a < b < |idx|
      ensures idx[a] < idx[b]
    {
      assert kept[a] == indices[via[a]] && kept[b] == indices[via[b]];
    }
    assert SubsequenceVia(SelectByIndices(extracted, indices), extracted, idx);
  }

  function Range(n: nat): (r: seq<nat>)
    ensures |r| == n && forall k :: 0 <= k < n ==> r[k] == k
  {
    seq(n, k requires 0 <= k < n => k)
  }

  /** A reply listing every index keeps every deadline. */
  lemma AllIndicesKeepAll(extracted: seq<Record>)
    ensures SelectByIndices(extracted, Range(|extracted|)) == extracted
  {
    FilterKeepsAll<nat>(Below(|extracted|), Range(|extracted|));
    SelectionFollowsIndices(extracted, Range(|extracted|));
  }

  /** The selection does not guard against a repeated index: it repeats the deadline. */
  lemma RepeatedIndexRepeatsDeadline(d: Record)
    ensures SelectByIndices([d], [0, 0]) == [d, d]
  {
    assert [0, 0][..1] == [0];
    assert [0][..0] == [];
  }

  // ---------------------------------------------------------------- the date filter

  datatype Verdict = Drop | Retain | Fail

  /** `int()` of the pieces of a `dueTime` text before and after its first ':' as an
      hour and a minute that `time()` accepts, as a minute of the day; None when any
      of these steps raises (no ':', a non-number, an hour or minute out of range). */
  function TimeOfDay(t: string): (m: Option<int>)
    ensures m.Some? ==> 0 <= m.value < MinutesPerDay
  {
    var parts := Split(t, ":");
    if |parts| < 2 then None else HourMinute(ParseInt(parts[0]), ParseInt(parts[1]))
  }

  /** `time(hour=h, minute=m)` as a minute of the day; None when a part is missing
      or out of range. */
  function HourMinute(h: Option<int>, m: Option<int>): (r: Option<int>)
    ensures r.Some? ==> 0 <= r.value < MinutesPerDay
    ensures h.Some? && m.Some? && 0 <= h.value < 24 && 0 <= m.value < 60 ==> r == Some(h.value * 60 + m.value)
  {
    if h.Some? && m.Some? && 0 <= h.value < 24 && 0 <= m.value < 60 then Some(h.value * 60 + m.value)
    else None
  }

  /** The time check of a deadline due today. An unreadable time keeps the deadline;
      a time that is not a string raises from `.split`, which no handler catches. */
  function TodayCheck(time: Json, today: Date, now: Clock): (v: Verdict)
    ensures v.Fail? <==> Truthy(time) && !time.JStr?
    ensures !Truthy(time) ==> v.Retain?
    ensures Truthy(time) && time.JStr? && TimeOfDay(time.s).None? ==> v.Retain?
    ensures Truthy(time) && time.JStr? && TimeOfDay(time.s).Some? ==>
      (v.Retain? <==> After(Moment(today, TimeOfDay(time.s).value), now))
  {
    if !Truthy(time) then Retain
    else if !time.JStr? then Fail
    else
      var m := TimeOfDay(time.s);
      if m.None? then Retain
      else if After(Moment(today, m.value), now) then Retain
      else Drop
  }

  /** One iteration of `check_due`: no due date, a due date that is not a string or
      does not parse, and a past due date all drop the deadline; a later date keeps it. */
  function DueCheck(d: Record, now: Clock): (v: Verdict)
  {
    var due := Get(d, "dueDate", JNull);
    if !Truthy(due) || !due.JStr? then Drop
    else
      var parsed := ParseIsoDateTime(due.s);
      if parsed.None? then Drop
      else if DateLess(now.date, parsed.value.date) then Retain
      else if parsed.value.date != now.date then Drop
      else TodayCheck(Get(d, "dueTime", JNull), parsed.value.date, now)
  }

  /** The verdicts of the date filter at clock reading `now`. */
  function DueVerdicts(now: Clock): Record -> Verdict
  {
    d => DueCheck(d, now)
  }

  function Retains(verdict: Record -> Verdict): Record -> bool
  {
    d => verdict(d).Retain?
  }

  function RetainedAt(now: Clock): Record -> bool
  {
    Retains(DueVerdicts(now))
  }

  /** What a loop that appends the retained deadlines ends with, given the verdict on
      each; None when one of them raises. */
  function Survivors(verdict: Record -> Verdict, deadlines: seq<Record>): (r: Option<seq<Record>>)
    ensures r.Some? ==> |r.value| <= |deadlines|
    decreases |deadlines|
  {
    if deadlines == [] then Some([])
    else
      match Survivors(verdict, deadlines[..|deadlines| - 1])
      case None => None
      case Some(kept) =>
        match verdict(deadlines[|deadlines| - 1])
        case Fail => None
        case Drop => Some(kept)
        case Retain => Some(kept + [deadlines[|deadlines| - 1]])
  }

  lemma {:induction false} SurvivorsRaiseIff(verdict: Record -> Verdict, deadlines: seq<Record>)
    ensures Survivors(verdict, deadlines).None? <==> exists k :: 0 <= k < |deadlines| && verdict(deadlines[k]).Fail?
    decreases |deadlines|
  {
    if deadlines != [] {
      var n := |deadlines| - 1;
      var init := deadlines[..n];
      SurvivorsRaiseIff(verdict, init);
      if Survivors(verdict, init).None? {
        var k :| 0 <= k < n && verdict(init[k]).Fail?;
        assert deadlines[k] == init[k];
      } else if verdict(deadlines[n]).Fail? {
        assert Survivors(verdict, deadlines).None?;
      } else {
        forall k | 0 <= k < |deadlines|
          ensures !verdict(deadlines[k]).Fail?
        {
          if k < n {
            assert deadlines[k] == init[k];
          }
        }
      }
    }
  }

  lemma {:induction false} SurvivorsAreRetained(verdict: Record -> Verdict, deadlines: seq<Record>)
    requires Survivors(verdict, deadlines).Some?
    ensures Survivors(verdict, deadlines).value == Filter(Retains(verdict), deadlines)
    decreases |deadlines|
  {
    if deadlines != [] {
      SurvivorsAreRetained(verdict, deadlines[..|deadlines| - 1]);
    }
  }

  /** The deadlines `check_due` returns, or None when it raises. */
  function CheckDueSpec(deadlines: seq<Record>, now: Clock): (r: Option<seq<Record>>)
    ensures r.Some? ==> |r.value| <= |deadlines|
  {
    Survivors(DueVerdicts(now), deadlines)
  }

  /** The filter raises exactly when one of the deadlines has a truthy non-string
      time and is due today. */
  lemma CheckDueRaisesIff(deadlines: seq<Record>, now: Clock)
    ensures CheckDueSpec(deadlines, now).None? <==> exists k :: 0 <= k < |deadlines| && DueCheck(deadlines[k], now).Fail?
  {
    SurvivorsRaiseIff(DueVerdicts(now), deadlines);
  }

  /** When it does not raise, the filter keeps exactly the retained deadlines, in order. */
  lemma CheckDueSelects(deadlines: seq<Record>, now: Clock)
    requires CheckDueSpec(deadlines, now).Some?
    ensures CheckDueSpec(deadlines, now).value == Filter(RetainedAt(now), deadlines)
  {
    SurvivorsAreRetained(DueVerdicts(now), deadlines);
  }

  /** A deadline the filter keeps at some reading of the clock is also kept at every
      earlier reading: the filter never keeps a deadline it dropped before. */
  lemma RetentionIsMonotone(d: Record, now: Clock, later: Clock)
    requires ClockAtMost(now, later)
    requires DueCheck(d, later).Retain?
    ensures DueCheck(d, now).Retain?
  {
    var due := Get(d, "dueDate", JNull);
    var dt := ParseIsoDateTime(due.s).value;
    if dt.date == later.date && !DateLess(now.date, dt.date) {
      var time := Get(d, "dueTime", JNull);
      if Truthy(time) && TimeOfDay(time.s).Some? {
        ComparisonsAreMonotone(Moment(dt.date, TimeOfDay(time.s).value), now, later);
      }
    }
  }

  /** A deadline carrying the date text of a later day is kept, and one carrying the
      date text of an earlier day is dropped, whatever its time. */
  lemma DueDateDecides(d: Record, date: Date, now: Clock)
    requires ValidDate(date) && date.year >= 1000
    requires "dueDate" in d && d["dueDate"] == JStr(FormatDate(date))
    ensures DateLess(now.date, date) ==> DueCheck(d, now).Retain?
    ensures DateLess(date, now.date) ==> DueCheck(d, now).Drop?
  {
    FormatDateRoundTrip(date);
    DateOnlyIsMidnight(FormatDate(date));
  }

  /** A deadline due today at a time that reads as minute `t` of the day (for
      instance `HH:MM`, by `TimeTextIsRead`) is kept exactly when that moment is
      still ahead of the clock. */
  lemma TimedTodayDecides(d: Record, now: Clock, t: int)
    requires ValidDate(now.date) && now.date.year >= 1000
    requires "dueDate" in d && d["dueDate"] == JStr(FormatDate(now.date))
    requires "dueTime" in d && d["dueTime"].JStr? && TimeOfDay(d["dueTime"].s) == Some(t)
    ensures DueCheck(d, now).Retain? <==> After(Moment(now.date, t), now)
  {
    var time := d["dueTime"];
    assert time.s != "" by {
      EmptyTimeIsUnreadable();
    }
    DueTodayChecksTime(d, now);
    ReadableTimeDecides(time, now.date, now, t);
  }

  /** The empty text has no ':' and so no hour and minute. */
  lemma EmptyTimeIsUnreadable()
    ensures TimeOfDay("") == None
  {
    assert Split("", ":") == [""];
  }

  /** A readable time today keeps the deadline exactly when it is still ahead. */
  lemma ReadableTimeDecides(time: Json, today: Date, now: Clock, t: int)
    requires time.JStr? && time.s != "" && TimeOfDay(time.s) == Some(t)
    ensures TodayCheck(time, today, now).Retain? <==> After(Moment(today, t), now)
  {
    assert Truthy(time);
    var v := TodayCheck(time, today, now);
    assert v == (if After(Moment(today, t), now) then Retain else Drop);
  }

  /** A deadline due today with no time (absent, null or empty) is kept all day:
      "due today" counts as not yet past. */
  lemma UntimedTodayIsKept(d: Record, now: Clock)
    requires ValidDate(now.date) && now.date.year >= 1000
    requires "dueDate" in d && d["dueDate"] == JStr(FormatDate(now.date))
    requires !Truthy(Get(d, "dueTime", JNull))
    ensures DueCheck(d, now).Retain?
  {
    DueTodayChecksTime(d, now);
  }

  /** A deadline due today whose time text cannot be read as `HH:MM` is kept:
      the failed parse is caught and the deadline is given the benefit of the doubt. */
  lemma UnreadableTodayIsKept(d: Record, now: Clock)
    requires ValidDate(now.date) && now.date.year >= 1000
    requires "dueDate" in d && d["dueDate"] == JStr(FormatDate(now.date))
    requires Truthy(Get(d, "dueTime", JNull)) && Get(d, "dueTime", JNull).JStr?
    requires TimeOfDay(Get(d, "dueTime", JNull).s).None?
    ensures DueCheck(d, now).Retain?
  {
    DueTodayChecksTime(d, now);
  }

  /** A deadline whose due date is missing, empty, not a string or not an ISO date
      is dropped, whatever its time. */
  lemma UndatedIsDropped(d: Record, now: Clock)
    requires var due := Get(d, "dueDate", JNull);
      !Truthy(due) || !due.JStr? || ParseIsoDateTime(due.s).None?
    ensures DueCheck(d, now).Drop?
  {
  }

  lemma DueTodayChecksTime(d: Record, now: Clock)
    requires ValidDate(now.date) && now.date.year >= 1000
    requires "dueDate" in d && d["dueDate"] == JStr(FormatDate(now.date))
    ensures DueCheck(d, now) == TodayCheck(Get(d, "dueTime", JNull), now.date, now)
  {
    assert ParseIsoDateTime(FormatDate(now.date)) == Some(DateTime(now.date, 0, 0, 0)) by {
      FormatDateRoundTrip(now.date);
      DateOnlyIsMidnight(FormatDate(now.date));
    }
  }

  predicate NoColon(s: string)
  {
    forall k :: 0 <= k < |s| ==> s[k] != ':'
  }

  lemma Pad2HasNoColon(n: nat)
    requires n < 100
    ensures NoColon(Pad2(n)) && |Pad2(n)| == 2
  {
    var r := NatToString(n);
    assert forall k :: 0 <= k < |r| ==> IsDigit(r[k]);
    if n < 10 {
      assert Pad2(n) == "0" + r;
    }
  }

  /** Splitting `a:b` at ':' gives `a` and `b` when neither holds a ':'. */
  lemma SplitAtColon(a: string, b: string)
    requires NoColon(a) && NoColon(b)
    ensures Split(a + ":" + b, ":") == [a, b]
  {
    var t := a + ":" + b;
    FindFirstChar(t, ':', |a|);
    assert t[..|a|] == a;
    assert t[|a| + 1..] == b;
    FindSpec(b, ":");
  }

  lemma TimeOfDayOf(a: string, b: string, h: int, m: int)
    requires NoColon(a) && NoColon(b)
    requires ParseInt(a) == Some(h) && ParseInt(b) == Some(m)
    ensures TimeOfDay(a + ":" + b) == HourMinute(Some(h), Some(m))
  {
    SplitAtColon(a, b);
  }

  lemma HourMinuteValue(h: int, m: int)
    requires 0 <= h < 24 && 0 <= m < 60
    ensures HourMinute(Some(h), Some(m)) == Some(h * 60 + m)
  {
  }

  lemma TimeTextIsRead(h: nat, m: nat)
    requires h < 24 && m < 60
    ensures TimeOfDay(Pad2(h) + ":" + Pad2(m)) == Some(h * 60 + m)
  {
    HourMinuteValue(h, m);
    Pad2HasNoColon(h);
    Pad2HasNoColon(m);
    Pad2RoundTrip(h);
    Pad2RoundTrip(m);
    TimeOfDayOf(Pad2(h), Pad2(m), h, m);
  }

  /** `check_due`: keeps the deadlines that are due later than today, and those
      due today unless their readable time has passed. */
  method CheckDue(deadlines: seq<Record>, now: Clock) returns (r: Option<seq<Record>>)
    ensures r == CheckDueSpec(deadlines, now)
    ensures r.None? <==> exists k :: 0 <= k < |deadlines| && DueCheck(deadlines[k], now).Fail?
    ensures r.Some? ==> r.value == Filter(RetainedAt(now), deadlines)
  {
    var futureDeadlines: seq<Record> := [];
    for i := 0 to |deadlines|
      invariant CheckDueSpec(deadlines[..i], now) == Some(futureDeadlines)
    {
      assert deadlines[..i + 1][..i] == deadlines[..i];
      assert DueVerdicts(now)(deadlines[i]) == DueCheck(deadlines[i], now);
      match DueCheck(deadlines[i], now) {
        case Fail =>
          CheckDueRaisesIff(deadlines, now);
          return None;
        case Drop =>
        case Retain =>
          futureDeadlines := futureDeadlines + [deadlines[i]];
      }
    }
    assert deadlines[..|deadlines|] == deadlines;
    CheckDueRaisesIff(deadlines, now);
    CheckDueSelects(deadlines, now);
    r := Some(futureDeadlines);
  }

  // ---------------------------------------------------------------- the stage

  datatype Deduplicated = Deduplicated(assignments: seq<Record>, uniqueDeadlines: seq<Record>)

  /** The prompt: the instructions with both lists spliced in as indented JSON. */
  function DedupPrompt(svc: Services, texts: PromptTexts, assignments: seq<Record>, extracted: seq<Record>): string
  {
    texts.dedupHeader + svc.dumps(RecordsToJson(assignments)) + texts.dedupMiddle
      + svc.dumps(RecordsToJson(extracted)) + texts.dedupFooter
  }

  /** Both lists reach the model in full. */
  lemma PromptCarriesBothLists(svc: Services, texts: PromptTexts, assignments: seq<Record>, extracted: seq<Record>)
    ensures Contains(DedupPrompt(svc, texts, assignments, extracted), svc.dumps(RecordsToJson(assignments)))
    ensures Contains(DedupPrompt(svc, texts, assignments, extracted), svc.dumps(RecordsToJson(extracted)))
  {
    var a := svc.dumps(RecordsToJson(assignments));
    var e := svc.dumps(RecordsToJson(extracted));
    var h := texts.dedupHeader;
    var m := texts.dedupMiddle;
    var f := texts.dedupFooter;
    ContainsWhole(a);
    ContainsWhole(e);
    ContainsInfix(h, a, m + e + f, a);
    ContainsInfix(h + a + m, e, f, e);
    assert h + a + (m + e + f) == DedupPrompt(svc, texts, assignments, extracted);
  }

  /** The extracted deadlines at the indices the reply lists, before the date filter. */
  function Selection(svc: Services, extracted: seq<Record>, text: string): seq<Record>
  {
    SelectByIndices(extracted, ParseAiResponse(svc, text))
  }

  /** Whether the date filter raises on one of the selected deadlines. */
  predicate FilterRaises(selected: seq<Record>, now: Clock)
  {
    exists k :: 0 <= k < |selected| && DueCheck(selected[k], now).Fail?
  }

  /** What the stage returns for the model's reply (None when the call raised):
      the assignments are always returned unchanged; a raising model call, and a
      date filter that raises, keep every extracted deadline unfiltered; otherwise
      the result is the selected deadlines that are still due, in the order the
      reply lists them. */
  function DedupOutcome(svc: Services, now: Clock, assignments: seq<Record>, extracted: seq<Record>,
                        reply: Option<string>): (r: Deduplicated)
    ensures r.assignments == assignments
    ensures reply.None? ==> r.uniqueDeadlines == extracted
    ensures reply.Some? && FilterRaises(Selection(svc, extracted, reply.value), now) ==>
      r.uniqueDeadlines == extracted
    ensures reply.Some? && !FilterRaises(Selection(svc, extracted, reply.value), now) ==>
      r.uniqueDeadlines == Filter(RetainedAt(now), Selection(svc, extracted, reply.value))
    ensures forall k :: 0 <= k < |r.uniqueDeadlines| ==> r.uniqueDeadlines[k] in extracted
  {
    match reply
    case None => Deduplicated(assignments, extracted)
    case Some(text) =>
      var selected := Selection(svc, extracted, text);
      SelectedAreExtracted(extracted, ParseAiResponse(svc, text));
      CheckDueRaisesIff(selected, now);
      match CheckDueSpec(selected, now)
      case None => Deduplicated(assignments, extracted)
      case Some(unique) =>
        CheckDueSelects(selected, now);
        FilteredAreSelected(selected, now, extracted);
        Deduplicated(assignments, unique)
  }

  /** Every deadline the stage keeps after a reply is one the reply selected and
      the date filter retains; a selected deadline that the filter retains is kept. */
  lemma KeptIffSelectedAndDue(svc: Services, now: Clock, assignments: seq<Record>, extracted: seq<Record>,
                              text: string, d: Record)
    requires !FilterRaises(Selection(svc, extracted, text), now)
    ensures d in DedupOutcome(svc, now, assignments, extracted, Some(text)).uniqueDeadlines
        <==> d in Selection(svc, extracted, text) && DueCheck(d, now).Retain?
  {
    FilterMembership(RetainedAt(now), Selection(svc, extracted, text), d);
  }

  lemma FilteredAreSelected(selected: seq<Record>, now: Clock, extracted: seq<Record>)
    requires forall k :: 0 <= k < |selected| ==> selected[k] in extracted
    ensures forall k :: 0 <= k < |Filter(RetainedAt(now), selected)| ==> Filter(RetainedAt(now), selected)[k] in extracted
  {
    forall k | 0 <= k < |Filter(RetainedAt(now), selected)|
      ensures Filter(RetainedAt(now), selected)[k] in extracted
    {
      var d := Filter(RetainedAt(now), selected)[k];
      FilterMembership(RetainedAt(now), selected, d);
    }
  }

  /** `deduplicate_with_ai`: nothing extracted gives nothing; no assignments keeps
      every extracted deadline without calling the model; otherwise the model's
      selection, filtered by date, with a fall back to all extracted deadlines. */
  method DeduplicateWithAi(svc: Services, texts: PromptTexts, now: Clock,
                           assignments: seq<Record>, extracted: seq<Record>) returns (r: Deduplicated)
    ensures r.assignments == assignments
    ensures extracted == [] ==> r.uniqueDeadlines == []
    ensures extracted != [] && assignments == [] ==> r.uniqueDeadlines == extracted
    ensures extracted != [] && assignments != [] ==>
      r == DedupOutcome(svc, now, assignments, extracted, svc.infer(DedupPrompt(svc, texts, assignments, extracted)))
    ensures extracted != [] && assignments != [] && svc.infer(DedupPrompt(svc, texts, assignments, extracted)).None? ==>
      r.uniqueDeadlines == extracted
    ensures extracted != [] && assignments != [] && svc.infer(DedupPrompt(svc, texts, assignments, extracted)).Some? ==>
      var selected := Selection(svc, extracted, svc.infer(DedupPrompt(svc, texts, assignments, extracted)).value);
      r.uniqueDeadlines == if FilterRaises(selected, now) then extracted else Filter(RetainedAt(now), selected)
    ensures forall k :: 0 <= k < |r.uniqueDeadlines| ==> r.uniqueDeadlines[k] in extracted
  {
    if extracted == [] {
      return Deduplicated(assignments, []);
    }
    if assignments == [] {
      return Deduplicated(assignments, extracted);
    }
    var prompt := DedupPrompt(svc, texts, assignments, extracted);
    var reply := svc.infer(prompt);
    if reply.None? {
      return Deduplicated(assignments, extracted);
    }
    var indices := ParseAiResponse(svc, reply.value);
    var unique := SelectByIndices(extracted, indices);
    var checked := CheckDue(unique, now);
    if checked.None? {
      return Deduplicated(assignments, extracted);
    }
    r := Deduplicated(assignments, checked.value);
  }
}
