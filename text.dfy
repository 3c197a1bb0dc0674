/** The string operations of Python and JavaScript that the system relies on:
    `in`, `find`, `rfind`, `split`, `strip`, `lower`, `startswith`, `isdigit`,
    `int()` and the `{n}` / `{n:02d}` formats. Strings are sequences of characters. */
module Text {
  import opened Wrappers

  // ---------------------------------------------------------------- characters

  predicate IsDigit(c: char) { '0' <= c <= '9' }

  function DigitValue(c: char): int
    requires IsDigit(c)
  {
    c as int - '0' as int
  }

  function DigitChar(d: int): (c: char)
    requires 0 <= d <= 9
    ensures IsDigit(c) && DigitValue(c) == d
  {
    (d + '0' as int) as char
  }

  /** Python's `str.isdigit()` on ASCII text: non-empty and all decimal digits. */
  predicate AllDigits(s: string)
  {
    |s| > 0 && forall k :: 0 <= k < |s| ==> IsDigit(s[k])
  }

  /** The characters Python's `str.strip()` removes (those for which `str.isspace()` holds). */
  predicate IsSpace(c: char)
  {
    || ('\t' <= c <= '\r')
    || ('\U{1C}' <= c <= '\U{20}')
    || c == '\U{85}' || c == '\U{A0}' || c == '\U{1680}'
    || ('\U{2000}' <= c <= '\U{200A}')
    || c == '\U{2028}' || c == '\U{2029}' || c == '\U{202F}' || c == '\U{205F}' || c == '\U{3000}'
  }

  predicate AllSpace(s: string)
  {
    forall k :: 0 <= k < |s| ==> IsSpace(s[k])
  }

  function LowerChar(c: char): char
  {
    if 'A' <= c <= 'Z' then (c as int + 32) as char else c
  }

  /** `str.lower()` on the ASCII letters. */
  function Lower(s: string): (r: string)
    ensures |r| == |s|
  {
    seq(|s|, k requires 0 <= k < |s| => LowerChar(s[k]))
  }

  // ---------------------------------------------------------------- searching

  predicate StartsWith(s: string, prefix: string)
  {
    |prefix| <= |s| && s[..|prefix|] == prefix
  }

  predicate EndsWith(s: string, suffix: string)
  {
    |suffix| <= |s| && s[|s| - |suffix|..] == suffix
  }

  /** `pat` occurs in `s` starting at position `i`. */
  predicate OccursAt(s: string, pat: string, i: int)
  {
    0 <= i && i + |pat| <= |s| && s[i..i + |pat|] == pat
  }

  /** `pat` is a substring of `s` (Python's `pat in s`), stated declaratively. */
  ghost predicate Contains(s: string, pat: string)
  {
    exists i :: OccursAt(s, pat, i)
  }

  /** The first position at or after `from` where `pat` occurs, or -1. */
  function FindFrom(s: string, pat: string, from: nat): (r: int)
    ensures r == -1 || (from <= r && r + |pat| <= |s|)
    decreases |s| - from
  {
    if from + |pat| > |s| then -1
    else if s[from..from + |pat|] == pat then from
    else FindFrom(s, pat, from + 1)
  }

  lemma {:induction false} FindFromSpec(s: string, pat: string, from: nat)
    ensures FindFrom(s, pat, from) >= 0 ==> OccursAt(s, pat, FindFrom(s, pat, from))
    ensures forall i :: from <= i && (FindFrom(s, pat, from) == -1 || i < FindFrom(s, pat, from)) ==> !OccursAt(s, pat, i)
    decreases |s| - from
  {
    if from + |pat| <= |s| && s[from..from + |pat|] != pat {
      FindFromSpec(s, pat, from + 1);
    }
  }

  /** Python's `s.find(pat)`. */
  function Find(s: string, pat: string): (r: int)
    ensures r == -1 || (0 <= r && r + |pat| <= |s|)
  {
    FindFrom(s, pat, 0)
  }

  /** `find` returns the first occurrence, and -1 exactly when there is none. */
  lemma FindSpec(s: string, pat: string)
    ensures Find(s, pat) == -1 <==> !Contains(s, pat)
    ensures Find(s, pat) >= 0 ==> OccursAt(s, pat, Find(s, pat))
    ensures forall i :: 0 <= i && (Find(s, pat) == -1 || i < Find(s, pat)) ==> !OccursAt(s, pat, i)
  {
    FindFromSpec(s, pat, 0);
  }

  /** Python's `pat in s`, computed. */
  predicate Has(s: string, pat: string)
    ensures Has(s, pat) <==> Contains(s, pat)
  {
    FindSpec(s, pat);
    Find(s, pat) >= 0
  }

  /** Python's `s.rfind(c)` for a one-character pattern. */
  function RFind(s: string, c: char): (r: int)
    ensures -1 <= r < |s|
    ensures r >= 0 ==> s[r] == c
    ensures forall i :: r < i < |s| ==> s[i] != c
  {
    if s == [] then -1
    else if s[|s| - 1] == c then |s| - 1
    else RFind(s[..|s| - 1], c)
  }

  /** The first occurrence of a one-character pattern is its first position. */
  lemma FindFirstChar(s: string, c: char, i: int)
    requires 0 <= i < |s| && s[i] == c
    requires forall k :: 0 <= k < i ==> s[k] != c
    ensures Find(s, [c]) == i
  {
    FindSpec(s, [c]);
    assert s[i..i + 1] == [c];
    assert OccursAt(s, [c], i);
    forall k | 0 <= k < i
      ensures !OccursAt(s, [c], k)
    {
      assert s[k..k + 1] == [s[k]];
    }
  }
  // ---------------------------------------------------------------- split and join

  /** Python's `s.split(sep)` for a non-empty separator. */
  function Split(s: string, sep: string): (parts: seq<string>)
    requires |sep| > 0
    ensures |parts| >= 1
    decreases |s|
  {
    var i := Find(s, sep);
    if i < 0 then [s] else [s[..i]] + Split(s[i + |sep|..], sep)
  }

  /** The first piece of a split ends at the first separator; there is a second
      piece exactly when the separator occurs. */
  lemma SplitHead(s: string, sep: string)
    requires |sep| > 0
    ensures Find(s, sep) < 0 ==> Split(s, sep) == [s]
    ensures Find(s, sep) >= 0 ==> |Split(s, sep)| >= 2 && Split(s, sep)[0] == s[..Find(s, sep)]
  {
  }

  lemma OccursInPrefix(s: string, pat: string, n: nat, j: int)
    requires n <= |s| && OccursAt(s[..n], pat, j)
    ensures OccursAt(s, pat, j)
  {
    assert s[..n][j..j + |pat|] == s[j..j + |pat|];
  }

  lemma OccursInSuffix(s: string, pat: string, n: nat, j: int)
    requires n <= |s| && OccursAt(s[n..], pat, j)
    ensures OccursAt(s, pat, n + j)
  {
    assert s[n..][j..j + |pat|] == s[n + j..n + j + |pat|];
  }

  lemma ContainsWhole(s: string)
    ensures Contains(s, s)
  {
    assert OccursAt(s, s, 0);
  }

  lemma ContainsLeftOf(a: string, b: string, pat: string)
    requires Contains(a, pat)
    ensures Contains(a + b, pat)
  {
    var j :| OccursAt(a, pat, j);
    assert (a + b)[j..j + |pat|] == a[j..j + |pat|];
    assert OccursAt(a + b, pat, j);
  }

  lemma ContainsRightOf(a: string, b: string, pat: string)
    requires Contains(b, pat)
    ensures Contains(a + b, pat)
  {
    var j :| OccursAt(b, pat, j);
    assert (a + b)[|a| + j..|a| + j + |pat|] == b[j..j + |pat|];
    assert OccursAt(a + b, pat, |a| + j);
  }

  lemma AppendAssoc(a: string, b: string, c: string)
    ensures a + (b + c) == (a + b) + c
  {
  }

  /** The concatenation of `parts`, in order. */
  function Concat(parts: seq<string>): string
  {
    if parts == [] then "" else Concat(parts[..|parts| - 1]) + parts[|parts| - 1]
  }

  /** Each part is a substring of the concatenation. */
  lemma {:induction false} ConcatContains(parts: seq<string>, i: nat)
    requires i < |parts|
    ensures Contains(Concat(parts), parts[i])
    decreases |parts|
  {
    var n := |parts| - 1;
    var init := parts[..n];
    if i == n {
      ContainsWhole(parts[n]);
      ContainsRightOf(Concat(init), parts[n], parts[n]);
    } else {
      ConcatContains(init, i);
      assert init[i] == parts[i];
      ContainsLeftOf(Concat(init), parts[n], parts[i]);
    }
  }

  /** A substring of the middle part is a substring of the whole. */
  lemma ContainsInfix(a: string, b: string, c: string, pat: string)
    requires Contains(b, pat)
    ensures Contains(a + b + c, pat)
  {
    var j :| OccursAt(b, pat, j);
    assert (a + b + c)[|a| + j..|a| + j + |pat|] == b[j..j + |pat|];
    assert OccursAt(a + b + c, pat, |a| + j);
  }

  /** No piece of a split contains the separator. */
  lemma {:induction false} SplitPiecesAreFree(s: string, sep: string)
    requires |sep| > 0
    ensures forall k :: 0 <= k < |Split(s, sep)| ==> !Contains(Split(s, sep)[k], sep)
    decreases |s|
  {
    var i := Find(s, sep);
    FindSpec(s, sep);
    if i >= 0 {
      var rest := s[i + |sep|..];
      SplitPiecesAreFree(rest, sep);
      if Contains(s[..i], sep) {
        var j :| OccursAt(s[..i], sep, j);
        OccursInPrefix(s, sep, i, j);
        assert false;
      }
      assert Split(s, sep) == [s[..i]] + Split(rest, sep);
    }
  }

  // ---------------------------------------------------------------- code fences

  predicate NoBackticks(s: string)
  {
    forall k :: 0 <= k < |s| ==> s[k] != '`'
  }

  lemma SpaceHasNoBackticks(ws: string)
    requires AllSpace(ws)
    ensures NoBackticks(ws)
  {
    forall k | 0 <= k < |ws|
      ensures ws[k] != '`'
    {
      var c := ws[k];
      assert IsSpace(c);
      assert c as int != 96;
    }
  }

  lemma NoBackticksAppend(a: string, b: string)
    requires NoBackticks(a) && NoBackticks(b)
    ensures NoBackticks(a + b)
  {
    forall k | 0 <= k < |a + b|
      ensures (a + b)[k] != '`'
    {
      if k >= |a| {
        assert (a + b)[k] == b[k - |a|];
      }
    }
  }

  lemma NoFenceIn(s: string, pat: string)
    requires NoBackticks(s) && |pat| > 0 && pat[0] == '`'
    ensures !Contains(s, pat)
  {
  }

  /** In `u + "```"` with no backtick in `u`, a pattern starting with a backtick
      can only occur inside the trailing fence. */
  lemma OnlyTrailingFence(u: string, pat: string, p: int)
    requires NoBackticks(u) && |pat| > 0 && pat[0] == '`'
    requires OccursAt(u + "```", pat, p)
    ensures p >= |u|
  {
  }

  /** The first fence in `u + "```"` is the trailing one. */
  lemma ClosingFence(u: string)
    requires NoBackticks(u)
    ensures |Split(u + "```", "```")| >= 2 && Split(u + "```", "```")[0] == u
  {
    var r := u + "```";
    SplitHead(r, "```");
    FindSpec(r, "```");
    assert OccursAt(r, "```", |u|);
    forall p | 0 <= p < |u|
      ensures !OccursAt(r, "```", p)
    {
      if OccursAt(r, "```", p) {
        OnlyTrailingFence(u, "```", p);
      }
    }
    assert Find(r, "```") == |u|;
    assert r[..|u|] == u;
  }

  // ---------------------------------------------------------------- strip

  function TrimStart(s: string): (r: string)
    ensures |r| <= |s| && r == s[|s| - |r|..]
    ensures AllSpace(s[..|s| - |r|])
    ensures r == [] || !IsSpace(r[0])
  {
    if s != [] && IsSpace(s[0]) then TrimStart(s[1..]) else s
  }

  function TrimEnd(s: string): (r: string)
    ensures |r| <= |s| && r == s[..|r|]
    ensures AllSpace(s[|r|..])
    ensures r == [] || !IsSpace(r[|r| - 1])
  {
    if s != [] && IsSpace(s[|s| - 1]) then TrimEnd(s[..|s| - 1]) else s
  }

  /** Python's `s.strip()`. */
  function Strip(s: string): string
  {
    TrimEnd(TrimStart(s))
  }

  lemma {:induction false} TrimStartPadded(ws: string, t: string)
    requires AllSpace(ws) && (t == [] || !IsSpace(t[0]))
    ensures TrimStart(ws + t) == t
    decreases |ws|
  {
    if ws != [] {
      assert (ws + t)[1..] == ws[1..] + t;
      TrimStartPadded(ws[1..], t);
    } else {
      assert ws + t == t;
    }
  }

  lemma {:induction false} TrimEndPadded(t: string, ws: string)
    requires AllSpace(ws) && (t == [] || !IsSpace(t[|t| - 1]))
    ensures TrimEnd(t + ws) == t
    decreases |ws|
  {
    if ws != [] {
      assert (t + ws)[..|t + ws| - 1] == t + ws[..|ws| - 1];
      TrimEndPadded(t, ws[..|ws| - 1]);
    } else {
      assert t + ws == t;
    }
  }

  /** Stripping removes exactly the surrounding whitespace and nothing else. */
  lemma StripPadded(ws1: string, t: string, ws2: string)
    requires AllSpace(ws1) && AllSpace(ws2)
    requires t != [] && !IsSpace(t[0]) && !IsSpace(t[|t| - 1])
    ensures Strip(ws1 + t + ws2) == t
  {
    assert ws1 + t + ws2 == ws1 + (t + ws2);
    TrimStartPadded(ws1, t + ws2);
    TrimEndPadded(t, ws2);
  }

  // ---------------------------------------------------------------- numbers

  /** Decimal digits of `n`, most significant first (Python's `str(n)`). */
  function NatToString(n: nat): (r: string)
    ensures AllDigits(r)
    ensures n >= 10 ==> r[0] != '0'
    ensures n < 10 ==> |r| == 1
    ensures 10 <= n < 100 ==> |r| == 2
    ensures 100 <= n < 1000 ==> |r| == 3
    ensures 1000 <= n < 10000 ==> |r| == 4
    decreases n
  {
    if n < 10 then [DigitChar(n)] else NatToString(n / 10) + [DigitChar(n % 10)]
  }

  /** Python's `str(i)` / `f"{i}"` for an integer. */
  function IntToString(i: int): string
  {
    if i < 0 then "-" + NatToString(-i) else NatToString(i)
  }

  /** Python's `f"{i:02d}"`: at least two characters, zero-filled after the sign. */
  function Pad2(i: int): (r: string)
    ensures 0 <= i < 100 ==> |r| == 2
  {
    if i < 0 then "-" + NatToString(-i)
    else if i < 10 then "0" + NatToString(i)
    else NatToString(i)
  }

  /** Python's `f"{i:04d}"` for a non-negative integer. */
  function Pad4(n: nat): (r: string)
    ensures n < 10000 ==> |r| == 4
  {
    if n < 10 then "000" + NatToString(n)
    else if n < 100 then "00" + NatToString(n)
    else if n < 1000 then "0" + NatToString(n)
    else NatToString(n)
  }

  /** The number a string of decimal digits denotes (leading zeros allowed). */
  function DigitsValue(s: string): nat
    requires forall k :: 0 <= k < |s| ==> IsDigit(s[k])
  {
    if s == [] then 0 else DigitsValue(s[..|s| - 1]) * 10 + DigitValue(s[|s| - 1])
  }

  lemma {:induction false} DigitsOfNat(n: nat)
    ensures DigitsValue(NatToString(n)) == n
    decreases n
  {
    if n >= 10 {
      DigitsOfNat(n / 10);
      var s := NatToString(n / 10) + [DigitChar(n % 10)];
      assert s[..|s| - 1] == NatToString(n / 10);
    }
  }

  lemma {:induction false} NatToStringLength(n: nat, w: nat)
    requires n < Power10(w) && w >= 1
    ensures |NatToString(n)| <= w
    decreases w
  {
    if n >= 10 {
      NatToStringLength(n / 10, w - 1);
    }
  }

  function Power10(w: nat): nat
  {
    if w == 0 then 1 else 10 * Power10(w - 1)
  }

  lemma DigitsZeroPrefix(z: string, s: string)
    requires forall k :: 0 <= k < |z| ==> z[k] == '0'
    requires forall k :: 0 <= k < |s| ==> IsDigit(s[k])
    ensures DigitsValue(z + s) == DigitsValue(s)
    decreases |s|
  {
    if s == [] {
      assert z + s == z;
      ZerosValue(z);
    } else {
      assert (z + s)[..|z + s| - 1] == z + s[..|s| - 1];
      DigitsZeroPrefix(z, s[..|s| - 1]);
    }
  }

  lemma ZerosValue(z: string)
    requires forall k :: 0 <= k < |z| ==> z[k] == '0'
    ensures DigitsValue(z) == 0
  {
    if z != [] {
      ZerosValue(z[..|z| - 1]);
    }
  }

  /** Python's `int(s)` on text: surrounding whitespace, an optional sign, then
      one or more ASCII digits; anything else raises ValueError (here: None). */
  function ParseInt(s: string): Option<int>
  {
    var t := Strip(s);
    if |t| > 0 && (t[0] == '+' || t[0] == '-') then
      if AllDigits(t[1..]) then
        var v: int := DigitsValue(t[1..]);
        Some(if t[0] == '-' then -v else v)
      else None
    else if AllDigits(t) then Some(DigitsValue(t))
    else None
  }

  /** Text that neither starts nor ends with whitespace is left alone by `strip()`. */
  lemma StripUnpadded(s: string)
    requires s != [] && !IsSpace(s[0]) && !IsSpace(s[|s| - 1])
    ensures Strip(s) == s
  {
    assert TrimStart(s) == s;
    assert TrimEnd(s) == s;
  }

  lemma ParseUnsigned(s: string)
    requires AllDigits(s)
    ensures ParseInt(s) == Some(DigitsValue(s))
  {
    assert !IsSpace(s[0]) && !IsSpace(s[|s| - 1]);
    StripUnpadded(s);
  }

  /** `int(f"{n:02d}") == n` for every non-negative `n`. */
  lemma Pad2RoundTrip(n: nat)
    ensures ParseInt(Pad2(n)) == Some(n)
  {
    DigitsOfNat(n);
    if n < 10 {
      DigitsZeroPrefix("0", NatToString(n));
    }
    ParseUnsigned(Pad2(n));
  }
}
