/**
 * The few Python string operations the sweep and log scripts rely on:
 * `sep.join(parts)`, `s.split(sep)` with a one-character separator,
 * `s.replace(pat, "")` and `s.strip()`.
 */
module Text {

  /** `sep.join(parts)`: the parts with one separator between neighbours. */
  function Join(sep: char, parts: seq<string>): (r: string)
    ensures |parts| == 0 ==> r == ""
    ensures |parts| == 1 ==> r == parts[0]
    decreases |parts|
  {
    if |parts| == 0 then ""
    else if |parts| == 1 then parts[0]
    else parts[0] + [sep] + Join(sep, parts[1..])
  }

  /** The position of the first `c` in `s`, if any. */
  function IndexOf(s: string, c: char): (i: nat)
    ensures i <= |s|
    ensures i < |s| ==> s[i] == c
    ensures forall k :: 0 <= k < i ==> s[k] != c
    decreases |s|
  {
    if |s| == 0 then 0 else if s[0] == c then 0 else 1 + IndexOf(s[1..], c)
  }

  /** `s.split(sep)`: the pieces between the separators, one more than there are separators. */
  function Split(s: string, sep: char): (r: seq<string>)
    ensures |r| >= 1
    decreases |s|
  {
    var i := IndexOf(s, sep);
    if i == |s| then [s] else [s[..i]] + Split(s[i + 1..], sep)
  }

  /** Splitting a joined list gives the list back when no part holds the separator. */
  lemma {:induction false} SplitJoin(sep: char, parts: seq<string>)
    requires |parts| >= 1
    requires forall k :: 0 <= k < |parts| ==> sep !in parts[k]
    ensures Split(Join(sep, parts), sep) == parts
    decreases |parts|
  {
    var s := Join(sep, parts);
    var p := parts[0];
    if |parts| == 1 {
      assert IndexOf(s, sep) == |s|;
    } else {
      assert s == p + [sep] + Join(sep, parts[1..]);
      assert s[|p|] == sep;
      assert forall k :: 0 <= k < |p| ==> s[k] == p[k] && s[k] != sep;
      assert IndexOf(s, sep) == |p|;
      assert s[..|p|] == p && s[|p| + 1..] == Join(sep, parts[1..]);
      SplitJoin(sep, parts[1..]);
    }
  }

  /** The number of pieces split off is one more than the number of separators. */
  function Occurrences(s: string, c: char): nat
    decreases |s|
  {
    if |s| == 0 then 0 else (if s[0] == c then 1 else 0) + Occurrences(s[1..], c)
  }

  lemma {:induction false} SplitCount(s: string, sep: char)
    ensures |Split(s, sep)| == Occurrences(s, sep) + 1
    decreases |s|
  {
    var i := IndexOf(s, sep);
    OccurrencesBefore(s, sep, i);
    if i < |s| {
      SplitCount(s[i + 1..], sep);
    }
  }

  /** No occurrence before i, so the count starts at i. */
  lemma {:induction false} OccurrencesBefore(s: string, c: char, i: nat)
    requires i <= |s| && forall k :: 0 <= k < i ==> s[k] != c
    ensures Occurrences(s, c) == (if i < |s| && s[i] == c then 1 + Occurrences(s[i + 1..], c) else Occurrences(s[i..], c))
    decreases i
  {
    if i > 0 {
      OccurrencesBefore(s[1..], c, i - 1);
      assert s[1..][i - 1..] == s[i..];
      if i < |s| {
        assert s[1..][i..] == s[i + 1..];
      }
    } else if i < |s| && s[0] == c {
      assert s[0 + 1..] == s[1..];
    } else {
      assert s[0..] == s;
    }
  }

  /** `s.replace(pat, "")`: every occurrence of `pat`, found left to right without overlap, deleted. */
  function RemoveAll(s: string, pat: string): (r: string)
    requires |pat| > 0
    ensures |r| <= |s|
    decreases |s|
  {
    if |s| < |pat| then s
    else if s[..|pat|] == pat then RemoveAll(s[|pat|..], pat)
    else [s[0]] + RemoveAll(s[1..], pat)
  }

  /** A text that lacks the pattern's last character holds no occurrence, and is kept. */
  lemma {:induction false} RemoveAllAbsent(s: string, pat: string)
    requires |pat| > 0 && pat[|pat| - 1] !in s
    ensures RemoveAll(s, pat) == s
    decreases |s|
  {
    if |s| >= |pat| {
      assert s[..|pat|][|pat| - 1] == s[|pat| - 1];
      assert s[..|pat|] != pat;
      RemoveAllAbsent(s[1..], pat);
      assert [s[0]] + s[1..] == s;
    }
  }

  /** A leading pattern is removed and the rest kept, when the rest lacks the pattern's last character. */
  lemma RemoveLeading(pat: string, t: string)
    requires |pat| > 0 && pat[|pat| - 1] !in t
    ensures RemoveAll(pat + t, pat) == t
  {
    var s := pat + t;
    assert s[..|pat|] == pat && s[|pat|..] == t;
    RemoveAllAbsent(t, pat);
  }

  /**
   * The characters Python's `str.strip()` removes, those for which
   * `str.isspace()` holds: tab to carriage return, the four information
   * separators, space, next line, no-break space, and the Unicode spaces
   * and line and paragraph separators.
   */
  predicate IsWhitespace(c: char)
  {
    || '\t' <= c <= '\r'
    || '\U{1C}' <= c <= '\U{1F}'
    || c == ' ' || c == '\U{85}' || c == '\U{A0}' || c == '\U{1680}'
    || '\U{2000}' <= c <= '\U{200A}'
    || c == '\U{2028}' || c == '\U{2029}' || c == '\U{202F}' || c == '\U{205F}' || c == '\U{3000}'
  }

  /** `s.strip()`: leading and trailing whitespace removed. */
  function Strip(s: string): (r: string)
    ensures |r| <= |s|
    ensures |r| > 0 ==> !IsWhitespace(r[0]) && !IsWhitespace(r[|r| - 1])
    ensures r == "" <==> forall k :: 0 <= k < |s| ==> IsWhitespace(s[k])
    decreases |s|
  {
    if |s| == 0 then s
    else if IsWhitespace(s[0]) then Strip(s[1..])
    else if IsWhitespace(s[|s| - 1]) then Strip(s[..|s| - 1])
    else s
  }

  /** Stripping a text that already has no whitespace at either end, with a newline added, gives the text. */
  lemma StripNewline(t: string)
    requires |t| > 0 && !IsWhitespace(t[0]) && !IsWhitespace(t[|t| - 1])
    ensures Strip(t + "\n") == t
  {
    var s := t + "\n";
    assert s[..|s| - 1] == t;
  }
}
