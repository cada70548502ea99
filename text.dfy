/** The string operations the listener relies on: ASCII case folding
    (String.prototype.toLowerCase on addresses), trimming
    (String.prototype.trim) and splitting into lines. */
module Text {

  predicate IsAsciiUpper(c: char) { 'A' <= c <= 'Z' }
  predicate IsAsciiLower(c: char) { 'a' <= c <= 'z' }

  function LowerChar(c: char): char
  {
    if IsAsciiUpper(c) then (c as int + 32) as char else c
  }

  function UpperChar(c: char): char
  {
    if IsAsciiLower(c) then (c as int - 32) as char else c
  }

  /** Lower-cases the ASCII letters of s and keeps every other character. */
  function ToLower(s: string): string
  {
    seq(|s|, i requires 0 <= i < |s| => LowerChar(s[i]))
  }

  /** s is t with some of its letters written in the other case. */
  predicate IsCasingOf(s: string, t: string)
  {
    |s| == |t| && forall i :: 0 <= i < |s| ==> s[i] == LowerChar(t[i]) || s[i] == UpperChar(t[i])
  }

  /** Two strings lower-case to the same string exactly when one is a
      re-casing of the other. */
  lemma {:induction false} SameLowerIffCasing(s: string, t: string)
    ensures ToLower(s) == ToLower(t) <==> IsCasingOf(s, t)
  {
    if ToLower(s) == ToLower(t) {
      forall i | 0 <= i < |s|
        ensures s[i] == LowerChar(t[i]) || s[i] == UpperChar(t[i])
      {
        assert ToLower(s)[i] == LowerChar(s[i]) && ToLower(t)[i] == LowerChar(t[i]);
      }
    }
    if IsCasingOf(s, t) {
      forall i | 0 <= i < |s|
        ensures ToLower(s)[i] == ToLower(t)[i]
      {
      }
    }
  }

  /** The characters ECMAScript's trim removes: WhiteSpace (tab, vertical
      tab, form feed, no-break space, byte order mark and the Unicode
      space separators) and LineTerminator. */
  predicate IsWhitespace(c: char)
  {
    || c == '\U{0009}' || c == '\U{000B}' || c == '\U{000C}' || c == '\U{0020}'
    || c == '\U{00A0}' || c == '\U{FEFF}' || c == '\U{1680}'
    || ('\U{2000}' <= c <= '\U{200A}') || c == '\U{202F}' || c == '\U{205F}' || c == '\U{3000}'
    || c == '\U{000A}' || c == '\U{000D}' || c == '\U{2028}' || c == '\U{2029}'
  }

  predicate AllWhitespace(s: string)
  {
    forall i :: 0 <= i < |s| ==> IsWhitespace(s[i])
  }

  function TrimStart(s: string): string
  {
    if |s| > 0 && IsWhitespace(s[0]) then TrimStart(s[1..]) else s
  }

  function TrimEnd(s: string): string
  {
    if |s| > 0 && IsWhitespace(s[|s| - 1]) then TrimEnd(s[..|s| - 1]) else s
  }

  function Trim(s: string): string
  {
    TrimEnd(TrimStart(s))
  }

  lemma {:induction false} TrimStartSkips(lead: string, s: string)
    requires AllWhitespace(lead)
    requires |s| > 0 && !IsWhitespace(s[0])
    ensures TrimStart(lead + s) == s
  {
    if |lead| > 0 {
      assert (lead + s)[1..] == lead[1..] + s;
      TrimStartSkips(lead[1..], s);
    } else {
      assert lead + s == s;
    }
  }

  lemma {:induction false} TrimEndSkips(s: string, trail: string)
    requires AllWhitespace(trail)
    requires |s| > 0 && !IsWhitespace(s[|s| - 1])
    ensures TrimEnd(s + trail) == s
  {
    if |trail| > 0 {
      assert (s + trail)[..|s + trail| - 1] == s + trail[..|trail| - 1];
      TrimEndSkips(s, trail[..|trail| - 1]);
    } else {
      assert s + trail == s;
    }
  }

  /** Trimming a text wrapped in whitespace gives back the text, provided it
      neither starts nor ends with whitespace itself. */
  lemma TrimPadded(lead: string, body: string, trail: string)
    requires AllWhitespace(lead) && AllWhitespace(trail)
    requires |body| > 0 && !IsWhitespace(body[0]) && !IsWhitespace(body[|body| - 1])
    ensures Trim(lead + body + trail) == body
  {
    assert lead + body + trail == lead + (body + trail);
    TrimStartSkips(lead, body + trail);
    TrimEndSkips(body, trail);
  }

  /** String.prototype.split with a one-character separator: the pieces
      between separators, in order; always at least one piece. */
  function Split(s: string, sep: char): (parts: seq<string>)
    ensures |parts| >= 1
  {
    if |s| == 0 then [""]
    else if s[0] == sep then [""] + Split(s[1..], sep)
    else
      var rest := Split(s[1..], sep);
      [[s[0]] + rest[0]] + rest[1..]
  }

  /** The pieces put back together with the separator between each two. */
  function Join(parts: seq<string>, sep: char): string
    requires |parts| >= 1
  {
    if |parts| == 1 then parts[0] else parts[0] + [sep] + Join(parts[1..], sep)
  }

  lemma {:induction false} SplitPrefix(a: string, t: string, sep: char)
    requires sep !in a
    ensures Split(a + t, sep) == [a + Split(t, sep)[0]] + Split(t, sep)[1..]
  {
    if |a| == 0 {
      assert a + t == t;
      assert a + Split(t, sep)[0] == Split(t, sep)[0];
    } else {
      assert (a + t)[0] == a[0];
      assert (a + t)[1..] == a[1..] + t;
      SplitPrefix(a[1..], t, sep);
      assert [a[0]] + (a[1..] + Split(t, sep)[0]) == a + Split(t, sep)[0];
    }
  }

  /** Splitting undoes joining when no piece contains the separator. */
  lemma {:induction false} SplitJoin(parts: seq<string>, sep: char)
    requires |parts| >= 1
    requires forall i :: 0 <= i < |parts| ==> sep !in parts[i]
    ensures Split(Join(parts, sep), sep) == parts
  {
    if |parts| == 1 {
      SplitPrefix(parts[0], "", sep);
      assert parts[0] + "" == parts[0];
    } else {
      var tail := Join(parts[1..], sep);
      SplitJoin(parts[1..], sep);
      assert parts[0] + [sep] + tail == parts[0] + ([sep] + tail);
      SplitPrefix(parts[0], [sep] + tail, sep);
      assert ([sep] + tail)[1..] == tail;
      assert parts[0] + "" == parts[0];
    }
  }
}
