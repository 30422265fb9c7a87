/** Trimming white space and stripping what stands at the ends of a text. */
module Text {
  import opened Wrappers

  /** `char::is_whitespace`. */
  predicate IsWhitespace(c: char) {
    || '\t' <= c <= '\r' || c == ' ' || c == '\U{85}' || c == '\U{A0}' || c == '\U{1680}'
    || '\U{2000}' <= c <= '\U{200A}' || c in {'\U{2028}', '\U{2029}', '\U{202F}', '\U{205F}', '\U{3000}'}
  }

  function TrimStart(s: string): string {
    if s != "" && IsWhitespace(s[0]) then TrimStart(s[1..]) else s
  }

  function TrimEnd(s: string): string {
    if s != "" && IsWhitespace(s[|s| - 1]) then TrimEnd(s[..|s| - 1]) else s
  }

  function Trim(s: string): string { TrimEnd(TrimStart(s)) }

  function StripPrefix(s: string, prefix: string): (r: Option<string>)
    ensures r.Some? ==> s == prefix + r.value
  {
    if prefix <= s then Some(s[|prefix|..]) else None
  }

  function StripSuffix(s: string, suffix: char): (r: Option<string>)
    ensures r.Some? ==> s == r.value + [suffix]
  {
    if s != "" && s[|s| - 1] == suffix then Some(s[..|s| - 1]) else None
  }

  lemma {:induction false} TrimStartShortens(s: string)
    ensures |TrimStart(s)| <= |s|
  {
    if s != "" && IsWhitespace(s[0]) {
      TrimStartShortens(s[1..]);
    }
  }

  lemma {:induction false} TrimEndShortens(s: string)
    ensures |TrimEnd(s)| <= |s|
  {
    if s != "" && IsWhitespace(s[|s| - 1]) {
      TrimEndShortens(s[..|s| - 1]);
    }
  }

  lemma TrimShortens(s: string)
    ensures |Trim(s)| <= |s|
  {
    TrimStartShortens(s);
    TrimEndShortens(TrimStart(s));
  }

  /** ASCII letters in lower case. */
  function LowerChar(c: char): char { if 'A' <= c <= 'Z' then (c as int + 32) as char else c }

  function Lower(s: string): (r: string)
    ensures |r| == |s|
  {
    if s == "" then "" else [LowerChar(s[0])] + Lower(s[1..])
  }

  /** A text with something other than white space at both ends. */
  predicate IsTight(s: string) { s != "" && !IsWhitespace(s[0]) && !IsWhitespace(s[|s| - 1]) }

  lemma TightIsTrimmed(s: string)
    requires IsTight(s)
    ensures Trim(s) == s && Trim(" " + s) == s
  {
    assert (" " + s)[1..] == s;
    assert TrimStart(" " + s) == TrimStart(s) == s;
  }

  predicate IsPadding(s: string) { forall c | c in s :: IsWhitespace(c) }

  predicate IsTrimmed(s: string) { s == "" || IsTight(s) }

  lemma {:induction false} TrimStartSkips(padding: string, s: string)
    requires IsPadding(padding) && (s != "" ==> !IsWhitespace(s[0]))
    ensures TrimStart(padding + s) == s
  {
    if padding == "" {
      assert padding + s == s;
    } else {
      assert padding[0] in padding && (padding + s)[1..] == padding[1..] + s;
      TrimStartSkips(padding[1..], s);
    }
  }

  lemma {:induction false} TrimEndSkips(s: string, padding: string)
    requires IsPadding(padding) && (s != "" ==> !IsWhitespace(s[|s| - 1]))
    ensures TrimEnd(s + padding) == s
  {
    if padding == "" {
      assert s + padding == s;
    } else {
      var all, last := s + padding, |padding| - 1;
      assert padding[last] in padding && all[..|all| - 1] == s + padding[..last];
      TrimEndSkips(s, padding[..last]);
    }
  }

  /** Padding on either side is all that trimming removes. */
  lemma TrimUnpads(before: string, s: string, after: string)
    requires IsPadding(before) && IsPadding(after) && IsTrimmed(s)
    ensures Trim(before + s + after) == s
  {
    if s == "" {
      assert before + s + after == (before + after) + "";
      TrimStartSkips(before + after, "");
    } else {
      assert before + s + after == before + (s + after);
      TrimStartSkips(before, s + after);
      TrimEndSkips(s, after);
    }
  }

  lemma {:induction false} TrimStartStarts(s: string)
    ensures TrimStart(s) != "" ==> !IsWhitespace(TrimStart(s)[0])
  {
    if s != "" && IsWhitespace(s[0]) {
      TrimStartStarts(s[1..]);
    }
  }

  lemma {:induction false} TrimEndEnds(s: string)
    ensures TrimEnd(s) <= s
    ensures TrimEnd(s) != "" ==> !IsWhitespace(TrimEnd(s)[|TrimEnd(s)| - 1])
  {
    if s != "" && IsWhitespace(s[|s| - 1]) {
      TrimEndEnds(s[..|s| - 1]);
    }
  }

  lemma TrimTrims(s: string)
    ensures IsTrimmed(Trim(s))
  {
    TrimStartStarts(s);
    TrimEndEnds(TrimStart(s));
  }
}
