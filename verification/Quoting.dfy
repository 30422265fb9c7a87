/** Quoting of identifiers and literals in the four SQL dialects, and the scanners that read them back. */
module Quoting {
  import opened Wrappers

  datatype Dialect = Postgres | Sqlite | MySql | ClickHouse

  datatype Kind = Identifier | Literal

  /** `str::replace` of one character. */
  function Replace(s: string, c: char, sub: string): string {
    if s == "" then "" else (if s[0] == c then sub else [s[0]]) + Replace(s[1..], c, sub)
  }

  function QuoteIdent(d: Dialect, ident: string): string {
    match d
    case Postgres => "\"" + Replace(ident, '"', "\"\"") + "\""
    case Sqlite => "\"" + Replace(ident, '"', "\"\"") + "\""
    case MySql => "`" + Replace(ident, '`', "``") + "`"
    case ClickHouse => "`" + Replace(Replace(ident, '\\', "\\\\"), '`', "\\`") + "`"
  }

  function QuoteLiteral(d: Dialect, lit: string): string {
    match d
    case Postgres => "'" + Replace(lit, '\'', "''") + "'"
    case Sqlite => "'" + Replace(lit, '\'', "''") + "'"
    case MySql => "'" + Replace(Replace(lit, '\\', "\\\\"), '\'', "''") + "'"
    case ClickHouse => "'" + Replace(Replace(lit, '\\', "\\\\"), '\'', "\\'") + "'"
  }

  function Quote(d: Dialect, kind: Kind, s: string): string {
    if kind.Identifier? then QuoteIdent(d, s) else QuoteLiteral(d, s)
  }

  // ----- The engines' scanners

  function QuoteMark(d: Dialect, kind: Kind): char {
    if kind.Literal? then '\'' else if d.Postgres? || d.Sqlite? then '"' else '`'
  }

  /** Whether a backslash escapes the next character. */
  predicate Escapes(d: Dialect, kind: Kind) { d.ClickHouse? || (d.MySql? && kind.Literal?) }

  /** The character an escape stands for; MySQL keeps the backslash of `\%` and `\_`. */
  function Unescape(d: Dialect, c: char): string {
    match c
    case '0' => "\0"
    case 'b' => "\U{8}"
    case 'n' => "\n"
    case 'r' => "\r"
    case 't' => "\t"
    case 'Z' => if d.MySql? then "\U{1A}" else "Z"
    case '%' => if d.MySql? then "\\%" else "%"
    case '_' => if d.MySql? then "\\_" else "_"
    case _ => [c]
  }

  /** The content up to the closing mark and what follows it; a doubled mark stands for itself. */
  function ReadBody(d: Dialect, kind: Kind, s: string): (r: Option<(string, string)>)
    ensures r.Some? ==> |r.value.1| < |s|
  {
    var mark := QuoteMark(d, kind);
    if s == "" then None
    else if s[0] == mark then
      if |s| > 1 && s[1] == mark then Prefixed([mark], ReadBody(d, kind, s[2..]))
      else Some(("", s[1..]))
    else if s[0] == '\\' && Escapes(d, kind) then
      if |s| == 1 then None else Prefixed(Unescape(d, s[1]), ReadBody(d, kind, s[2..]))
    else Prefixed([s[0]], ReadBody(d, kind, s[1..]))
  }

  function Prefixed(head: string, r: Option<(string, string)>): Option<(string, string)> {
    match r
    case None => None
    case Some((body, rest)) => Some((head + body, rest))
  }

  function Read(d: Dialect, kind: Kind, s: string): (r: Option<(string, string)>)
    ensures r.Some? ==> |r.value.1| < |s|
  {
    if s == "" || s[0] != QuoteMark(d, kind) then None else ReadBody(d, kind, s[1..])
  }

  // ----- Successive replacements are one map over the characters

  function EscapeChar(d: Dialect, kind: Kind, c: char): string {
    if c == QuoteMark(d, kind) then (if d.ClickHouse? then ['\\', c] else [c, c])
    else if c == '\\' && Escapes(d, kind) then "\\\\"
    else [c]
  }

  function EscapeEach(d: Dialect, kind: Kind, s: string): string {
    if s == "" then "" else EscapeChar(d, kind, s[0]) + EscapeEach(d, kind, s[1..])
  }

  lemma {:induction false} ReplaceConcat(a: string, b: string, c: char, sub: string)
    ensures Replace(a + b, c, sub) == Replace(a, c, sub) + Replace(b, c, sub)
  {
    if a == "" {
      assert a + b == b;
    } else {
      assert (a + b)[1..] == a[1..] + b;
      ReplaceConcat(a[1..], b, c, sub);
    }
  }

  lemma ReplaceShort(c: char, sub: string, x: char, y: char)
    ensures Replace([x], c, sub) == if x == c then sub else [x]
    ensures x != c && y != c ==> Replace([x, y], c, sub) == [x, y]
    ensures x != c && y == c ==> Replace([x, y], c, sub) == [x] + sub
    ensures x == c && y == c ==> Replace([x, y], c, sub) == sub + sub
  {
    assert [x, y] == [x] + [y];
    ReplaceConcat([x], [y], c, sub);
  }

  /** The backslash replacement first, then the mark: each character is escaped on its own. */
  lemma {:induction false} QuoteEscapesEach(d: Dialect, kind: Kind, s: string)
    ensures Quote(d, kind, s) == [QuoteMark(d, kind)] + EscapeEach(d, kind, s) + [QuoteMark(d, kind)]
  {
    var mark := QuoteMark(d, kind);
    if Escapes(d, kind) {
      TwoReplacements(d, kind, s);
    } else {
      OneReplacement(d, kind, s);
    }
  }

  lemma {:induction false} OneReplacement(d: Dialect, kind: Kind, s: string)
    requires !Escapes(d, kind)
    ensures Replace(s, QuoteMark(d, kind), [QuoteMark(d, kind), QuoteMark(d, kind)]) == EscapeEach(d, kind, s)
  {
    if s != "" {
      OneReplacement(d, kind, s[1..]);
    }
  }

  lemma {:induction false} TwoReplacements(d: Dialect, kind: Kind, s: string)
    requires Escapes(d, kind)
    ensures var mark := QuoteMark(d, kind);
      Replace(Replace(s, '\\', "\\\\"), mark, EscapeChar(d, kind, mark)) == EscapeEach(d, kind, s)
  {
    var mark := QuoteMark(d, kind);
    if s != "" {
      var head := if s[0] == '\\' then "\\\\" else [s[0]];
      ReplaceConcat(head, Replace(s[1..], '\\', "\\\\"), mark, EscapeChar(d, kind, mark));
      ReplaceShort(mark, EscapeChar(d, kind, mark), head[0], '\\');
      TwoReplacements(d, kind, s[1..]);
    }
  }

  /** In MySQL literals the two replacements commute. */
  lemma {:induction false} MySqlOrderIsIrrelevant(s: string)
    ensures Replace(Replace(s, '\'', "''"), '\\', "\\\\") == Replace(Replace(s, '\\', "\\\\"), '\'', "''")
  {
    if s != "" {
      var quoted := if s[0] == '\'' then "''" else [s[0]];
      var slashed := if s[0] == '\\' then "\\\\" else [s[0]];
      ReplaceConcat(quoted, Replace(s[1..], '\'', "''"), '\\', "\\\\");
      ReplaceConcat(slashed, Replace(s[1..], '\\', "\\\\"), '\'', "''");
      ReplaceShort('\\', "\\\\", quoted[0], '\'');
      ReplaceShort('\'', "''", slashed[0], '\\');
      MySqlOrderIsIrrelevant(s[1..]);
    }
  }

  // ----- Reading inverts quoting

  /** One escaped character is read as that character, whatever follows. */
  lemma ReadsEscapedChar(d: Dialect, kind: Kind, c: char, rest: string)
    ensures ReadBody(d, kind, EscapeChar(d, kind, c) + rest) == Prefixed([c], ReadBody(d, kind, rest))
  {
    var head := EscapeChar(d, kind, c);
    var text := head + rest;
    assert text[0] == head[0] && text[|head|..] == rest;
    if |head| == 2 {
      assert text[1] == head[1];
    }
  }

  lemma EscapeEachStep(d: Dialect, kind: Kind, s: string, end: string)
    requires s != ""
    ensures EscapeEach(d, kind, s) + end == EscapeChar(d, kind, s[0]) + (EscapeEach(d, kind, s[1..]) + end)
  {
  }

  lemma {:induction false} ReadBodyInvertsEscape(d: Dialect, kind: Kind, s: string, tail: string)
    requires tail == "" || tail[0] != QuoteMark(d, kind)
    ensures ReadBody(d, kind, EscapeEach(d, kind, s) + ([QuoteMark(d, kind)] + tail)) == Some((s, tail))
  {
    var end := [QuoteMark(d, kind)] + tail;
    if s == "" {
      assert "" + end == end && end[1..] == tail;
    } else {
      EscapeEachStep(d, kind, s, end);
      ReadsEscapedChar(d, kind, s[0], EscapeEach(d, kind, s[1..]) + end);
      ReadBodyInvertsEscape(d, kind, s[1..], tail);
      assert [s[0]] + s[1..] == s;
    }
  }

  /** Reading never stops short: what is left after a quoted text and a tail is less than the tail. */
  lemma {:induction false} ReadGoesOn(d: Dialect, kind: Kind, s: string, tail: string)
    requires tail != "" && tail[0] == QuoteMark(d, kind)
    ensures var r := ReadBody(d, kind, EscapeEach(d, kind, s) + ([QuoteMark(d, kind)] + tail));
      r.Some? ==> |r.value.1| < |tail|
  {
    var end := [QuoteMark(d, kind)] + tail;
    if s == "" {
      assert "" + end == end && end[2..] == tail[1..];
    } else {
      EscapeEachStep(d, kind, s, end);
      ReadsEscapedChar(d, kind, s[0], EscapeEach(d, kind, s[1..]) + end);
      ReadGoesOn(d, kind, s[1..], tail);
    }
  }

  /** In every dialect a quoted text reads back as itself exactly when no further mark follows it. */
  lemma ReadInvertsQuote(d: Dialect, kind: Kind, s: string, tail: string)
    ensures Read(d, kind, Quote(d, kind, s) + tail) == Some((s, tail)) <==>
            tail == "" || tail[0] != QuoteMark(d, kind)
  {
    var mark := QuoteMark(d, kind);
    QuoteEscapesEach(d, kind, s);
    var all := Quote(d, kind, s) + tail;
    assert all[1..] == EscapeEach(d, kind, s) + ([mark] + tail);
    if tail == "" || tail[0] != mark {
      ReadBodyInvertsEscape(d, kind, s, tail);
    } else {
      ReadGoesOn(d, kind, s, tail);
    }
  }

  // ----- ClickHouse with the replacements in the other order

  function Swapped(s: string): string { "'" + Replace(Replace(s, '\'', "\\'"), '\\', "\\\\") + "'" }

  function SwapChar(c: char): string {
    if c == '\'' then "\\\\'" else if c == '\\' then "\\\\" else [c]
  }

  function SwapEach(s: string): string { if s == "" then "" else SwapChar(s[0]) + SwapEach(s[1..]) }

  lemma {:induction false} SwappedEach(s: string)
    ensures Replace(Replace(s, '\'', "\\'"), '\\', "\\\\") == SwapEach(s)
  {
    if s != "" {
      var quoted := if s[0] == '\'' then "\\'" else [s[0]];
      ReplaceConcat(quoted, Replace(s[1..], '\'', "\\'"), '\\', "\\\\");
      QuotedThenSlashed(s[0]);
      SwappedEach(s[1..]);
    }
  }

  lemma QuotedThenSlashed(c: char)
    ensures Replace(if c == '\'' then "\\'" else [c], '\\', "\\\\") == SwapChar(c)
  {
    if c == '\'' {
      ReplaceConcat("\\", "'", '\\', "\\\\");
      ReplaceShort('\\', "\\\\", '\\', '\'');
      ReplaceShort('\\', "\\\\", '\'', '\'');
      assert "\\" + "'" == "\\'" && "\\\\" + "'" == "\\\\'";
    } else {
      ReplaceShort('\\', "\\\\", c, c);
    }
  }

  lemma SwapStartsOffMark(s: string)
    ensures s != "" ==> SwapEach(s) != "" && SwapEach(s)[0] != '\''
  {
  }

  /** A mark behind two backslashes ends the literal there, or is paired with the closing one. */
  lemma SwappedMarkEnds(rest: string)
    ensures var r := ReadBody(ClickHouse, Literal, SwapChar('\'') + (SwapEach(rest) + "'"));
      r.Some? ==> r.value.1 != ""
  {
    var tail := SwapEach(rest) + "'";
    var s := SwapChar('\'') + tail;
    SwapStartsOffMark(rest);
    assert s[2..] == "'" + tail && s[0] == '\\' && s[1] == '\\';
    assert ("'" + tail)[1..] == tail;
    if rest == "" {
      assert tail == "'" && ("'" + tail)[2..] == "";
    } else {
      assert tail[0] != '\'';
    }
  }

  lemma SwapStep(s: string)
    requires s != ""
    ensures SwapEach(s) + "'" == SwapChar(s[0]) + (SwapEach(s[1..]) + "'")
  {
    hide SwapChar;
  }

  lemma {:induction false} SwappedReadsIff(s: string)
    ensures ReadBody(ClickHouse, Literal, SwapEach(s) + "'") == Some((s, "")) <==> '\'' !in s
  {
    if s == "" {
      assert SwapEach(s) + "'" == "'" && "'"[1..] == "";
    } else {
      SwapStep(s);
      hide SwapEach, ReadBody;
      if s[0] == '\'' {
        SwappedMarkEnds(s[1..]);
      } else {
        assert SwapChar(s[0]) == EscapeChar(ClickHouse, Literal, s[0]);
        ReadsEscapedChar(ClickHouse, Literal, s[0], SwapEach(s[1..]) + "'");
        SwappedReadsIff(s[1..]);
        assert s == [s[0]] + s[1..];
      }
    }
  }

  /** In ClickHouse literals the replacements do not commute: the other order works only where there is no mark. */
  lemma ClickHouseOrderMatters(s: string)
    ensures Read(ClickHouse, Literal, Swapped(s)) == Some((s, "")) <==> '\'' !in s
  {
    SwappedEach(s);
    var body := SwapEach(s) + "'";
    assert Swapped(s) == "'" + body && ("'" + body)[1..] == body;
    SwappedReadsIff(s);
  }
}
