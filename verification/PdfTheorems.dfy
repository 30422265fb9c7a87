/** What a reader of the receipt finds in it. */
module PdfTheorems {
  import opened Wrappers
  import opened Pdf

  // ----- Numbers read back

  lemma {:induction false} DecReads(n: nat)
    ensures DigitsValue(Dec(n)) == n
  {
    var last := ['0' + (n % 10) as char];
    if n < 10 {
      assert last[..0] == "";
    } else {
      DecReads(n / 10);
      assert (Dec(n / 10) + last)[..|Dec(n / 10)|] == Dec(n / 10);
    }
  }

  lemma {:induction false} ZerosAreNothing(n: nat)
    ensures DigitsValue(Zeros(n)) == 0
  {
    if n > 0 {
      assert Zeros(n)[..n - 1] == Zeros(n - 1);
      ZerosAreNothing(n - 1);
    }
  }

  lemma {:induction false} ZerosRead(n: nat, digits: string)
    requires AllDigits(digits)
    ensures DigitsValue(Zeros(n) + digits) == DigitsValue(digits)
    decreases |digits|
  {
    hide Zeros;
    if digits == "" {
      ZerosAreNothing(n);
      assert Zeros(n) + "" == Zeros(n);
    } else {
      var init := digits[..|digits| - 1];
      assert (Zeros(n) + digits)[..n + |digits| - 1] == Zeros(n) + init;
      ZerosRead(n, init);
    }
  }

  function Power(n: nat): (r: nat)
    ensures r > 0
  {
    if n == 0 then 1 else 10 * Power(n - 1)
  }

  lemma {:induction false} DigitsBound(s: string)
    requires AllDigits(s)
    ensures DigitsValue(s) < Power(|s|)
  {
    if s != "" {
      DigitsBound(s[..|s| - 1]);
    }
  }

  lemma {:induction false} DecLength(n: nat, width: nat)
    requires width > 0
    ensures |Dec(n)| <= width <==> n < Power(width)
  {
    if n < 10 {
      assert Power(width) == 10 * Power(width - 1) >= 10;
    } else if width == 1 {
      assert Power(1) == 10 * Power(0) == 10;
    } else {
      DecLength(n / 10, width - 1);
      assert Power(width) == 10 * Power(width - 1);
    }
  }

  const LIMIT: nat := 10_000_000_000

  lemma TenDigits()
    ensures Power(10) == LIMIT
  {
    assert Power(2) == 100;
    assert Power(4) == 10_000;
    assert Power(6) == 1_000_000;
    assert Power(8) == 100_000_000;
  }

  /** Ten digits hold the number exactly when it is below 10^10. */
  lemma PaddedReads(n: nat)
    ensures AllDigits(Padded(n)) && DigitsValue(Padded(n)) == n
    ensures |Padded(n)| >= 10 && (|Padded(n)| == 10 <==> n < LIMIT)
  {
    DecReads(n);
    DecLength(n, 10);
    TenDigits();
    if |Dec(n)| < 10 {
      ZerosRead(10 - |Dec(n)|, Dec(n));
    }
  }

  lemma {:induction false} CountsDigits(digits: string, rest: string)
    requires AllDigits(digits) && (rest != "" ==> !IsDigit(rest[0]))
    ensures DigitsCount(digits + rest) == |digits|
  {
    if digits == "" {
      assert digits + rest == rest;
    } else {
      assert (digits + rest)[1..] == digits[1..] + rest;
      CountsDigits(digits[1..], rest);
    }
  }

  lemma NumberReads(n: nat, rest: string)
    requires rest != "" ==> !IsDigit(rest[0])
    ensures ReadNumber(Dec(n) + rest) == Some((n, rest))
  {
    CountsDigits(Dec(n), rest);
    DecReads(n);
    var s := Dec(n) + rest;
    assert s[..|Dec(n)|] == Dec(n) && s[|Dec(n)|..] == rest;
  }

  lemma {:induction false} CountsFinalDigits(before: string, digits: string)
    requires AllDigits(digits) && (before != "" ==> !IsDigit(before[|before| - 1]))
    ensures FinalDigitsCount(before + digits) == |digits|
  {
    if digits == "" {
      assert before + digits == before;
    } else {
      var s := before + digits;
      assert s[..|s| - 1] == before + digits[..|digits| - 1];
      CountsFinalDigits(before, digits[..|digits| - 1]);
    }
  }

  lemma ExpectFinds(prefix: string, rest: string)
    ensures Expect(prefix + rest, prefix) == Some(rest)
  {
    assert (prefix + rest)[|prefix|..] == rest;
  }

  // ----- The cross-reference table

  lemma StartIsFound(front: string, at: nat)
    ensures StartXref(front + START + Dec(at) + ENDING) == Some(at)
  {
    var file := front + START + Dec(at) + ENDING;
    var before := front + START;
    var body := before + Dec(at);
    assert file[|body|..] == ENDING && file[..|body|] == body;
    CountsFinalDigits(before, Dec(at));
    assert body[..|before|] == before && body[|before|..] == Dec(at);
    assert before[|front|..] == START;
    DecReads(at);
  }

  lemma TableHeadReads(count: nat, entries: string)
    ensures ReadTableHead(TableHead(count) + entries) == Some((count, entries))
  {
    var rest := "\n" + entries;
    assert TableHead(count) + entries == "xref\n0 " + (Dec(count) + rest);
    ExpectFinds("xref\n0 ", Dec(count) + rest);
    NumberReads(count, rest);
    ExpectFinds("\n", entries);
  }

  lemma EntryReads(offset: nat)
    ensures |Entry(offset)| >= 20 && (|Entry(offset)| == 20 <==> offset < LIMIT)
    ensures offset < LIMIT ==> ReadEntry(Entry(offset)) == Some(offset)
  {
    PaddedReads(offset);
    var mark := " 00000 n \n";
    assert |mark| == 10;
    if offset < LIMIT {
      assert Entry(offset)[..10] == Padded(offset) && Entry(offset)[10..] == mark;
    }
  }

  lemma ReadEntryBound(e: string)
    ensures ReadEntry(e).Some? ==> ReadEntry(e).value < LIMIT
  {
    if ReadEntry(e).Some? {
      DigitsBound(e[..10]);
      TenDigits();
    }
  }

  lemma {:induction false} OffsetsGrow(objects: seq<string>, i: nat, j: nat)
    requires i <= j <= |objects|
    ensures Offset(objects, i) <= Offset(objects, j)
    ensures i < j ==> Offset(objects, i) < Offset(objects, j)
    decreases j - i
  {
    if i < j {
      OffsetsGrow(objects, i, j - 1);
      assert objects[..j][..j - 1] == objects[..j - 1];
    }
  }

  /** Entry `i` of the text of entries, when all before it and it itself are twenty bytes. */
  lemma {:induction false} EntriesRead(objects: seq<string>, count: nat, i: nat)
    requires i < count <= |objects| && Offset(objects, count - 1) < LIMIT
    ensures |Entries(objects, count)| == 20 * count
    ensures Entries(objects, count)[20 * i..20 * i + 20] == Entry(Offset(objects, i))
  {
    hide Entry, Offset;
    EntryReads(Offset(objects, count - 1));
    if count > 1 {
      OffsetsGrow(objects, count - 2, count - 1);
      EntriesRead(objects, count - 1, if i < count - 1 then i else 0);
    }
    var init, last := Entries(objects, count - 1), Entry(Offset(objects, count - 1));
    assert |init| == 20 * (count - 1);
    if i < count - 1 {
      assert (init + last)[20 * i..20 * i + 20] == init[20 * i..20 * i + 20];
    } else {
      assert (init + last)[20 * i..20 * i + 20] == last;
    }
  }

  /** What the file holds from the table on. */
  lemma FileHasTable(objects: seq<string>)
    ensures var count := |objects| + 1;
      var entries := FREE_ENTRY + (Entries(objects, |objects|) + Trailer(count, |Written(objects)|));
      File(objects) == Written(objects) + (TableHead(count) + entries)
  {
    var written, count := Written(objects), |objects| + 1;
    FileUnfolds(objects);
    Regroup(written, TableHead(count), FREE_ENTRY, Entries(objects, |objects|), Trailer(count, |written|));
  }

  lemma FileEnds(objects: seq<string>) returns (front: string)
    ensures File(objects) == front + START + Dec(|Written(objects)|) + ENDING
  {
    var written, count := Written(objects), |objects| + 1;
    var opening := "trailer\n<< /Size " + Dec(count) + " /Root 1 0 R >>\n";
    var body := written + TableHead(count) + FREE_ENTRY + Entries(objects, |objects|);
    front := body + opening;
    TrailerParts(count, |written|);
    FileUnfolds(objects);
    RegroupEnd(body, opening, START, Dec(|written|), ENDING);
    hide File, Written, TableHead, Entries, Trailer, Dec;
  }

  lemma FileUnfolds(objects: seq<string>)
    ensures File(objects) == Written(objects) + TableHead(|objects| + 1) + FREE_ENTRY + Entries(objects, |objects|)
      + Trailer(|objects| + 1, |Written(objects)|)
  {
    hide Written, TableHead, Entries, Trailer;
  }

  lemma Regroup(a: string, b: string, c: string, d: string, e: string)
    ensures a + b + c + d + e == a + (b + (c + (d + e)))
  {
  }

  lemma RegroupEnd(a: string, b: string, c: string, d: string, e: string)
    ensures a + (b + (c + d + e)) == a + b + c + d + e
  {
  }

  lemma TrailerParts(count: nat, xref: nat)
    ensures Trailer(count, xref)
         == "trailer\n<< /Size " + Dec(count) + " /Root 1 0 R >>\n" + (START + Dec(xref) + ENDING)
  {
    assert " /Root 1 0 R >>\nstartxref\n" == " /Root 1 0 R >>\n" + START;
  }

  lemma LookupFinds(objects: seq<string>, i: nat)
    requires i < |objects| && Offset(objects, |objects| - 1) < LIMIT
    ensures Lookup(File(objects), i + 1) == Some(Offset(objects, i))
  {
    var written, count := Written(objects), |objects| + 1;
    var rows := Entries(objects, |objects|);
    var entries := FREE_ENTRY + (rows + Trailer(count, |written|));
    FileHasTable(objects);
    var front := FileEnds(objects);
    StartIsFound(front, |written|);
    TableHeadReads(count, entries);
    EntriesRead(objects, |objects|, i);
    EntryReads(Offset(objects, i));
    OffsetsGrow(objects, i, |objects| - 1);
    assert File(objects)[|written|..] == TableHead(count) + entries;
    RowOf(FREE_ENTRY, rows, Trailer(count, |written|), i);
    hide File, Written, Entries, Trailer, StartXref, ReadTableHead, TableHead, Dec, Entry, ReadEntry, Offset;
  }

  lemma RowOf(free: string, rows: string, after: string, i: nat)
    requires |free| == 20 && |rows| >= 20 * i + 20
    ensures (free + (rows + after))[20 * (i + 1)..20 * (i + 1) + 20] == rows[20 * i..20 * i + 20]
  {
  }

  lemma LookupBound(file: string, number: nat)
    ensures Lookup(file, number).Some? ==> Lookup(file, number).value < LIMIT
  {
    if Lookup(file, number).Some? {
      var entries := ReadTableHead(file[StartXref(file).value..]).value.1;
      ReadEntryBound(entries[20 * number..20 * number + 20]);
    }
  }

  /** The table gives each object's own offset exactly when the last object starts below 10^10. */
  lemma TableIsExactIff(objects: seq<string>)
    requires objects != []
    ensures (forall i: nat | i < |objects| :: Lookup(File(objects), i + 1) == Some(Offset(objects, i)))
      <==> Offset(objects, |objects| - 1) < LIMIT
  {
    hide File, Lookup, Offset;
    if Offset(objects, |objects| - 1) < LIMIT {
      forall i: nat | i < |objects|
        ensures Lookup(File(objects), i + 1) == Some(Offset(objects, i))
      {
        LookupFinds(objects, i);
      }
    } else {
      LookupBound(File(objects), |objects|);
      var last: nat := |objects| - 1;
      assert Lookup(File(objects), last + 1) != Some(Offset(objects, last));
    }
  }

  // ----- Objects

  lemma {:induction false} WrittenFrom(objects: seq<string>, i: nat) returns (after: string)
    requires i < |objects|
    ensures Written(objects) == Written(objects[..i]) + (Indirect(i + 1, objects[i]) + after)
  {
    var init := objects[..|objects| - 1];
    var last := Indirect(|objects|, objects[|objects| - 1]);
    hide Indirect;
    if i == |objects| - 1 {
      after := "";
      assert last + "" == last;
    } else {
      var between := WrittenFrom(init, i);
      after := between + last;
      assert init[..i] == objects[..i];
      assert Written(init[..i]) + (Indirect(i + 1, objects[i]) + between) + last
          == Written(init[..i]) + (Indirect(i + 1, objects[i]) + (between + last));
    }
  }

  lemma {:induction false} BeforeFinds(body: string, mark: string, after: string)
    requires mark != "" && mark[0] !in body
    ensures Before(body + mark + after, mark) == Some(body)
  {
    var s := body + mark + after;
    if body == "" {
      assert s == mark + after;
    } else {
      assert s[0] == body[0] && body[0] in body;
      assert s[1..] == body[1..] + mark + after;
      BeforeFinds(body[1..], mark, after);
      assert [s[0]] + body[1..] == body;
    }
  }

  lemma IndirectReads(number: nat, body: string, after: string)
    ensures ReadIndirect(Indirect(number, body) + after, number) == ReadBody(body + END_OBJECT + after)
  {
    var text := body + END_OBJECT + after;
    var rest := " 0 obj\n" + text;
    assert Indirect(number, body) + after == Dec(number) + rest;
    NumberReads(number, rest);
    ExpectFinds(" 0 obj\n", text);
  }

  lemma StreamSteps(s: string, measured: string, length: nat, rest: string, bytes: string)
    requires Expect(s, "<< /Length ") == Some(measured) && ReadNumber(measured) == Some((length, rest))
    requires Expect(rest, " >>\nstream\n") == Some(bytes)
    requires length <= |bytes| && Expect(bytes[length..], "endstream" + END_OBJECT).Some?
    ensures ReadStream(s) == Some(Stream(bytes[..length]))
  {
    hide Expect, ReadNumber;
  }

  lemma StreamReads(content: string, after: string)
    ensures ReadBody(StreamBody(content) + END_OBJECT + after) == Some(Stream(content))
  {
    var mark := "endstream" + END_OBJECT;
    var close := mark + after;
    var bytes := content + close;
    var rest := " >>\nstream\n" + bytes;
    StreamText(content, after);
    ExpectFinds("<< /Length ", Dec(|content|) + rest);
    NumberReads(|content|, rest);
    ExpectFinds(" >>\nstream\n", bytes);
    ExpectFinds(mark, after);
    hide StreamBody, Dec, ReadNumber, Expect, ReadStream;
    assert bytes[|content|..] == close && bytes[..|content|] == content;
    StreamSteps("<< /Length " + (Dec(|content|) + rest), Dec(|content|) + rest, |content|, rest, bytes);
  }

  lemma StreamText(content: string, after: string)
    ensures StreamBody(content) + END_OBJECT + after
         == "<< /Length " + (Dec(|content|) + (" >>\nstream\n" + (content + ("endstream" + END_OBJECT + after))))
  {
    StreamBodyUnfolds(content);
    RegroupStream("<< /Length ", Dec(|content|), " >>\nstream\n", content, "endstream", END_OBJECT, after);
    hide Dec, StreamBody;
  }

  lemma StreamBodyUnfolds(content: string)
    ensures StreamBody(content) == "<< /Length " + Dec(|content|) + " >>\nstream\n" + content + "endstream"
  {
  }

  lemma RegroupStream(a: string, b: string, c: string, d: string, e: string, f: string, g: string)
    ensures a + b + c + d + e + f + g == a + (b + (c + (d + (e + f + g))))
  {
  }

  /** A dictionary on one line that is not a stream's. */
  predicate IsOneLine(body: string) { |body| > 4 && body[4] != 'L' && '\n' !in body }

  lemma PlainReads(body: string, after: string)
    requires IsOneLine(body)
    ensures ReadBody(body + END_OBJECT + after) == Some(Plain(body))
  {
    var s := body + END_OBJECT + after;
    assert s[4] == body[4] && "<< /Length "[4] == 'L';
    BeforeFinds(body, END_OBJECT, after);
    hide Before;
  }

  lemma CatalogIsOneLine()
    ensures IsOneLine("<< /Type /Catalog /Pages 2 0 R >>")
  {
  }

  lemma PagesAreOneLine()
    ensures IsOneLine("<< /Type /Pages /Kids [3 0 R] /Count 1 >>")
  {
  }

  predicate Lacks(s: string, c: char) { c !in s }

  lemma PageParts()
    ensures Lacks("<< /Type /Page /Parent 2 0 R ", '\n') && Lacks("/MediaBox [0 0 612 792] ", '\n')
    ensures "<< /Type /Page /Parent 2 0 R "[4] != 'L'
  {
  }

  lemma MorePageParts()
    ensures Lacks("/Resources << /Font << /F1 5 0 R >> >> ", '\n') && Lacks("/Contents 4 0 R >>", '\n')
  {
  }

  lemma FontParts()
    ensures Lacks("<< /Type /Font /Subtype /Type1 ", '\n') && Lacks("/BaseFont /Helvetica >>", '\n')
    ensures "<< /Type /Font /Subtype /Type1 "[4] != 'L'
  {
  }

  lemma JoinedOneLine(a: string, b: string)
    requires |a| > 4 && a[4] != 'L' && Lacks(a, '\n') && Lacks(b, '\n')
    ensures IsOneLine(a + b)
  {
  }

  lemma JoinedPage(a: string, b: string, c: string, d: string)
    requires |a| > 4 && a[4] != 'L'
    requires Lacks(a, '\n') && Lacks(b, '\n') && Lacks(c, '\n') && Lacks(d, '\n')
    ensures IsOneLine(a + b + c + d)
  {
  }

  lemma PageIsOneLine()
    ensures IsOneLine("<< /Type /Page /Parent 2 0 R " + "/MediaBox [0 0 612 792] " +
      "/Resources << /Font << /F1 5 0 R >> >> " + "/Contents 4 0 R >>")
  {
    PageParts();
    MorePageParts();
    hide Lacks, IsOneLine;
    JoinedPage("<< /Type /Page /Parent 2 0 R ", "/MediaBox [0 0 612 792] ",
      "/Resources << /Font << /F1 5 0 R >> >> ", "/Contents 4 0 R >>");
  }

  lemma FontIsOneLine()
    ensures IsOneLine("<< /Type /Font /Subtype /Type1 " + "/BaseFont /Helvetica >>")
  {
    FontParts();
    hide Lacks, IsOneLine;
    JoinedOneLine("<< /Type /Font /Subtype /Type1 ", "/BaseFont /Helvetica >>");
  }

  lemma BodiesRead(loan: Loan, i: nat, after: string)
    requires i < 5
    ensures ReadBody(Objects(loan)[i] + END_OBJECT + after)
         == Some(if i == 3 then Stream(Content(Lines(loan))) else Plain(Objects(loan)[i]))
  {
    hide ReadBody, StreamBody, Content, Lines, IsOneLine;
    match i
    case 0 =>
      CatalogIsOneLine();
      PlainReads(Objects(loan)[0], after);
    case 1 =>
      PagesAreOneLine();
      PlainReads(Objects(loan)[1], after);
    case 2 =>
      PageIsOneLine();
      PlainReads(Objects(loan)[2], after);
    case 3 => StreamReads(Content(Lines(loan)), after);
    case 4 =>
      FontIsOneLine();
      PlainReads(Objects(loan)[4], after);
  }

  /** Following the file's own table, a reader finds every object as it was written. */
  lemma FetchFinds(loan: Loan, i: nat)
    requires i < 5 && Offset(Objects(loan), 4) < LIMIT
    ensures Fetch(File(Objects(loan)), i + 1)
         == Some(if i == 3 then Stream(Content(Lines(loan))) else Plain(Objects(loan)[i]))
  {
    var objects := Objects(loan);
    assert |objects| == 5;
    LookupFinds(objects, i);
    var after := FileFrom(objects, i);
    hide Objects, File, Lookup, Offset, ReadIndirect;
    IndirectReads(i + 1, objects[i], after);
    BodiesRead(loan, i, after);
  }

  /** What the file holds from an object's offset on. */
  lemma FileFrom(objects: seq<string>, i: nat) returns (after: string)
    requires i < |objects|
    ensures Offset(objects, i) <= |File(objects)|
    ensures File(objects)[Offset(objects, i)..] == Indirect(i + 1, objects[i]) + after
  {
    var between := WrittenFrom(objects, i);
    FileHasTable(objects);
    var count := |objects| + 1;
    var table := TableHead(count) + (FREE_ENTRY + (Entries(objects, |objects|) + Trailer(count, |Written(objects)|)));
    after := between + table;
    FromMiddle(Written(objects[..i]), Indirect(i + 1, objects[i]), between, table);
    hide File, Written, TableHead, Entries, Trailer, Indirect;
  }

  lemma FromMiddle(a: string, b: string, c: string, d: string)
    ensures |a| <= |a + (b + c) + d| && (a + (b + c) + d)[|a|..] == b + (c + d)
  {
  }

  // ----- Literal strings

  lemma EscapeSpelled(line: string, rest: string)
    requires line != ""
    ensures Escape(line) + ")" + rest == EscapeChar(line[0]) + (Escape(line[1..]) + ")" + rest)
  {
    hide EscapeChar;
  }

  /** The first character of an escaped text and its closing parenthesis. */
  lemma EscapeStarts(line: string, rest: string)
    ensures var s := Escape(line) + ")" + rest;
      s[0] == if line == "" then ')' else if line[0] in {'\\', '(', ')'} then '\\' else line[0]
  {
  }

  lemma {:induction false} LiteralReads(line: string, rest: string)
    ensures ReadLiteral(Escape(line) + ")" + rest, 0) == Some((OneEol(line), rest))
    decreases |line|
  {
    var s := Escape(line) + ")" + rest;
    if line == "" {
      assert s == ")" + rest && s[1..] == rest;
    } else {
      var tail := Escape(line[1..]) + ")" + rest;
      EscapeSpelled(line, rest);
      if EolCount(line) == 2 {
        EscapeSpelled(line[1..], rest);
        var far := Escape(line[2..]) + ")" + rest;
        assert line[1..][1..] == line[2..];
        assert s == "\r\n" + far;
        LiteralReads(line[2..], rest);
        BreakReads("\r\n", far);
      } else {
        LiteralReads(line[1..], rest);
        if line[0] in {'\\', '(', ')'} {
          EscapedCharReads(line[0], tail);
        } else {
          EscapeStarts(line[1..], rest);
          LoneCharReads(line[0], tail);
          LoneCharEnds(line);
        }
      }
    }
  }

  lemma BreakReads(mark: string, rest: string)
    requires mark == "\r\n"
    ensures ReadLiteral(mark + rest, 0) == Prepend("\n", ReadLiteral(rest, 0))
  {
    assert (mark + rest)[2..] == rest;
    assert mark <= mark + rest;
  }

  lemma EscapedCharReads(c: char, rest: string)
    requires c in {'\\', '(', ')'}
    ensures ReadLiteral(EscapeChar(c) + rest, 0) == Prepend([c], ReadLiteral(rest, 0))
  {
    var s := ['\\', c] + rest;
    assert EscapeChar(c) == ['\\', c];
    assert s[1..] == [c] + rest && s[2..] == rest;
  }

  lemma LoneCharReads(c: char, rest: string)
    requires c !in {'\\', '(', ')'} && rest != "" && !(c == '\r' && rest[0] == '\n')
    ensures ReadLiteral([c] + rest, 0)
         == Prepend(if c in {'\r', '\n'} then "\n" else [c], ReadLiteral(rest, 0))
  {
    var s := [c] + rest;
    assert s[1..] == rest;
    assert "\r\n"[1] == '\n';
  }

  lemma LoneCharEnds(line: string)
    requires line != "" && EolCount(line) != 2
    ensures OneEol(line) == (if line[0] in {'\r', '\n'} then "\n" else [line[0]]) + OneEol(line[1..])
  {
  }

  lemma {:induction false} OneEolHasNoReturn(line: string)
    ensures '\r' !in OneEol(line)
    decreases |line|
  {
    if line != "" {
      OneEolHasNoReturn(line[1..]);
      if EolCount(line) == 2 {
        OneEolHasNoReturn(line[2..]);
      }
    }
  }

  /** A line reads back as it was exactly when it has no carriage return. */
  lemma {:induction false} OneEolKeepsIff(line: string)
    ensures OneEol(line) == line <==> '\r' !in line
  {
    OneEolHasNoReturn(line);
    if '\r' !in line && line != "" {
      assert "\r\n"[0] == '\r' && line[0] in line;
      LoneCharEnds(line);
      OneEolKeepsIff(line[1..]);
      assert [line[0]] + line[1..] == line;
    }
  }

  // ----- The whole text

  lemma {:induction false} ShowsFromFront(lines: seq<string>)
    requires lines != []
    ensures Shows(lines) == Show(lines[0]) + Shows(lines[1..])
  {
    hide Show;
    var last := |lines| - 1;
    if last == 0 {
      assert Shows(lines[..0]) == "" && Shows(lines[1..]) == "";
    } else {
      var init := lines[..last];
      ShowsFromFront(init);
      assert init[1..] == lines[1..][..last - 1];
      assert Shows(lines[1..]) == Shows(init[1..]) + Show(lines[last]);
    }
  }

  function AllOneEol(lines: seq<string>): seq<string> {
    if lines == [] then [] else [OneEol(lines[0])] + AllOneEol(lines[1..])
  }

  lemma ShowReads(line: string, rest: string, texts: seq<string>)
    requires ReadShows(rest) == Some(texts)
    ensures ReadShows(Show(line) + rest) == Some([OneEol(line)] + texts)
  {
    var after := " Tj T*\n" + rest;
    var inner := Escape(line) + ")" + after;
    ShowText(line, rest);
    LiteralReads(line, after);
    ExpectFinds("(", inner);
    ExpectFinds(" Tj T*\n", rest);
    assert ("(" + inner)[0] == '(' && "ET\n"[0] == 'E';
    hide Expect, ReadLiteral, Escape, OneEol, Show;
  }

  lemma ShowText(line: string, rest: string)
    ensures Show(line) + rest == "(" + (Escape(line) + ")" + (" Tj T*\n" + rest))
  {
    hide Escape;
    assert ") Tj T*\n" == ")" + " Tj T*\n";
  }

  lemma {:induction false} ShowsRead(lines: seq<string>)
    ensures ReadShows(Shows(lines) + "ET\n") == Some(AllOneEol(lines))
  {
    if lines == [] {
      assert Shows(lines) + "ET\n" == "ET\n";
    } else {
      ShowsFromFront(lines);
      var rest := Shows(lines[1..]) + "ET\n";
      assert Shows(lines) + "ET\n" == Show(lines[0]) + rest;
      ShowsRead(lines[1..]);
      ShowReads(lines[0], rest, AllOneEol(lines[1..]));
    }
  }

  /** The lines of any loan come back, each whole and none ending early, with their line breaks as line feeds. */
  lemma ContentReads(lines: seq<string>)
    ensures ReadContent(Content(lines)) == Some(AllOneEol(lines))
  {
    ShowsRead(lines);
    var rest := Shows(lines) + "ET\n";
    hide Shows, ReadShows;
    assert Content(lines) == OPENING + rest;
    ExpectFinds(OPENING, rest);
  }
}
