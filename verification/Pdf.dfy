/**
 * The receipt writer: the bytes of the file, one character per byte, and the reader of sections 7.3.4.2, 7.3.8
 * and 7.5.4 of ISO 32000-1 that has to find everything in them again.
 */
module Pdf {
  import opened Wrappers

  // ----- Decimal numbers

  predicate IsDigit(c: char) { '0' <= c <= '9' }

  predicate AllDigits(s: string) { forall i | 0 <= i < |s| :: IsDigit(s[i]) }

  /** `%d`. */
  function Dec(n: nat): (r: string)
    ensures r != "" && AllDigits(r)
  {
    var last := ['0' + (n % 10) as char];
    if n < 10 then last else Dec(n / 10) + last
  }

  function Zeros(n: nat): (r: string)
    ensures |r| == n && AllDigits(r)
  {
    if n == 0 then "" else Zeros(n - 1) + "0"
  }

  /** `%010d`: padded with zeros to ten digits, longer when the number is. */
  function Padded(n: nat): string {
    if |Dec(n)| < 10 then Zeros(10 - |Dec(n)|) + Dec(n) else Dec(n)
  }

  function DigitsValue(s: string): nat
    requires AllDigits(s)
  {
    if s == "" then 0 else 10 * DigitsValue(s[..|s| - 1]) + (s[|s| - 1] as int - '0' as int)
  }

  // ----- The writer

  datatype Loan = Loan(id: string, title: string, borrowedOn: string, dueOn: string)

  function EscapeChar(c: char): string {
    if c == '\\' then "\\\\" else if c == '(' then "\\(" else if c == ')' then "\\)" else [c]
  }

  function Escape(s: string): string {
    if s == "" then "" else EscapeChar(s[0]) + Escape(s[1..])
  }

  function Lines(loan: Loan): seq<string> {
    [
      "BORROWING RECEIPT",
      "",
      "Loan:        " + loan.id,
      "Title:       " + loan.title,
      "Borrowed on: " + loan.borrowedOn,
      "Due on:      " + loan.dueOn
    ]
  }

  const OPENING := "BT /F1 12 Tf 72 720 Td 16 TL\n"

  function Show(line: string): string { "(" + Escape(line) + ") Tj T*\n" }

  function Shows(lines: seq<string>): string {
    if lines == [] then "" else Shows(lines[..|lines| - 1]) + Show(lines[|lines| - 1])
  }

  function Content(lines: seq<string>): string { OPENING + Shows(lines) + "ET\n" }

  function StreamBody(content: string): string {
    "<< /Length " + Dec(|content|) + " >>\nstream\n" + content + "endstream"
  }

  function Objects(loan: Loan): seq<string> {
    [
      "<< /Type /Catalog /Pages 2 0 R >>",
      "<< /Type /Pages /Kids [3 0 R] /Count 1 >>",
      "<< /Type /Page /Parent 2 0 R " + "/MediaBox [0 0 612 792] " +
      "/Resources << /Font << /F1 5 0 R >> >> " + "/Contents 4 0 R >>",
      StreamBody(Content(Lines(loan))),
      "<< /Type /Font /Subtype /Type1 " + "/BaseFont /Helvetica >>"
    ]
  }

  const END_OBJECT := "\nendobj\n"

  function Indirect(number: nat, body: string): string { Dec(number) + " 0 obj\n" + body + END_OBJECT }

  /** The file up to its cross-reference table. */
  function Written(objects: seq<string>): string {
    if objects == [] then "%PDF-1.4\n"
    else Written(objects[..|objects| - 1]) + Indirect(|objects|, objects[|objects| - 1])
  }

  /** Where the object at position `i` starts. */
  function Offset(objects: seq<string>, i: nat): nat
    requires i <= |objects|
  {
    |Written(objects[..i])|
  }

  function Entry(offset: nat): string { Padded(offset) + " 00000 n \n" }

  function Entries(objects: seq<string>, count: nat): string
    requires count <= |objects|
  {
    if count == 0 then "" else Entries(objects, count - 1) + Entry(Offset(objects, count - 1))
  }

  function TableHead(count: nat): string { "xref\n0 " + Dec(count) + "\n" }

  const FREE_ENTRY := "0000000000 65535 f \n"

  function Trailer(count: nat, xref: nat): string {
    "trailer\n<< /Size " + Dec(count) + " /Root 1 0 R >>\nstartxref\n" + Dec(xref) + "\n%%EOF\n"
  }

  function File(objects: seq<string>): string {
    Written(objects) + TableHead(|objects| + 1) + FREE_ENTRY + Entries(objects, |objects|)
    + Trailer(|objects| + 1, |Written(objects)|)
  }

  method RenderText(lines: seq<string>) returns (text: string)
    ensures text == Content(lines)
  {
    hide Escape;
    text := OPENING;
    var j := 0;
    while j < |lines|
      invariant 0 <= j <= |lines|
      invariant text == OPENING + Shows(lines[..j])
    {
      assert lines[..j + 1][..j] == lines[..j];
      text := text + ("(" + Escape(lines[j]) + ") Tj T*\n");
      j := j + 1;
    }
    assert lines[..j] == lines;
    text := text + "ET\n";
  }

  method RenderReceiptPDF(loan: Loan) returns (pdf: string)
    ensures pdf == File(Objects(loan))
  {
    var text := RenderText(Lines(loan));
    hide File, Lines, Content, Dec;
    var objects := [
      "<< /Type /Catalog /Pages 2 0 R >>",
      "<< /Type /Pages /Kids [3 0 R] /Count 1 >>",
      "<< /Type /Page /Parent 2 0 R " + "/MediaBox [0 0 612 792] " +
      "/Resources << /Font << /F1 5 0 R >> >> " + "/Contents 4 0 R >>",
      "<< /Length " + Dec(|text|) + " >>\nstream\n" + text + "endstream",
      "<< /Type /Font /Subtype /Type1 " + "/BaseFont /Helvetica >>"
    ];
    pdf := WriteObjects(objects);
  }

  /** The part of the writer that records an offset for each object and then writes the table of them. */
  method WriteObjects(objects: seq<string>) returns (pdf: string)
    ensures pdf == File(objects)
  {
    hide Indirect, Entry, Padded, Trailer, TableHead;
    pdf := "%PDF-1.4\n";
    var offsets := new int[|objects|];
    var i := 0;
    while i < |objects|
      invariant 0 <= i <= |objects|
      invariant pdf == Written(objects[..i])
      invariant forall k | 0 <= k < i :: offsets[k] == Offset(objects, k)
    {
      offsets[i] := |pdf|;
      assert objects[..i + 1][..i] == objects[..i];
      pdf := pdf + Indirect(i + 1, objects[i]);
      i := i + 1;
    }
    assert objects[..i] == objects;
    var xref := |pdf|;
    pdf := pdf + TableHead(|objects| + 1) + FREE_ENTRY;
    i := 0;
    while i < offsets.Length
      invariant 0 <= i <= |objects|
      invariant pdf == Written(objects) + TableHead(|objects| + 1) + FREE_ENTRY + Entries(objects, i)
    {
      pdf := pdf + Entry(offsets[i]);
      i := i + 1;
    }
    pdf := pdf + Trailer(|objects| + 1, xref);
  }

  // ----- The reader

  function Expect(s: string, prefix: string): (r: Option<string>)
    ensures r.Some? <==> prefix <= s
    ensures r.Some? ==> s == prefix + r.value
  {
    if prefix <= s then Some(s[|prefix|..]) else None
  }

  function DigitsCount(s: string): (n: nat)
    ensures n <= |s| && AllDigits(s[..n]) && (n < |s| ==> !IsDigit(s[n]))
  {
    if s != "" && IsDigit(s[0]) then 1 + DigitsCount(s[1..]) else 0
  }

  function ReadNumber(s: string): (r: Option<(nat, string)>)
    ensures r.Some? ==> |r.value.1| < |s|
  {
    var n := DigitsCount(s);
    if n == 0 then None else Some((DigitsValue(s[..n]), s[n..]))
  }

  function FinalDigitsCount(s: string): (n: nat)
    ensures n <= |s| && AllDigits(s[|s| - n..]) && (n < |s| ==> !IsDigit(s[|s| - n - 1]))
  {
    if s != "" && IsDigit(s[|s| - 1]) then 1 + FinalDigitsCount(s[..|s| - 1]) else 0
  }

  predicate EndsWith(s: string, suffix: string) { |s| >= |suffix| && s[|s| - |suffix|..] == suffix }

  const ENDING := "\n%%EOF\n"
  const START := "startxref\n"

  /** The byte offset the file itself gives for its cross-reference table. */
  function StartXref(file: string): Option<nat> {
    if !EndsWith(file, ENDING) then None
    else
      var body := file[..|file| - |ENDING|];
      var n := FinalDigitsCount(body);
      if n == 0 || !EndsWith(body[..|body| - n], START) then None else Some(DigitsValue(body[|body| - n..]))
  }

  /** The number of entries of the table at the front of `s`, and the text that starts with them. */
  function ReadTableHead(s: string): Option<(nat, string)> {
    match Expect(s, "xref\n0 ")
    case None => None
    case Some(counted) =>
      match ReadNumber(counted)
      case None => None
      case Some((count, rest)) =>
        match Expect(rest, "\n")
        case None => None
        case Some(entries) => Some((count, entries))
  }

  /** An entry in use is exactly twenty bytes: ten digits, a generation, and the mark `n`. */
  function ReadEntry(e: string): Option<nat> {
    if |e| == 20 && AllDigits(e[..10]) && e[10..] == " 00000 n \n" then Some(DigitsValue(e[..10])) else None
  }

  /** The offset the cross-reference table gives for an object number. */
  function Lookup(file: string, number: nat): Option<nat> {
    match StartXref(file)
    case None => None
    case Some(at) =>
      if at > |file| then None
      else match ReadTableHead(file[at..])
        case None => None
        case Some((count, entries)) =>
          if number >= count || |entries| < 20 * number + 20 then None
          else ReadEntry(entries[20 * number..20 * number + 20])
  }

  datatype Object = Plain(body: string) | Stream(bytes: string)

  /** A stream object: as many bytes as `/Length` says, whatever they are, and then the closing words. */
  function ReadStream(s: string): Option<Object> {
    match Expect(s, "<< /Length ")
    case None => None
    case Some(measured) =>
      match ReadNumber(measured)
      case None => None
      case Some((length, rest)) =>
        match Expect(rest, " >>\nstream\n")
        case None => None
        case Some(bytes) =>
          if length <= |bytes| && Expect(bytes[length..], "endstream" + END_OBJECT).Some?
          then Some(Stream(bytes[..length]))
          else None
  }

  /** What stands before the first `mark`. */
  function Before(s: string, mark: string): Option<string> {
    if mark <= s then Some("")
    else if s == "" then None
    else match Before(s[1..], mark)
      case None => None
      case Some(head) => Some([s[0]] + head)
  }

  function ReadBody(s: string): Option<Object> {
    match ReadStream(s)
    case Some(stream) => Some(stream)
    case None =>
      match Before(s, END_OBJECT)
      case None => None
      case Some(body) => Some(Plain(body))
  }

  /** The object at the front of `s`, when its number is the one asked for. */
  function ReadIndirect(s: string, number: nat): Option<Object> {
    match ReadNumber(s)
    case None => None
    case Some((found, rest)) =>
      if found != number then None
      else match Expect(rest, " 0 obj\n")
        case None => None
        case Some(body) => ReadBody(body)
  }

  /** Object `number`, found through `startxref` and the cross-reference table. */
  function Fetch(file: string, number: nat): Option<Object> {
    match Lookup(file, number)
    case None => None
    case Some(offset) => if offset > |file| then None else ReadIndirect(file[offset..], number)
  }

  // ----- Literal strings

  predicate IsOctal(c: char) { '0' <= c <= '7' }

  function OctalCount(s: string): (n: nat)
    ensures n <= 3 && n <= |s|
  {
    if s == "" || !IsOctal(s[0]) then 0
    else if |s| == 1 || !IsOctal(s[1]) then 1
    else if |s| == 2 || !IsOctal(s[2]) then 2
    else 3
  }

  function OctalValue(s: string): nat {
    if s == "" then 0
    else
      var last := s[|s| - 1];
      8 * OctalValue(s[..|s| - 1]) + (if IsOctal(last) then last as int - '0' as int else 0)
  }

  /** The length of the end-of-line marker at the front of `s`. */
  function EolCount(s: string): (n: nat)
    ensures n <= |s|
  {
    if "\r\n" <= s then 2 else if s != "" && s[0] in {'\r', '\n'} then 1 else 0
  }

  /** What a backslash followed by `s` stands for, and how much of `s` belongs to it. */
  function ReadEscape(s: string): (r: (string, nat))
    ensures r.1 <= |s|
  {
    if s == "" then ("", 0)
    else if s[0] == 'n' then ("\n", 1)
    else if s[0] == 'r' then ("\r", 1)
    else if s[0] == 't' then ("\t", 1)
    else if s[0] == 'b' then (['\U{8}'], 1)
    else if s[0] == 'f' then (['\U{C}'], 1)
    else if IsOctal(s[0]) then ([(OctalValue(s[..OctalCount(s)]) % 256) as char], OctalCount(s))
    else if EolCount(s) > 0 then ("", EolCount(s))
    else ([s[0]], 1)
  }

  function Prepend(head: string, r: Option<(string, string)>): Option<(string, string)> {
    match r
    case None => None
    case Some((text, rest)) => Some((head + text, rest))
  }

  /** The rest of a literal string inside `nesting` further balanced parentheses: its text, and what follows it. */
  function ReadLiteral(s: string, nesting: nat): (r: Option<(string, string)>)
    ensures r.Some? ==> |r.value.1| < |s|
    decreases |s|
  {
    if s == "" then None
    else if s[0] == '\\' then
      var (text, count) := ReadEscape(s[1..]);
      Prepend(text, ReadLiteral(s[1 + count..], nesting))
    else if s[0] == ')' && nesting == 0 then Some(("", s[1..]))
    else if EolCount(s) > 0 then Prepend("\n", ReadLiteral(s[EolCount(s)..], nesting))
    else
      var next := if s[0] == '(' then nesting + 1 else if s[0] == ')' then nesting - 1 else nesting;
      Prepend([s[0]], ReadLiteral(s[1..], next))
  }

  /** A text with each end-of-line marker read as one line feed. */
  function OneEol(s: string): string {
    if s == "" then ""
    else if EolCount(s) > 0 then "\n" + OneEol(s[EolCount(s)..])
    else [s[0]] + OneEol(s[1..])
  }

  /** The texts shown one after another, each on a line of its own, up to the end of the text object. */
  function ReadShows(s: string): Option<seq<string>>
    decreases |s|
  {
    if s == "ET\n" then Some([])
    else match Expect(s, "(")
      case None => None
      case Some(inner) =>
        match ReadLiteral(inner, 0)
        case None => None
        case Some((text, after)) =>
          match Expect(after, " Tj T*\n")
          case None => None
          case Some(rest) =>
            match ReadShows(rest)
            case None => None
            case Some(texts) => Some([text] + texts)
  }

  function ReadContent(s: string): Option<seq<string>> {
    match Expect(s, OPENING)
    case None => None
    case Some(rest) => ReadShows(rest)
  }
}
