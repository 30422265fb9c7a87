/** A reader of the receipt that is given the file alone, and finds the loan in it. */
module PdfReading {
  import opened Wrappers
  import opened Pdf
  import opened PdfTheorems

  // ----- From the trailer to the content stream

  /** The number after a lead, written as a reference to an object. */
  function Referred(body: string, lead: string): Option<nat> {
    match Expect(body, lead)
    case None => None
    case Some(numbered) =>
      match ReadNumber(numbered)
      case None => None
      case Some((number, rest)) => if Expect(rest, " 0 R").Some? then Some(number) else None
  }

  /** What stands behind the entries of the cross-reference table, and how many entries there are. */
  function AfterTable(file: string): Option<(nat, string)> {
    match StartXref(file)
    case None => None
    case Some(at) =>
      if at > |file| then None
      else match ReadTableHead(file[at..])
        case None => None
        case Some((count, entries)) =>
          if |entries| < 20 * count then None else Some((count, entries[20 * count..]))
  }

  /** The number of the catalog, in a trailer that counts the objects as the table does. */
  function Root(file: string): Option<nat> {
    match AfterTable(file)
    case None => None
    case Some((count, trailer)) =>
      match Expect(trailer, "trailer\n<< /Size ")
      case None => None
      case Some(sized) =>
        match ReadNumber(sized)
        case None => None
        case Some((size, rest)) => if size == count then Referred(rest, " /Root ") else None
  }

  const CATALOG_LEAD := "<< /Type /Catalog /Pages "
  const PAGES_LEAD := "<< /Type /Pages /Kids ["
  const PAGE_LEAD := "<< /Type /Page /Parent 2 0 R " + "/MediaBox [0 0 612 792] " +
    "/Resources << /Font << /F1 5 0 R >> >> " + "/Contents "

  function Follow(file: string, number: Option<nat>, lead: string): Option<nat> {
    if number.None? then None
    else match Fetch(file, number.value)
      case Some(Plain(body)) => Referred(body, lead)
      case _ => None
  }

  /** Root, page tree, page, contents: each object names the next. */
  function ContentNumber(file: string): Option<nat> {
    var pages := Follow(file, Root(file), CATALOG_LEAD);
    var page := Follow(file, pages, PAGES_LEAD);
    Follow(file, page, PAGE_LEAD)
  }

  /** The texts that the page shows. */
  function ShownTexts(file: string): Option<seq<string>> {
    match ContentNumber(file)
    case None => None
    case Some(number) =>
      match Fetch(file, number)
      case Some(Stream(bytes)) => ReadContent(bytes)
      case _ => None
  }

  lemma ReferenceReads(lead: string, number: nat, rest: string)
    ensures Referred(lead + (Dec(number) + (" 0 R" + rest)), lead) == Some(number)
  {
    ExpectFinds(lead, Dec(number) + (" 0 R" + rest));
    NumberReads(number, " 0 R" + rest);
    ExpectFinds(" 0 R", rest);
    hide Expect, ReadNumber, Dec;
  }

  lemma SmallNumbers()
    ensures Dec(1) == "1" && Dec(2) == "2" && Dec(3) == "3" && Dec(4) == "4"
  {
  }

  lemma TrailerIsFound(objects: seq<string>)
    requires objects != [] && Offset(objects, |objects| - 1) < LIMIT
    ensures AfterTable(File(objects)) == Some((|objects| + 1, Trailer(|objects| + 1, |Written(objects)|)))
  {
    hide *;
    var written, count := Written(objects), |objects| + 1;
    var rows, trailer := Entries(objects, |objects|), Trailer(count, |written|);
    var entries := FREE_ENTRY + (rows + trailer);
    FileHasTable(objects);
    TableFollows(written, TableHead(count) + entries);
    var front := FileEnds(objects);
    StartIsFound(front, |written|);
    TableHeadReads(count, entries);
    EntriesRead(objects, |objects|, 0);
    FreeEntryLength();
    RowsEnd(FREE_ENTRY, rows, trailer, count);
    TableIsPassed(File(objects), |written|, count, entries);
  }

  lemma FreeEntryLength()
    ensures |FREE_ENTRY| == 20
  {
  }

  lemma TableFollows(written: string, table: string)
    ensures (written + table)[|written|..] == table
  {
  }

  lemma TableIsPassed(file: string, at: nat, count: nat, entries: string)
    requires StartXref(file) == Some(at) && at <= |file| && ReadTableHead(file[at..]) == Some((count, entries))
    requires 20 * count <= |entries|
    ensures AfterTable(file) == Some((count, entries[20 * count..]))
  {
    hide StartXref, ReadTableHead;
  }

  lemma RowsEnd(free: string, rows: string, after: string, count: nat)
    requires |free| == 20 && |rows| + 20 == 20 * count
    ensures |free + (rows + after)| >= 20 * count && (free + (rows + after))[20 * count..] == after
  {
  }

  lemma TrailerSplits(count: nat, xref: nat)
    ensures Trailer(count, xref)
         == "trailer\n<< /Size "
           + (Dec(count) + (" /Root " + (Dec(1) + (" 0 R" + (" >>\n" + (START + Dec(xref) + ENDING))))))
  {
    TrailerParts(count, xref);
    SmallNumbers();
    hide Dec, Trailer;
    assert " /Root 1 0 R >>\n" == " /Root " + ("1" + (" 0 R" + " >>\n"));
  }

  lemma RootIsFound(objects: seq<string>)
    requires objects != [] && Offset(objects, |objects| - 1) < LIMIT
    ensures Root(File(objects)) == Some(1)
  {
    var count, xref := |objects| + 1, |Written(objects)|;
    var end := " >>\n" + (START + Dec(xref) + ENDING);
    var referred := " /Root " + (Dec(1) + (" 0 R" + end));
    TrailerIsFound(objects);
    TrailerSplits(count, xref);
    hide File, Written, Offset, AfterTable, Trailer, Referred;
    ExpectFinds("trailer\n<< /Size ", Dec(count) + referred);
    NumberReads(count, referred);
    ReferenceReads(" /Root ", 1, end);
  }

  lemma CatalogRefers()
    ensures Referred("<< /Type /Catalog /Pages 2 0 R >>", CATALOG_LEAD) == Some(2)
  {
    SmallNumbers();
    ReferenceReads(CATALOG_LEAD, 2, " >>");
    hide Referred, Dec;
    assert "<< /Type /Catalog /Pages 2 0 R >>" == CATALOG_LEAD + ("2" + (" 0 R" + " >>"));
  }

  lemma PagesParts()
    ensures "<< /Type /Pages /Kids [3 0 R] /Count 1 >>" == PAGES_LEAD + "3 0 R] /Count 1 >>"
    ensures "3 0 R] /Count 1 >>" == "3" + (" 0 R" + "] /Count 1 >>")
  {
  }

  lemma PagesRefer()
    ensures Referred("<< /Type /Pages /Kids [3 0 R] /Count 1 >>", PAGES_LEAD) == Some(3)
  {
    hide *;
    SmallNumbers();
    ReferenceReads(PAGES_LEAD, 3, "] /Count 1 >>");
    PagesParts();
  }

  lemma ContentsParts(front: string)
    ensures front + "/Contents 4 0 R >>" == (front + "/Contents ") + "4 0 R >>"
    ensures "4 0 R >>" == "4" + (" 0 R" + " >>")
  {
    assert "/Contents 4 0 R >>" == "/Contents " + "4 0 R >>";
  }

  lemma PageRefers()
    ensures Referred("<< /Type /Page /Parent 2 0 R " + "/MediaBox [0 0 612 792] " +
      "/Resources << /Font << /F1 5 0 R >> >> " + "/Contents 4 0 R >>", PAGE_LEAD) == Some(4)
  {
    hide *;
    SmallNumbers();
    ReferenceReads(PAGE_LEAD, 4, " >>");
    PageLead();
    ContentsParts("<< /Type /Page /Parent 2 0 R " + "/MediaBox [0 0 612 792] " +
      "/Resources << /Font << /F1 5 0 R >> >> ");
  }

  lemma PageLead()
    ensures PAGE_LEAD == "<< /Type /Page /Parent 2 0 R " + "/MediaBox [0 0 612 792] " +
      "/Resources << /Font << /F1 5 0 R >> >> " + "/Contents "
  {
  }

  /** The file leads from its end to its content stream. */
  lemma ContentIsFound(loan: Loan)
    requires Offset(Objects(loan), 4) < LIMIT
    ensures ContentNumber(File(Objects(loan))) == Some(4)
  {
    hide *;
    ObjectsRefer(loan);
    RootIsFound(Objects(loan));
    FollowsObject(loan, 0, CATALOG_LEAD);
    FollowsObject(loan, 1, PAGES_LEAD);
    FollowsObject(loan, 2, PAGE_LEAD);
    Chained(File(Objects(loan)));
  }

  lemma ObjectsRefer(loan: Loan)
    ensures var objects := Objects(loan);
      && |objects| == 5
      && Referred(objects[0], CATALOG_LEAD) == Some(2)
      && Referred(objects[1], PAGES_LEAD) == Some(3)
      && Referred(objects[2], PAGE_LEAD) == Some(4)
  {
    hide Referred;
    CatalogRefers();
    PagesRefer();
    PageRefers();
  }

  lemma FollowsObject(loan: Loan, i: nat, lead: string)
    requires i < 3 && |Objects(loan)| == 5 && Offset(Objects(loan), 4) < LIMIT
    ensures Follow(File(Objects(loan)), Some(i + 1), lead) == Referred(Objects(loan)[i], lead)
  {
    FetchFinds(loan, i);
    hide Fetch, Referred, Objects, File, Offset;
  }

  lemma Chained(file: string)
    requires Root(file) == Some(1) && Follow(file, Some(1), CATALOG_LEAD) == Some(2)
    requires Follow(file, Some(2), PAGES_LEAD) == Some(3) && Follow(file, Some(3), PAGE_LEAD) == Some(4)
    ensures ContentNumber(file) == Some(4)
  {
    hide Root, Follow;
  }

  // ----- The loan

  /** The loan a receipt speaks of: a title line, an empty one, and each field after its own label. */
  function ReadLoan(file: string): Option<Loan> {
    match ShownTexts(file)
    case None => None
    case Some(texts) =>
      if |texts| != 6 || texts[0] != "BORROWING RECEIPT" || texts[1] != "" then None
      else
        match (
          Expect(texts[2], "Loan:        "), Expect(texts[3], "Title:       "),
          Expect(texts[4], "Borrowed on: "), Expect(texts[5], "Due on:      "))
        case (Some(id), Some(title), Some(borrowedOn), Some(dueOn)) => Some(Loan(id, title, borrowedOn, dueOn))
        case _ => None
  }

  lemma {:induction false} LabelStays(heading: string, field: string)
    requires Lacks(heading, '\r') && Lacks(heading, '\n')
    ensures OneEol(heading + field) == heading + OneEol(field)
  {
    if heading == "" {
      assert heading + field == field && heading + OneEol(field) == OneEol(field);
    } else {
      assert (heading + field)[1..] == heading[1..] + field && (heading + field)[0] == heading[0];
      LabelStays(heading[1..], field);
      LoneCharStays(heading + field);
      assert [heading[0]] + (heading[1..] + OneEol(field)) == heading + OneEol(field);
    }
  }

  lemma LoneCharStays(line: string)
    requires line != "" && line[0] !in {'\r', '\n'}
    ensures OneEol(line) == [line[0]] + OneEol(line[1..])
  {
    assert "\r\n"[0] == '\r';
  }

  /** From the end of the file to the loan: each field is read after its own label, and is kept without CR. */
  lemma ReceiptReads(loan: Loan)
    requires Offset(Objects(loan), 4) < LIMIT
    ensures Fetch(File(Objects(loan)), 4) == Some(Stream(Content(Lines(loan))))
    ensures ReadContent(Content(Lines(loan))) == Some(AllOneEol(Lines(loan)))
    ensures ReadLoan(File(Objects(loan)))
         == Some(Loan(OneEol(loan.id), OneEol(loan.title), OneEol(loan.borrowedOn), OneEol(loan.dueOn)))
    ensures ReadLoan(File(Objects(loan))) == Some(loan)
      <==> '\r' !in loan.id && '\r' !in loan.title && '\r' !in loan.borrowedOn && '\r' !in loan.dueOn
  {
    FetchFinds(loan, 3);
    ContentIsFound(loan);
    ContentReads(Lines(loan));
    LoanIsLabelled(loan);
    hide *;
    var read := Loan(OneEol(loan.id), OneEol(loan.title), OneEol(loan.borrowedOn), OneEol(loan.dueOn));
    ShownIsRead(File(Objects(loan)), Content(Lines(loan)), read);
    OneEolKeepsIff(loan.id);
    OneEolKeepsIff(loan.title);
    OneEolKeepsIff(loan.borrowedOn);
    OneEolKeepsIff(loan.dueOn);
  }

  lemma ShownIsRead(file: string, content: string, read: Loan)
    requires ContentNumber(file) == Some(4) && Fetch(file, 4) == Some(Stream(content))
    requires ReadContent(content) == Some([
      "BORROWING RECEIPT", "", "Loan:        " + read.id, "Title:       " + read.title,
      "Borrowed on: " + read.borrowedOn, "Due on:      " + read.dueOn])
    ensures ReadLoan(file) == Some(read)
  {
    hide ContentNumber, Fetch, ReadContent, Expect;
    ExpectFinds("Loan:        ", read.id);
    ExpectFinds("Title:       ", read.title);
    ExpectFinds("Borrowed on: ", read.borrowedOn);
    ExpectFinds("Due on:      ", read.dueOn);
  }

  lemma LoanIsLabelled(loan: Loan)
    ensures AllOneEol(Lines(loan)) == [
      "BORROWING RECEIPT", "", "Loan:        " + OneEol(loan.id), "Title:       " + OneEol(loan.title),
      "Borrowed on: " + OneEol(loan.borrowedOn), "Due on:      " + OneEol(loan.dueOn)]
  {
    LabelsLackBreaks();
    hide OneEol, Lacks;
    LabelStays("BORROWING RECEIPT", "");
    LabelStays("Loan:        ", loan.id);
    LabelStays("Title:       ", loan.title);
    LabelStays("Borrowed on: ", loan.borrowedOn);
    LabelStays("Due on:      ", loan.dueOn);
    NothingStays();
    EachOneEol(Lines(loan));
  }

  lemma NothingStays()
    ensures OneEol("") == "" && "BORROWING RECEIPT" + "" == "BORROWING RECEIPT"
  {
  }

  lemma {:induction false} EachOneEol(lines: seq<string>)
    ensures |AllOneEol(lines)| == |lines|
    ensures forall i | 0 <= i < |lines| :: AllOneEol(lines)[i] == OneEol(lines[i])
  {
    hide OneEol;
    if lines != [] {
      EachOneEol(lines[1..]);
    }
  }

  lemma LabelsLackBreaks()
    ensures forall c | c in {'\r', '\n'} ::
      && Lacks("BORROWING RECEIPT", c) && Lacks("Loan:        ", c) && Lacks("Title:       ", c)
      && Lacks("Borrowed on: ", c) && Lacks("Due on:      ", c)
  {
  }
}
