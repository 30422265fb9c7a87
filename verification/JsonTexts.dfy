/** Texts that denote JSON values, and how objects and arrays are put together from them. */
module JsonTexts {
  import opened Wrappers
  import opened Json

  /** What may stand after a value without becoming part of it. */
  ghost predicate Delimited(rest: string) { rest == "" || !IsAtomChar(rest[0]) }

  /** The text denotes the value wherever it stands. */
  ghost predicate Reads(text: string, value: Json) {
    forall rest | Delimited(rest) :: ParseValue(text + rest) == Some((value, rest))
  }

  lemma ReadsParses(text: string, value: Json)
    requires Reads(text, value)
    ensures Parse(text) == Some(value)
  {
    assert text + "" == text;
  }

  lemma SpaceIsSkipped(s: string)
    ensures ParseValue(" " + s) == ParseValue(s)
    ensures ParseItems(" " + s) == ParseItems(s)
    ensures ParseMember(" " + s) == ParseMember(s)
    ensures ParseMembers(" " + s) == ParseMembers(s)
    ensures forall c :: Expect(" " + s, c) == Expect(s, c)
  {
    assert (" " + s)[1..] == s;
    assert Skip(" " + s) == Skip(s);
  }

  lemma ExpectFinds(c: char, s: string)
    requires !IsSpace(c)
    ensures Expect([c] + s, c) == Some(s)
    ensures forall other | other != c :: Expect([c] + s, other) == None
  {
    assert ([c] + s)[1..] == s && Skip([c] + s) == [c] + s;
  }

  // ----- Scalars

  predicate IsAtom(token: string) { token != "" && forall i | 0 <= i < |token| :: IsAtomChar(token[i]) }

  lemma {:induction false} AtomLengthIs(token: string, rest: string)
    requires (forall i | 0 <= i < |token| :: IsAtomChar(token[i])) && Delimited(rest)
    ensures AtomLength(token + rest) == |token|
  {
    if token != "" {
      assert (token + rest)[1..] == token[1..] + rest;
      AtomLengthIs(token[1..], rest);
    } else {
      assert token + rest == rest;
    }
  }

  lemma AtomReads(token: string)
    requires IsAtom(token)
    ensures Reads(token, Atom(token))
  {
    forall rest | Delimited(rest) ensures ParseValue(token + rest) == Some((Atom(token), rest)) {
      AtomLengthIs(token, rest);
      assert (token + rest)[0] == token[0];
      assert (token + rest)[..|token|] == token && (token + rest)[|token|..] == rest;
    }
  }

  lemma StringReads(s: string)
    ensures Reads(PrintString(s), Str(s))
  {
    forall rest | Delimited(rest) ensures ParseValue(PrintString(s) + rest) == Some((Str(s), rest)) {
      var text := PrintString(s) + rest;
      assert text[0] == '\"' && text[1..] == EscapeString(s) + ("\"" + rest);
      ReadStringInvertsEscape(s, rest);
    }
  }

  // ----- Objects

  /** A key and the text of its value. */
  datatype Field = Field(key: string, text: string)

  predicate IsColon(colon: string) { colon == ":" || colon == " : " }

  predicate IsComma(comma: string) { comma == "," || comma == ", " }

  function Join(parts: seq<string>, separator: string): string {
    if parts == [] then ""
    else if |parts| == 1 then parts[0]
    else parts[0] + separator + Join(parts[1..], separator)
  }

  function FieldText(field: Field, colon: string): string { PrintString(field.key) + colon + field.text }

  function FieldTexts(fields: seq<Field>, colon: string): seq<string> {
    seq(|fields|, i requires 0 <= i < |fields| => FieldText(fields[i], colon))
  }

  function ObjectText(fields: seq<Field>, colon: string, comma: string): string {
    "{" + Join(FieldTexts(fields, colon), comma) + "}"
  }

  function Zip(fields: seq<Field>, values: seq<Json>): seq<Member>
    requires |fields| == |values|
  {
    seq(|fields|, i requires 0 <= i < |fields| => Member(fields[i].key, values[i]))
  }

  ghost predicate AllRead(texts: seq<string>, values: seq<Json>) {
    |texts| == |values| && forall i | 0 <= i < |texts| :: Reads(texts[i], values[i])
  }

  ghost predicate FieldsRead(fields: seq<Field>, values: seq<Json>) {
    |fields| == |values| && forall i | 0 <= i < |fields| :: Reads(fields[i].text, values[i])
  }

  lemma ExpectColon(colon: string, s: string)
    requires IsColon(colon)
    ensures Expect(colon + s, ':').Some? && ParseValue(Expect(colon + s, ':').value) == ParseValue(s)
  {
    if colon == ":" {
      ExpectFinds(':', s);
    } else {
      assert colon + s == " " + ([':'] + (" " + s));
      SpaceIsSkipped([':'] + (" " + s));
      ExpectFinds(':', " " + s);
      SpaceIsSkipped(s);
    }
  }

  lemma FieldReads(field: Field, value: Json, colon: string, rest: string)
    requires Reads(field.text, value) && IsColon(colon) && Delimited(rest)
    ensures ParseMember(FieldText(field, colon) + rest) == Some((Member(field.key, value), rest))
  {
    var afterKey := colon + (field.text + rest);
    var body := EscapeString(field.key) + ("\"" + afterKey);
    assert FieldText(field, colon) + rest == ['\"'] + body;
    assert ParseValue(field.text + rest) == Some((value, rest));
    hide Reads, ParseValue, Expect, ReadString, EscapeString;
    ExpectFinds('\"', body);
    ReadStringInvertsEscape(field.key, afterKey);
    ExpectColon(colon, field.text + rest);
  }

  lemma ParseOneMember(s: string, member: Member, rest: string)
    requires ParseMember(s) == Some((member, "}" + rest))
    ensures ParseMembers(s) == Some(([member], rest))
  {
    hide ParseMember, Expect;
    ExpectFinds('}', rest);
    assert "}" + rest == ['}'] + rest;
  }

  lemma ParseMoreMembers(s: string, member: Member, comma: string, others: string, members: seq<Member>, rest: string)
    requires IsComma(comma) && ParseMember(s) == Some((member, comma + others))
    requires ParseMembers(others) == Some((members, rest))
    ensures ParseMembers(s) == Some(([member] + members, rest))
  {
    hide ParseMember, Expect;
    ExpectComma(comma, others);
  }

  lemma JoinStep(parts: seq<string>, separator: string, end: string)
    requires |parts| > 1
    ensures Join(parts, separator) + end == parts[0] + (separator + (Join(parts[1..], separator) + end))
  {
  }

  lemma {:induction false} FieldsParse(
    fields: seq<Field>, values: seq<Json>, colon: string, comma: string, rest: string)
    requires fields != [] && FieldsRead(fields, values) && IsColon(colon) && IsComma(comma)
    ensures ParseMembers(Join(FieldTexts(fields, colon), comma) + ("}" + rest)) == Some((Zip(fields, values), rest))
  {
    hide ParseMembers, ParseMember, FieldText, Reads;
    var texts, end, member := FieldTexts(fields, colon), "}" + rest, Member(fields[0].key, values[0]);
    if |fields| == 1 {
      FieldReads(fields[0], values[0], colon, end);
      ParseOneMember(texts[0] + end, member, rest);
      assert Zip(fields, values) == [member];
    } else {
      var others := Join(texts[1..], comma) + end;
      assert texts[1..] == FieldTexts(fields[1..], colon);
      JoinStep(texts, comma, end);
      ExpectComma(comma, others);
      FieldReads(fields[0], values[0], colon, comma + others);
      FieldsParse(fields[1..], values[1..], colon, comma, rest);
      ParseMoreMembers(texts[0] + (comma + others), member, comma, others, Zip(fields[1..], values[1..]), rest);
      assert Zip(fields, values) == [member] + Zip(fields[1..], values[1..]);
    }
  }

  lemma ExpectComma(comma: string, s: string)
    requires IsComma(comma)
    ensures Expect(comma + s, '}') == None && Expect(comma + s, ']') == None && Expect(comma + s, ',').Some?
    ensures ParseMembers(Expect(comma + s, ',').value) == ParseMembers(s)
    ensures ParseItems(Expect(comma + s, ',').value) == ParseItems(s)
    ensures Delimited(comma + s)
  {
    if comma == "," {
      ExpectFinds(',', s);
    } else {
      assert comma + s == [','] + (" " + s);
      ExpectFinds(',', " " + s);
      SpaceIsSkipped(s);
    }
  }

  lemma ParsesObject(inner: string, members: seq<Member>, rest: string)
    requires if members == [] then inner == ['}'] + rest
             else Expect(inner, '}') == None && ParseMembers(inner) == Some((members, rest))
    ensures ParseValue(['{'] + inner) == Some((Obj(members), rest))
  {
    hide ParseMembers;
    var text := ['{'] + inner;
    assert Skip(text) == text && text[1..] == inner;
    ExpectFinds('}', rest);
  }

  /** Fields that denote their values, joined in either engine's spacing, denote the object in that order. */
  lemma ObjectReads(fields: seq<Field>, values: seq<Json>, colon: string, comma: string)
    requires FieldsRead(fields, values) && IsColon(colon) && IsComma(comma)
    ensures Reads(ObjectText(fields, colon, comma), Obj(Zip(fields, values)))
  {
    hide ParseMembers, ParseValue, FieldText;
    var text := ObjectText(fields, colon, comma);
    forall rest | Delimited(rest) ensures ParseValue(text + rest) == Some((Obj(Zip(fields, values)), rest)) {
      var inner := Join(FieldTexts(fields, colon), comma) + ("}" + rest);
      assert text + rest == ['{'] + inner;
      if fields == [] {
        assert inner == ['}'] + rest;
      } else {
        FieldsParse(fields, values, colon, comma, rest);
        FirstFieldIsNoBrace(fields, colon, comma, "}" + rest);
      }
      ParsesObject(inner, Zip(fields, values), rest);
    }
  }

  lemma FirstFieldIsNoBrace(fields: seq<Field>, colon: string, comma: string, end: string)
    requires fields != []
    ensures Expect(Join(FieldTexts(fields, colon), comma) + end, '}') == None
  {
    var s := Join(FieldTexts(fields, colon), comma) + end;
    assert FieldTexts(fields, colon)[0] == FieldText(fields[0], colon);
    assert s[0] == '\"';
  }

  // ----- Arrays

  function ArrayText(texts: seq<string>, comma: string): string { "[" + Join(texts, comma) + "]" }

  lemma ParseOneItem(s: string, item: Json, rest: string)
    requires ParseValue(s) == Some((item, "]" + rest))
    ensures ParseItems(s) == Some(([item], rest))
  {
    hide ParseValue, Expect;
    ExpectFinds(']', rest);
    assert "]" + rest == [']'] + rest;
  }

  lemma ParseMoreItems(s: string, item: Json, comma: string, others: string, items: seq<Json>, rest: string)
    requires IsComma(comma) && ParseValue(s) == Some((item, comma + others))
    requires ParseItems(others) == Some((items, rest))
    ensures ParseItems(s) == Some(([item] + items, rest))
  {
    hide ParseValue, Expect;
    ExpectComma(comma, others);
  }

  lemma {:induction false} ItemsParse(texts: seq<string>, values: seq<Json>, comma: string, rest: string)
    requires texts != [] && AllRead(texts, values) && IsComma(comma)
    ensures ParseItems(Join(texts, comma) + ("]" + rest)) == Some((values, rest))
  {
    hide ParseItems, ParseValue;
    var end := "]" + rest;
    assert Reads(texts[0], values[0]);
    if |texts| == 1 {
      ParseOneItem(texts[0] + end, values[0], rest);
      assert values == [values[0]];
    } else {
      var others := Join(texts[1..], comma) + end;
      JoinStep(texts, comma, end);
      ExpectComma(comma, others);
      ItemsParse(texts[1..], values[1..], comma, rest);
      ParseMoreItems(texts[0] + (comma + others), values[0], comma, others, values[1..], rest);
      assert values == [values[0]] + values[1..];
    }
  }

  /** No value starts with a closing bracket. */
  lemma ValueIsNoBracket(s: string)
    requires ParseItems(s).Some?
    ensures Expect(s, ']') == None
  {
  }

  lemma ParsesArray(inner: string, items: seq<Json>, rest: string)
    requires if items == [] then inner == [']'] + rest
             else Expect(inner, ']') == None && ParseItems(inner) == Some((items, rest))
    ensures ParseValue(['['] + inner) == Some((Arr(items), rest))
  {
    hide ParseItems;
    var text := ['['] + inner;
    assert Skip(text) == text && text[1..] == inner;
    ExpectFinds(']', rest);
  }

  lemma ArrayReads(texts: seq<string>, values: seq<Json>, comma: string)
    requires AllRead(texts, values) && IsComma(comma)
    ensures Reads(ArrayText(texts, comma), Arr(values))
  {
    hide ParseItems, ParseValue;
    var text := ArrayText(texts, comma);
    forall rest | Delimited(rest) ensures ParseValue(text + rest) == Some((Arr(values), rest)) {
      var inner := Join(texts, comma) + ("]" + rest);
      assert text + rest == ['['] + inner;
      if texts == [] {
        assert inner == [']'] + rest;
      } else {
        ItemsParse(texts, values, comma, rest);
        ValueIsNoBracket(inner);
      }
      ParsesArray(inner, values, rest);
    }
  }

  // ----- The compact printer

  function Print(value: Json): string {
    match value
    case Atom(token) => token
    case Str(text) => PrintString(text)
    case Arr(items) => ArrayText(seq(|items|, i requires 0 <= i < |items| => Print(items[i])), ",")
    case Obj(members) =>
      var fields := seq(|members|, i requires 0 <= i < |members| => Field(members[i].key, Print(members[i].value)));
      ObjectText(fields, ":", ",")
  }

  ghost predicate Printable(value: Json) {
    match value
    case Atom(token) => IsAtom(token)
    case Str(_) => true
    case Arr(items) => forall item | item in items :: Printable(item)
    case Obj(members) => forall m | m in members :: Printable(m.value)
  }

  /** Printing a value and reading it back gives the value, for every value made of well-formed tokens. */
  lemma {:induction false} PrintReads(value: Json)
    requires Printable(value)
    ensures Reads(Print(value), value)
  {
    match value
    case Atom(token) => AtomReads(token);
    case Str(text) => StringReads(text);
    case Arr(items) =>
      var texts := seq(|items|, i requires 0 <= i < |items| => Print(items[i]));
      forall i | 0 <= i < |items| ensures Reads(texts[i], items[i]) {
        PrintReads(items[i]);
      }
      ArrayReads(texts, items, ",");
    case Obj(members) =>
      var fields := seq(|members|, i requires 0 <= i < |members| => Field(members[i].key, Print(members[i].value)));
      var values := seq(|members|, i requires 0 <= i < |members| => members[i].value);
      forall i | 0 <= i < |members| ensures Reads(fields[i].text, values[i]) {
        PrintReads(members[i].value);
      }
      ObjectReads(fields, values, ":", ",");
      assert Zip(fields, values) == members;
  }
}
