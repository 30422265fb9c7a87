/**
 * JSON values with ordered, possibly repeated keys: printing, and a reader for the texts the engines produce
 * (RFC 8259). `Reads` says a text denotes a value wherever it stands.
 */
module Json {
  import opened Wrappers

  /** Numbers, booleans and null are kept as the token that spells them. */
  datatype Json =
    | Atom(token: string)
    | Str(text: string)
    | Arr(items: seq<Json>)
    | Obj(members: seq<Member>)

  datatype Member = Member(key: string, value: Json)

  const NULL: Json := Atom("null")

  // ----- Strings

  function HexDigit(n: int): char
    requires 0 <= n < 16
  {
    "0123456789abcdef"[n]
  }

  function HexValue(c: char): Option<int> {
    if '0' <= c <= '9' then Some(c as int - '0' as int)
    else if 'a' <= c <= 'f' then Some(c as int - 'a' as int + 10)
    else if 'A' <= c <= 'F' then Some(c as int - 'A' as int + 10)
    else None
  }

  /** The escapes of `serde_json`, which are also Postgres's. */
  function EscapeChar(c: char): string {
    match c
    case '\"' => "\\\""
    case '\\' => "\\\\"
    case '\U{8}' => "\\b"
    case '\U{C}' => "\\f"
    case '\n' => "\\n"
    case '\r' => "\\r"
    case '\t' => "\\t"
    case _ =>
      if c as int < 0x20 then ['\\', 'u', '0', '0', HexDigit(c as int / 16), HexDigit(c as int % 16)] else [c]
  }

  function EscapeString(s: string): string {
    if s == "" then "" else EscapeChar(s[0]) + EscapeString(s[1..])
  }

  function PrintString(s: string): string { "\"" + EscapeString(s) + "\"" }

  function ReadHex4(s: string): Option<char> {
    if |s| < 4 then None
    else match (HexValue(s[0]), HexValue(s[1]), HexValue(s[2]), HexValue(s[3]))
      case (Some(a), Some(b), Some(c), Some(d)) =>
        var v := ((a * 16 + b) * 16 + c) * 16 + d;
        if 0 <= v < 0xD800 then Some(v as char) else None
      case _ => None
  }

  function Unescape(c: char): Option<char> {
    match c
    case '\"' => Some('\"')
    case '\\' => Some('\\')
    case '/' => Some('/')
    case 'b' => Some('\U{8}')
    case 'f' => Some('\U{C}')
    case 'n' => Some('\n')
    case 'r' => Some('\r')
    case 't' => Some('\t')
    case _ => None
  }

  function Prefixed(c: char, r: Option<(string, string)>): Option<(string, string)> {
    match r
    case None => None
    case Some((text, rest)) => Some(([c] + text, rest))
  }

  /** A string's content up to its closing quote, and what follows. */
  function ReadString(s: string): (r: Option<(string, string)>)
    ensures r.Some? ==> |r.value.1| < |s|
  {
    if s == "" || s[0] as int < 0x20 then None
    else if s[0] == '\"' then Some(("", s[1..]))
    else if s[0] != '\\' then Prefixed(s[0], ReadString(s[1..]))
    else if |s| == 1 then None
    else if s[1] == 'u' then
      match ReadHex4(s[2..])
      case None => None
      case Some(c) => Prefixed(c, ReadString(s[6..]))
    else
      match Unescape(s[1])
      case None => None
      case Some(c) => Prefixed(c, ReadString(s[2..]))
  }

  lemma HexDigitReadsBack(n: int)
    requires 0 <= n < 16
    ensures HexValue(HexDigit(n)) == Some(n)
  {
  }

  lemma HexPairReadsBack(c: char, s: string)
    requires c as int < 0x20 && |s| >= 4 && s[0] == '0' && s[1] == '0'
    requires s[2] == HexDigit(c as int / 16) && s[3] == HexDigit(c as int % 16)
    ensures ReadHex4(s) == Some(c)
  {
    assert HexValue('0') == Some(0);
    HexDigitReadsBack(c as int / 16);
    HexDigitReadsBack(c as int % 16);
    hide HexDigit, HexValue;
  }

  lemma ReadsControlEscape(c: char, s: string)
    requires c as int < 0x20 && |s| >= 6 && s[0] == '\\' && s[1] == 'u' && s[2] == '0' && s[3] == '0'
    requires s[4] == HexDigit(c as int / 16) && s[5] == HexDigit(c as int % 16)
    ensures ReadString(s) == Prefixed(c, ReadString(s[6..]))
  {
    HexPairReadsBack(c, s[2..]);
    hide ReadHex4, HexDigit;
  }

  lemma ReadsEscapedChar(c: char, rest: string)
    ensures ReadString(EscapeChar(c) + rest) == Prefixed(c, ReadString(rest))
  {
    var e := EscapeChar(c);
    var text := e + rest;
    assert text[|e|..] == rest;
    if |e| == 6 {
      assert forall i | 0 <= i < 6 :: text[i] == e[i];
      ReadsControlEscape(c, text);
    } else if |e| == 2 {
      assert text[0] == e[0] && text[1] == e[1];
    } else {
      assert text[0] == c;
    }
  }

  /** Escaping a string and reading it back gives the string. */
  lemma {:induction false} ReadStringInvertsEscape(s: string, rest: string)
    ensures ReadString(EscapeString(s) + ("\"" + rest)) == Some((s, rest))
  {
    var end := "\"" + rest;
    if s == "" {
      assert "" + end == end && end[1..] == rest;
    } else {
      assert EscapeString(s) + end == EscapeChar(s[0]) + (EscapeString(s[1..]) + end);
      ReadsEscapedChar(s[0], EscapeString(s[1..]) + end);
      ReadStringInvertsEscape(s[1..], rest);
      assert [s[0]] + s[1..] == s;
    }
  }

  // ----- Values

  predicate IsSpace(c: char) { c in {' ', '\n', '\r', '\t'} }

  predicate IsAtomChar(c: char) {
    'a' <= c <= 'z' || 'A' <= c <= 'Z' || '0' <= c <= '9' || c in {'+', '-', '.'}
  }

  function Skip(s: string): (r: string)
    ensures |r| <= |s|
  {
    if s != "" && IsSpace(s[0]) then Skip(s[1..]) else s
  }

  function AtomLength(s: string): (n: nat)
    ensures n <= |s|
    ensures forall i | 0 <= i < n :: IsAtomChar(s[i])
    ensures n < |s| ==> !IsAtomChar(s[n])
  {
    if s != "" && IsAtomChar(s[0]) then 1 + AtomLength(s[1..]) else 0
  }

  function Expect(s: string, c: char): (r: Option<string>)
    ensures r.Some? ==> |r.value| < |s|
  {
    var t := Skip(s);
    if t != "" && t[0] == c then Some(t[1..]) else None
  }

  function ParseValue(s: string): (r: Option<(Json, string)>)
    ensures r.Some? ==> |r.value.1| < |s|
    decreases |s|, 0
  {
    var t := Skip(s);
    if t == "" then None
    else if t[0] == '\"' then
      match ReadString(t[1..])
      case None => None
      case Some((text, rest)) => Some((Str(text), rest))
    else if t[0] == '[' then
      if Expect(t[1..], ']').Some? then Some((Arr([]), Expect(t[1..], ']').value))
      else match ParseItems(t[1..])
        case None => None
        case Some((items, rest)) => Some((Arr(items), rest))
    else if t[0] == '{' then
      if Expect(t[1..], '}').Some? then Some((Obj([]), Expect(t[1..], '}').value))
      else match ParseMembers(t[1..])
        case None => None
        case Some((members, rest)) => Some((Obj(members), rest))
    else
      var n := AtomLength(t);
      if n == 0 then None else Some((Atom(t[..n]), t[n..]))
  }

  function ParseItems(s: string): (r: Option<(seq<Json>, string)>)
    ensures r.Some? ==> |r.value.1| < |s|
    decreases |s|, 1
  {
    match ParseValue(s)
    case None => None
    case Some((item, next)) =>
      if Expect(next, ']').Some? then Some(([item], Expect(next, ']').value))
      else match Expect(next, ',')
        case None => None
        case Some(more) =>
          match ParseItems(more)
          case None => None
          case Some((items, rest)) => Some(([item] + items, rest))
  }

  function ParseMember(s: string): (r: Option<(Member, string)>)
    ensures r.Some? ==> |r.value.1| < |s|
    decreases |s|, 1
  {
    match Expect(s, '\"')
    case None => None
    case Some(body) =>
      match ReadString(body)
      case None => None
      case Some((key, next)) =>
        match Expect(next, ':')
        case None => None
        case Some(more) =>
          match ParseValue(more)
          case None => None
          case Some((value, rest)) => Some((Member(key, value), rest))
  }

  function ParseMembers(s: string): (r: Option<(seq<Member>, string)>)
    ensures r.Some? ==> |r.value.1| < |s|
    decreases |s|, 2
  {
    match ParseMember(s)
    case None => None
    case Some((member, next)) =>
      if Expect(next, '}').Some? then Some(([member], Expect(next, '}').value))
      else match Expect(next, ',')
        case None => None
        case Some(more) =>
          match ParseMembers(more)
          case None => None
          case Some((members, rest)) => Some(([member] + members, rest))
  }

  /** The value a whole text denotes. */
  function Parse(s: string): Option<Json> {
    match ParseValue(s)
    case None => None
    case Some((value, rest)) => if Skip(rest) == "" then Some(value) else None
  }
}
