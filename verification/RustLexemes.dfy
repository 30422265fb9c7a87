/**
 * The grammar of what blanking hides: comments and literals as trees with a printer, and how they stand in a text.
 *
 * Nothing here scans. A text is a list of pieces, each an octet of code or a lexeme; a lexeme is well formed by
 * itself or by what stands around it.
 */
module RustLexemes {
  import opened Utf8
  import opened RustBlank

  // ----- Block comments

  /** The inside of a block comment: octets, and whole comments of its own. */
  datatype Part = Octet(octet: byte) | Nested(parts: seq<Part>)

  function PrintPart(part: Part): Bytes {
    match part
    case Octet(octet) => [octet]
    case Nested(parts) => [SLASH, STAR] + PrintParts(parts) + [STAR, SLASH]
  }

  function PrintParts(parts: seq<Part>): Bytes {
    if parts == [] then [] else PrintPart(parts[0]) + PrintParts(parts[1..])
  }

  /** The parts stand at an offset, and none of their single octets belongs to a comment mark. */
  ghost predicate IsBody(data: Bytes, at: nat, parts: seq<Part>)
    decreases parts
  {
    if parts == [] then at <= |data|
    else
      && match parts[0] {
           case Octet(octet) =>
             At(data, at, octet) && !At2(data, at, SLASH, STAR) && !At2(data, at, STAR, SLASH)
           case Nested(inner) =>
             && At2(data, at, SLASH, STAR) && IsBody(data, at + 2, inner)
             && At2(data, at + 2 + |PrintParts(inner)|, STAR, SLASH)
         }
      && IsBody(data, at + |PrintPart(parts[0])|, parts[1..])
  }

  /** The insides of comments that the text ends before closing, the outermost first. */
  function PrintLevels(levels: seq<seq<Part>>): Bytes {
    if levels == [] then []
    else if |levels| == 1 then PrintParts(levels[0])
    else PrintParts(levels[0]) + [SLASH, STAR] + PrintLevels(levels[1..])
  }

  ghost predicate AreOpen(data: Bytes, at: nat, levels: seq<seq<Part>>)
    decreases |levels|
  {
    && levels != [] && IsBody(data, at, levels[0])
    && var next := at + |PrintParts(levels[0])|;
       if |levels| == 1 then next == |data|
       else At2(data, next, SLASH, STAR) && AreOpen(data, next + 2, levels[1..])
  }

  // ----- Strings

  datatype Element = Plain(octet: byte) | Escaped(octet: byte)

  predicate IsElement(e: Element) { e.Plain? ==> e.octet != QUOTE && e.octet != BACKSLASH }

  function PrintElement(e: Element): Bytes {
    match e
    case Plain(octet) => [octet]
    case Escaped(octet) => [BACKSLASH, octet]
  }

  function PrintElements(elements: seq<Element>): Bytes {
    if elements == [] then [] else PrintElement(elements[0]) + PrintElements(elements[1..])
  }

  const STRING_PREFIXES: seq<Bytes> := [[], [98], [99]]  // none, b, c

  predicate Contains(data: Bytes, pattern: Bytes) { exists i | 0 <= i <= |data| :: StartsWith(data, pattern, i) }

  function Hashes(n: nat): (r: Bytes)
    ensures |r| == n && forall i | 0 <= i < n :: r[i] == HASH
  {
    seq(n, _ => HASH)
  }

  function RawOpening(prefix: Bytes, hashes: nat): Bytes { prefix + Hashes(hashes) + [QUOTE] }

  // ----- Characters

  /** A hexadecimal digit of `\u{...}`, with a single underscore after it or none. */
  datatype Digit = Digit(octet: byte, underscored: bool)

  datatype Content =
    | Scalar(c: char)
    | Simple(octet: byte)
    | Hex(high: byte, low: byte)
    | Unicode(digits: seq<Digit>)

  function PrintDigits(digits: seq<Digit>): Bytes {
    if digits == [] then []
    else [digits[0].octet] + (if digits[0].underscored then [95] else []) + PrintDigits(digits[1..])
  }

  predicate AreDigits(digits: seq<Digit>) { forall d | d in digits :: IsHexDigit(d.octet) }

  function DigitsValue(digits: seq<Digit>): nat
    requires AreDigits(digits)
  {
    if digits == [] then 0
    else
      var last := |digits| - 1;
      16 * DigitsValue(digits[..last]) + HexValue(digits[last].octet)
  }

  function PrintContent(content: Content): Bytes {
    match content
    case Scalar(c) => EncodeChar(c)
    case Simple(octet) => [BACKSLASH, octet]
    case Hex(high, low) => [BACKSLASH, 120, high, low]
    case Unicode(digits) => [BACKSLASH, 117, 123] + PrintDigits(digits) + [125]
  }

  /** The contents Rust has for a character literal, or for a byte literal. */
  predicate IsContent(content: Content, byteCharacter: bool) {
    match content
    case Scalar(c) => c !in {'\n', '\r', '\'', '\\'} && (byteCharacter ==> c < '\U{80}')
    case Simple(octet) => octet in {110, 114, 116, 48, BACKSLASH, APOSTROPHE, QUOTE}  // n r t 0 \ ' "
    case Hex(high, low) =>
      && IsHexDigit(high) && IsHexDigit(low)
      && (!byteCharacter ==> HexValue(high) * 16 + HexValue(low) <= 0x7F)
    case Unicode(digits) =>
      && !byteCharacter && 1 <= |digits| <= 6 && AreDigits(digits)
      && !digits[|digits| - 1].underscored
      && DigitsValue(digits) <= 0x10FFFF && !(0xD800 <= DigitsValue(digits) <= 0xDFFF)
  }

  // ----- Lexemes

  datatype Lexeme =
    | LineComment(text: Bytes)
    | BlockComment(parts: seq<Part>)
    | OpenComment(levels: seq<seq<Part>>)
    | RawString(prefix: Bytes, hashes: nat, content: Bytes)
    | OpenRawString(prefix: Bytes, hashes: nat, content: Bytes)
    | StringLiteral(prefix: Bytes, elements: seq<Element>)
    | OpenString(prefix: Bytes, elements: seq<Element>, dangling: bool)  // dangling: ends in a lone backslash
    | Character(byteCharacter: bool, character: Content)

  function Print(l: Lexeme): Bytes {
    match l
    case LineComment(text) => [SLASH, SLASH] + text
    case BlockComment(parts) => [SLASH, STAR] + PrintParts(parts) + [STAR, SLASH]
    case OpenComment(levels) => [SLASH, STAR] + PrintLevels(levels)
    case RawString(prefix, hashes, content) => RawOpening(prefix, hashes) + content + Terminator(hashes)
    case OpenRawString(prefix, hashes, content) => RawOpening(prefix, hashes) + content
    case StringLiteral(prefix, elements) => prefix + [QUOTE] + PrintElements(elements) + [QUOTE]
    case OpenString(prefix, elements, dangling) =>
      prefix + [QUOTE] + PrintElements(elements) + (if dangling then [BACKSLASH] else [])
    case Character(byteCharacter, character) =>
      (if byteCharacter then [98] else []) + [APOSTROPHE] + PrintContent(character) + [APOSTROPHE]
  }

  /** A lexeme stands at an offset: its text is there, it is well formed, and what is around it fits. */
  ghost predicate StandsAt(data: Bytes, at: nat, l: Lexeme) {
    && at < |data| && StartsWith(data, Print(l), at)
    && var end := at + |Print(l)|;
       match l
       case LineComment(text) => LF !in text && (end == |data| || data[end] == LF)
       case BlockComment(parts) => IsBody(data, at + 2, parts)
       case OpenComment(levels) => AreOpen(data, at + 2, levels)
       case RawString(prefix, hashes, content) => prefix in RAW_PREFIXES && !Contains(content, Terminator(hashes))
       case OpenRawString(prefix, hashes, content) =>
         prefix in RAW_PREFIXES && !Contains(content, Terminator(hashes)) && end == |data|
       case StringLiteral(prefix, elements) => prefix in STRING_PREFIXES && forall e | e in elements :: IsElement(e)
       case OpenString(prefix, elements, _) =>
         prefix in STRING_PREFIXES && (forall e | e in elements :: IsElement(e)) && end == |data|
       case Character(byteCharacter, character) =>
         IsContent(character, byteCharacter) && !FollowsIdentifier(data, at)
  }

  // ----- Whole texts

  datatype Piece = Code(octet: byte) | Hidden(lexeme: Lexeme)

  function PrintPiece(p: Piece): Bytes {
    match p
    case Code(octet) => [octet]
    case Hidden(l) => Print(l)
  }

  function PrintPieces(pieces: seq<Piece>): Bytes {
    if pieces == [] then [] else PrintPiece(pieces[0]) + PrintPieces(pieces[1..])
  }

  /** A piece stands at an offset: code is an octet that no lexeme stands at. */
  ghost predicate IsPiece(data: Bytes, at: nat, p: Piece) {
    && at < |data|
    && match p {
         case Code(octet) => data[at] == octet && forall l :: !StandsAt(data, at, l)
         case Hidden(l) => StandsAt(data, at, l)
       }
  }

  /** The pieces make up the text from an offset on. */
  ghost predicate IsLexing(data: Bytes, at: nat, pieces: seq<Piece>)
    decreases |pieces|
  {
    if pieces == [] then at == |data|
    else IsPiece(data, at, pieces[0]) && IsLexing(data, at + |PrintPiece(pieces[0])|, pieces[1..])
  }

  /** Spaces for everything but line ends. */
  function Spaced(text: Bytes): (r: Bytes)
    ensures |r| == |text|
  {
    seq(|text|, i requires 0 <= i < |text| => if text[i] == LF || text[i] == CR then text[i] else SPACE)
  }

  function BlankPiece(p: Piece): Bytes {
    match p
    case Code(octet) => [octet]
    case Hidden(l) => Spaced(Print(l))
  }

  /** The text with its lexemes spaced out and its code as it was. */
  function BlankPieces(pieces: seq<Piece>): Bytes {
    if pieces == [] then [] else BlankPiece(pieces[0]) + BlankPieces(pieces[1..])
  }
}
