/**
 * Blanking the comments and literals of Rust source text, so that what is left can be searched for code.
 *
 * `Match` says where a comment or literal that starts at an offset ends; `Spans` lists those the scan finds
 * from left to right; `Painted` overwrites them. The methods are the in-place loops.
 */
module RustBlank {
  import opened Wrappers
  import opened Utf8

  const LF: byte := 10
  const CR: byte := 13
  const SPACE: byte := 32
  const QUOTE: byte := 34
  const HASH: byte := 35
  const APOSTROPHE: byte := 39
  const STAR: byte := 42
  const SLASH: byte := 47
  const BACKSLASH: byte := 92

  predicate At(data: Bytes, offset: nat, octet: byte) { offset < |data| && data[offset] == octet }

  predicate At2(data: Bytes, offset: nat, first: byte, second: byte) {
    At(data, offset, first) && At(data, offset + 1, second)
  }

  // ----- Comments

  /** The offset of the first `octet` at or after `from`, or the end. */
  function IndexOrEnd(data: Bytes, octet: byte, from: nat): (end: nat)
    requires from <= |data|
    ensures from <= end <= |data|
    ensures end < |data| ==> data[end] == octet
    ensures forall i | from <= i < end :: data[i] != octet
    decreases |data| - from
  {
    if from == |data| || data[from] == octet then from else IndexOrEnd(data, octet, from + 1)
  }

  /** Block comments nest; an unterminated one runs to the end. */
  function BlockEnd(data: Bytes, cursor: nat, depth: nat): (end: nat)
    requires cursor <= |data|
    ensures cursor <= end <= |data|
    ensures depth > 0 && end < |data| ==> cursor < end && data[end - 1] == SLASH
    decreases |data| - cursor
  {
    if cursor == |data| || depth == 0 then cursor
    else if At2(data, cursor, SLASH, STAR) then BlockEnd(data, cursor + 2, depth + 1)
    else if At2(data, cursor, STAR, SLASH) then BlockEnd(data, cursor + 2, depth - 1)
    else BlockEnd(data, cursor + 1, depth)
  }

  // ----- Raw strings

  function AfterHashes(data: Bytes, cursor: nat): (end: nat)
    requires cursor <= |data|
    ensures cursor <= end <= |data|
    ensures forall i | cursor <= i < end :: data[i] == HASH
    ensures !At(data, end, HASH)
    decreases |data| - cursor
  {
    if At(data, cursor, HASH) then AfterHashes(data, cursor + 1) else cursor
  }

  const RAW_PREFIXES: seq<Bytes> := [[98, 114], [114, 98], [99, 114], [114, 99], [114]]  // br rb cr rc r

  predicate StartsWith(data: Bytes, prefix: Bytes, offset: nat) {
    offset + |prefix| <= |data| && data[offset..offset + |prefix|] == prefix
  }

  /** With one prefix: where the content starts, and how many hashes the closing quote needs. */
  function RawStartAfter(data: Bytes, offset: nat, prefix: Bytes): (r: Option<(nat, nat)>)
    ensures r.Some? ==>
      offset + |prefix| + r.value.1 + 1 == r.value.0 <= |data| && data[r.value.0 - 1] == QUOTE
  {
    if !StartsWith(data, prefix, offset) then None
    else
      var cursor := AfterHashes(data, offset + |prefix|);
      if At(data, cursor, QUOTE) then Some((cursor + 1, cursor - (offset + |prefix|))) else None
  }

  function RawStartFrom(data: Bytes, offset: nat, prefixes: seq<Bytes>): (r: Option<(nat, nat)>)
    ensures r.Some? ==> offset + r.value.1 + 1 <= r.value.0 <= |data|
  {
    if prefixes == [] then None
    else
      var first := RawStartAfter(data, offset, prefixes[0]);
      if first.Some? then first else RawStartFrom(data, offset, prefixes[1..])
  }

  function RawStart(data: Bytes, offset: nat): Option<(nat, nat)> {
    RawStartFrom(data, offset, RAW_PREFIXES)
  }

  function Terminator(hashes: nat): (r: Bytes)
    ensures |r| == hashes + 1 && r[0] == QUOTE && forall i | 1 <= i <= hashes :: r[i] == HASH
  {
    [QUOTE] + seq(hashes, _ => HASH)
  }

  /** Just past the first occurrence of `pattern` at or after `from`, or the end. */
  function PastOrEnd(data: Bytes, pattern: Bytes, from: nat): (end: nat)
    requires from <= |data| && pattern != []
    ensures from <= end <= |data|
    ensures end < |data| ==> from + |pattern| <= end
    ensures end < |data| ==> forall i | 0 <= i < |pattern| :: data[end - |pattern| + i] == pattern[i]
    decreases |data| - from
  {
    if from == |data| then from
    else if StartsWith(data, pattern, from) then
      assert forall i | 0 <= i < |pattern| :: data[from..from + |pattern|][i] == pattern[i];
      from + |pattern|
    else PastOrEnd(data, pattern, from + 1)
  }

  // ----- Strings

  function StringStart(data: Bytes, offset: nat): (r: Option<nat>)
    ensures r.Some? ==> offset < r.value <= |data|
  {
    if At(data, offset, QUOTE) then Some(offset + 1)
    else if At2(data, offset, 98, QUOTE) || At2(data, offset, 99, QUOTE) then Some(offset + 2)
    else None
  }

  function StringEnd(data: Bytes, cursor: nat, escaped: bool): (end: nat)
    requires cursor <= |data|
    ensures cursor <= end <= |data|
    ensures end < |data| ==> cursor < end && data[end - 1] == QUOTE
    decreases |data| - cursor
  {
    if cursor == |data| then cursor
    else if escaped then StringEnd(data, cursor + 1, false)
    else if data[cursor] == BACKSLASH then StringEnd(data, cursor + 1, true)
    else if data[cursor] == QUOTE then cursor + 1
    else StringEnd(data, cursor + 1, false)
  }

  // ----- Characters

  function ScalarWidth(first: byte): nat {
    if 0xC2 <= first <= 0xDF then 2
    else if 0xE0 <= first <= 0xEF then 3
    else if 0xF0 <= first <= 0xF4 then 4
    else 0
  }

  function ScalarEnd(data: Bytes, offset: nat): (r: Option<nat>)
    ensures r.Some? ==> offset < r.value <= |data|
  {
    if offset >= |data| then None
    else if data[offset] < 0x80 then
      if data[offset] in {LF, CR, APOSTROPHE, BACKSLASH} then None else Some(offset + 1)
    else
      var width := ScalarWidth(data[offset]);
      if width == 0 || offset + width > |data| || !Valid(data[offset..offset + width]) then None
      else Some(offset + width)
  }

  predicate IsHexDigit(b: byte) { 48 <= b <= 57 || 97 <= b <= 102 || 65 <= b <= 70 }

  function HexValue(b: byte): nat
    requires IsHexDigit(b)
  {
    if b <= 57 then b - 48 else if b <= 70 then b - 55 else b - 87
  }

  /** The digits and closing brace of `\u{...}`: at most six digits, single underscores only between them. */
  function UnicodeEscapeEnd(data: Bytes, cursor: nat, digits: nat, value: nat, underscore: bool): (r: Option<nat>)
    ensures r.Some? ==> cursor < r.value <= |data|
    decreases |data| - cursor
  {
    if cursor >= |data| then None
    else if data[cursor] == 125 then
      if digits == 0 || underscore || digits > 6 || value > 0x10FFFF || 0xD800 <= value <= 0xDFFF then None
      else Some(cursor + 1)
    else if IsHexDigit(data[cursor]) then
      UnicodeEscapeEnd(data, cursor + 1, digits + 1, value * 16 + HexValue(data[cursor]), false)
    else if data[cursor] == 95 && digits > 0 && !underscore then
      UnicodeEscapeEnd(data, cursor + 1, digits, value, true)
    else None
  }

  function EscapeEnd(data: Bytes, offset: nat, byteCharacter: bool): (r: Option<nat>)
    ensures r.Some? ==> offset < r.value <= |data|
  {
    if !At(data, offset, BACKSLASH) || offset + 1 >= |data| then None
    else if data[offset + 1] in {110, 114, 116, 48, BACKSLASH, APOSTROPHE, QUOTE} then Some(offset + 2)
    else if data[offset + 1] == 120 then
      if offset + 4 > |data| || !IsHexDigit(data[offset + 2]) || !IsHexDigit(data[offset + 3]) then None
      else if !byteCharacter && HexValue(data[offset + 2]) * 16 + HexValue(data[offset + 3]) > 0x7F then None
      else Some(offset + 4)
    else if byteCharacter || data[offset + 1] != 117 || !At(data, offset + 2, 123) then None
    else UnicodeEscapeEnd(data, offset + 3, 0, 0, false)
  }

  function CharacterEnd(data: Bytes, offset: nat, byteCharacter: bool): (r: Option<nat>)
    ensures r.Some? ==> offset + 1 < r.value <= |data| && data[r.value - 1] == APOSTROPHE
  {
    if offset >= |data| then None
    else
      var end := if data[offset] == BACKSLASH then EscapeEnd(data, offset, byteCharacter)
                 else if byteCharacter && data[offset] >= 0x80 then None
                 else ScalarEnd(data, offset);
      if end.Some? && At(data, end.value, APOSTROPHE) then Some(end.value + 1) else None
  }

  predicate IsIdentifierOctet(b: byte) {
    b >= 0x80 || 48 <= b <= 57 || 65 <= b <= 90 || 97 <= b <= 122 || b == 95
  }

  predicate FollowsIdentifier(data: Bytes, offset: nat)
    requires offset <= |data|
  {
    offset > 0 && IsIdentifierOctet(data[offset - 1])
  }

  /** Lifetimes are told from characters by the closing quote alone. */
  function CharacterMatch(data: Bytes, offset: nat): (r: Option<nat>)
    requires offset < |data|
    ensures r.Some? ==> offset + 2 < r.value <= |data| && data[r.value - 1] == APOSTROPHE
  {
    if At2(data, offset, 98, APOSTROPHE) && !FollowsIdentifier(data, offset) then
      CharacterEnd(data, offset + 2, true)
    else if At(data, offset, APOSTROPHE) && !FollowsIdentifier(data, offset) then
      CharacterEnd(data, offset + 1, false)
    else None
  }

  /** The end of the comment or literal that starts at `offset`, if one does. */
  function Match(data: Bytes, offset: nat): (r: Option<nat>)
    requires offset < |data|
    ensures r.Some? ==> offset < r.value <= |data|
  {
    if At2(data, offset, SLASH, SLASH) then Some(IndexOrEnd(data, LF, offset + 2))
    else if At2(data, offset, SLASH, STAR) then Some(BlockEnd(data, offset + 2, 1))
    else if RawStart(data, offset).Some? then
      var (content, hashes) := RawStart(data, offset).value;
      Some(PastOrEnd(data, Terminator(hashes), content))
    else if StringStart(data, offset).Some? then Some(StringEnd(data, StringStart(data, offset).value, false))
    else CharacterMatch(data, offset)
  }

  datatype Span = Span(start: nat, end: nat)

  /** The comments and literals found by scanning from `from` to the end. */
  function Spans(data: Bytes, from: nat): seq<Span>
    requires from <= |data|
    decreases |data| - from
  {
    if from == |data| then []
    else match Match(data, from)
      case Some(end) => [Span(from, end)] + Spans(data, end)
      case None => Spans(data, from + 1)
  }

  predicate Covers(spans: seq<Span>, offset: nat) {
    exists s | s in spans :: s.start <= offset < s.end
  }

  function Painted(data: Bytes, spans: seq<Span>): (out: Bytes)
    ensures |out| == |data|
  {
    seq(|data|, i requires 0 <= i < |data| =>
      if Covers(spans, i) && data[i] != LF && data[i] != CR then SPACE else data[i])
  }

  function Blanked(data: Bytes): Bytes { Painted(data, Spans(data, 0)) }
}
