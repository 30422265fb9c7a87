/** The in-place loops of the blanking pass, proved to compute `RustBlank.Blanked`. */
module RustBlankScan {
  import opened Wrappers
  import opened Utf8
  import opened RustBlank
  import opened RustBlankTheorems

  /** The octets of `out` with one more span overwritten. */
  function Repainted(out: Bytes, start: nat, end: nat): (r: Bytes)
    ensures |r| == |out|
  {
    seq(|out|, i requires 0 <= i < |out| =>
      if start <= i < end && out[i] != LF && out[i] != CR then SPACE else out[i])
  }

  /** Overwrites everything but line ends. */
  method Blank(output: array<byte>, start: nat, end: nat)
    requires start <= end <= output.Length
    modifies output
    ensures output[..] == Repainted(old(output[..]), start, end)
  {
    for offset := start to end
      invariant output[..] == Repainted(old(output[..]), start, offset)
    {
      if output[offset] != LF && output[offset] != CR {
        output[offset] := SPACE;
      }
    }
  }

  method SkipBlockComment(data: Bytes, offset: nat) returns (cursor: nat)
    requires offset + 2 <= |data|
    ensures cursor == BlockEnd(data, offset + 2, 1)
  {
    var depth := 1;
    cursor := offset + 2;
    while cursor < |data| && depth > 0
      invariant cursor <= |data| && depth >= 0
      invariant BlockEnd(data, cursor, depth) == BlockEnd(data, offset + 2, 1)
      decreases |data| - cursor
    {
      if At2(data, cursor, SLASH, STAR) {
        depth := depth + 1;
        cursor := cursor + 2;
      } else if At2(data, cursor, STAR, SLASH) {
        depth := depth - 1;
        cursor := cursor + 2;
      } else {
        cursor := cursor + 1;
      }
    }
  }

  method SkipHashes(data: Bytes, start: nat) returns (cursor: nat)
    requires start <= |data|
    ensures cursor == AfterHashes(data, start)
  {
    cursor := start;
    while cursor < |data| && data[cursor] == HASH
      invariant start <= cursor <= |data|
      invariant AfterHashes(data, cursor) == AfterHashes(data, start)
    {
      cursor := cursor + 1;
    }
  }

  method FindRawStart(data: Bytes, offset: nat) returns (r: Option<(nat, nat)>)
    ensures r == RawStart(data, offset)
  {
    var i := 0;
    while i < |RAW_PREFIXES|
      invariant i <= |RAW_PREFIXES|
      invariant RawStartFrom(data, offset, RAW_PREFIXES[i..]) == RawStart(data, offset)
    {
      var prefix := RAW_PREFIXES[i];
      assert RAW_PREFIXES[i..][1..] == RAW_PREFIXES[i + 1..];
      if StartsWith(data, prefix, offset) {
        var cursor := SkipHashes(data, offset + |prefix|);
        if cursor < |data| && data[cursor] == QUOTE {
          return Some((cursor + 1, cursor - (offset + |prefix|)));
        }
      }
      i := i + 1;
    }
    return None;
  }

  method SkipString(data: Bytes, start: nat) returns (cursor: nat)
    requires start <= |data|
    ensures cursor == StringEnd(data, start, false)
  {
    cursor := start;
    var escaped := false;
    while cursor < |data|
      invariant cursor <= |data|
      invariant StringEnd(data, cursor, escaped) == StringEnd(data, start, false)
    {
      var octet := data[cursor];
      cursor := cursor + 1;
      if escaped {
        escaped := false;
      } else if octet == BACKSLASH {
        escaped := true;
      } else if octet == QUOTE {
        return;
      }
    }
  }

  method EscapedCharacterEnd(data: Bytes, offset: nat, byteCharacter: bool) returns (r: Option<nat>)
    ensures r == EscapeEnd(data, offset, byteCharacter)
  {
    if offset >= |data| || data[offset] != BACKSLASH || offset + 1 >= |data| {
      return None;
    }
    var cursor := offset + 1;
    if data[cursor] in {110, 114, 116, 48, BACKSLASH, APOSTROPHE, QUOTE} {
      return Some(cursor + 1);
    }
    if data[cursor] == 120 {
      var end := cursor + 3;
      if end > |data| || !IsHexDigit(data[cursor + 1]) || !IsHexDigit(data[cursor + 2]) {
        return None;
      }
      if !byteCharacter && HexValue(data[cursor + 1]) * 16 + HexValue(data[cursor + 2]) > 0x7F {
        return None;
      }
      return Some(end);
    }
    if byteCharacter || data[cursor] != 117 || cursor + 1 >= |data| || data[cursor + 1] != 123 {
      return None;
    }
    cursor := cursor + 2;
    var digits, value, underscore := 0, 0, false;
    while cursor < |data| && data[cursor] != 125
      invariant cursor <= |data| && digits >= 0 && value >= 0
      invariant UnicodeEscapeEnd(data, cursor, digits, value, underscore) == EscapeEnd(data, offset, byteCharacter)
    {
      var octet := data[cursor];
      if IsHexDigit(octet) {
        digits, value, underscore := digits + 1, value * 16 + HexValue(octet), false;
      } else if octet == 95 && digits > 0 && !underscore {
        underscore := true;
      } else {
        return None;
      }
      cursor := cursor + 1;
    }
    if cursor >= |data| || digits == 0 || underscore || digits > 6 {
      return None;
    }
    if value > 0x10FFFF || 0xD800 <= value <= 0xDFFF {
      return None;
    }
    return Some(cursor + 1);
  }

  method FindCharacter(data: Bytes, index: nat) returns (r: Option<nat>)
    requires index < |data|
    ensures r == CharacterMatch(data, index)
  {
    var character, byteCharacter := index, false;
    if At2(data, index, 98, APOSTROPHE) && !FollowsIdentifier(data, index) {
      character, byteCharacter := index + 2, true;
    } else if data[index] == APOSTROPHE && !FollowsIdentifier(data, index) {
      character := index + 1;
    } else {
      return None;
    }
    if character >= |data| {
      return None;
    }
    var end: Option<nat>;
    if data[character] == BACKSLASH {
      end := EscapedCharacterEnd(data, character, byteCharacter);
    } else {
      end := ScalarEnd(data, character);
      if byteCharacter && end.Some? && data[character] >= 0x80 {
        return None;
      }
    }
    if end.Some? && At(data, end.value, APOSTROPHE) {
      return Some(end.value + 1);
    }
    return None;
  }

  /** One turn of the main loop: where the comment or literal at `index` ends, if there is one. */
  method FindMatch(data: Bytes, index: nat) returns (r: Option<nat>)
    requires index < |data|
    ensures r == Match(data, index)
  {
    if At2(data, index, SLASH, SLASH) {
      return Some(IndexOrEnd(data, LF, index + 2));
    }
    if At2(data, index, SLASH, STAR) {
      var cursor := SkipBlockComment(data, index);
      return Some(cursor);
    }
    var raw := FindRawStart(data, index);
    if raw.Some? {
      var (content, hashes) := raw.value;
      return Some(PastOrEnd(data, Terminator(hashes), content));
    }
    var start := StringStart(data, index);
    if start.Some? {
      var cursor := SkipString(data, start.value);
      return Some(cursor);
    }
    r := FindCharacter(data, index);
  }

  method BlankOctets(data: Bytes) returns (blanked: Bytes)
    ensures blanked == Blanked(data)
  {
    var output := new byte[|data|](i requires 0 <= i < |data| => data[i]);
    ghost var spans: seq<Span> := [];
    assert output[..] == Painted(data, spans);
    var index := 0;
    while index < |data|
      invariant index <= |data|
      invariant spans + Spans(data, index) == Spans(data, 0)
      invariant output[..] == Painted(data, spans)
    {
      var end := FindMatch(data, index);
      if end.Some? {
        ghost var painted := spans;
        Blank(output, index, end.value);
        spans := spans + [Span(index, end.value)];
        PaintOneMore(data, painted, Span(index, end.value));
        index := end.value;
      } else {
        index := index + 1;
      }
    }
    blanked := output[..];
  }

  lemma PaintOneMore(data: Bytes, spans: seq<Span>, s: Span)
    ensures Painted(data, spans + [s]) == Repainted(Painted(data, spans), s.start, s.end)
  {
    forall i: nat ensures Covers(spans + [s], i) <==> Covers(spans, i) || s.start <= i < s.end {
      assert forall t :: t in spans + [s] <==> t in spans || t == s;
      if s.start <= i < s.end {
        assert s in spans + [s];
      }
    }
  }

  /** The whole pass on text: encode, blank, decode. The decoding always succeeds. */
  method BlankRustNoncode(source: string) returns (text: string)
    ensures Encode(text) == Blanked(Encode(source))
  {
    var data := Encode(source);
    var output := BlankOctets(data);
    DecodeInvertsEncode(source);
    Utf8IsKept(data);
    ValidIffEncoding(output);
    text := Decode(output).value;
  }
}
