/** What blanking guarantees about every input: nothing is left to blank, and the text stays well formed. */
module RustBlankTheorems {
  import opened Wrappers
  import opened Utf8
  import opened RustBlank

  // ----- The spans a scan finds

  /** Every comment or literal starts in ASCII and ends after ASCII, before a line feed, or with the data. */
  ghost predicate WellPlaced(data: Bytes, s: Span) {
    && s.start < s.end <= |data|
    && data[s.start] < 0x80
    && (s.end < |data| ==> s.start + 2 <= s.end)
    && (s.end < |data| ==> data[s.end] == LF || data[s.end - 1] in {SLASH, QUOTE, HASH, APOSTROPHE})
  }

  lemma {:induction false} RawStartShape(data: Bytes, offset: nat, prefixes: seq<Bytes>)
    requires RawStartFrom(data, offset, prefixes).Some?
    requires forall p | p in prefixes :: |p| > 0 && p[0] < 0x80
    ensures var (content, hashes) := RawStartFrom(data, offset, prefixes).value;
      offset + hashes + 2 <= content <= |data| && data[offset] < 0x80
  {
    if RawStartAfter(data, offset, prefixes[0]).Some? {
      assert data[offset] == data[offset..offset + |prefixes[0]|][0];
    } else {
      RawStartShape(data, offset, prefixes[1..]);
    }
  }

  lemma PastTerminator(data: Bytes, hashes: nat, from: nat)
    requires from <= |data|
    ensures var end := PastOrEnd(data, Terminator(hashes), from);
      end < |data| ==> end > 0 && data[end - 1] in {QUOTE, HASH}
  {
    var pattern := Terminator(hashes);
    var end := PastOrEnd(data, pattern, from);
    if end < |data| {
      var last := pattern[hashes];
      assert last in {QUOTE, HASH};
      assert data[end - |pattern| + hashes] == last;
    }
  }

  lemma RawMatchWellPlaced(data: Bytes, offset: nat, prefixes: seq<Bytes>, content: nat, hashes: nat)
    requires RawStartFrom(data, offset, prefixes) == Some((content, hashes))
    requires forall p | p in prefixes :: |p| > 0 && p[0] < 0x80
    requires offset < |data| && content <= |data|
    ensures WellPlaced(data, Span(offset, PastOrEnd(data, Terminator(hashes), content)))
  {
    RawStartShape(data, offset, prefixes);
    PastTerminator(data, hashes, content);
  }

  lemma MatchWellPlaced(data: Bytes, offset: nat)
    requires offset < |data| && Match(data, offset).Some?
    ensures WellPlaced(data, Span(offset, Match(data, offset).value))
  {
    if At2(data, offset, SLASH, SLASH) {
    } else if At2(data, offset, SLASH, STAR) {
    } else if RawStart(data, offset).Some? {
      var (content, hashes) := RawStart(data, offset).value;
      RawMatchWellPlaced(data, offset, RAW_PREFIXES, content, hashes);
    } else if StringStart(data, offset).Some? {
    } else {
      assert CharacterMatch(data, offset).Some?;
    }
  }

  lemma {:induction false} SpansAreWellPlaced(data: Bytes, from: nat)
    requires from <= |data|
    ensures forall s | s in Spans(data, from) :: from <= s.start && WellPlaced(data, s)
    decreases |data| - from
  {
    if from < |data| {
      match Match(data, from)
      case Some(end) =>
        MatchWellPlaced(data, from);
        SpansAreWellPlaced(data, end);
      case None =>
        SpansAreWellPlaced(data, from + 1);
    }
  }

  lemma {:induction false} UncoveredMeansNoMatch(data: Bytes, from: nat, offset: nat)
    requires from <= offset < |data| && !Covers(Spans(data, from), offset)
    ensures Match(data, offset) == None
    decreases |data| - from
  {
    match Match(data, from)
    case Some(end) =>
      var first := Span(from, end);
      assert first in Spans(data, from);
      forall s | s in Spans(data, end) ensures !(s.start <= offset < s.end) {
        assert s in Spans(data, from);
      }
      UncoveredMeansNoMatch(data, end, offset);
    case None =>
      if offset > from {
        UncoveredMeansNoMatch(data, from + 1, offset);
      }
  }

  // ----- Reading the blanked text again

  /** The blanked text agrees with the original except where it shows a space. */
  ghost predicate Blanks(out: Bytes, data: Bytes) {
    |out| == |data| && forall i | 0 <= i < |data| :: out[i] == data[i] || out[i] == SPACE
  }

  lemma {:induction false} HashesAgree(out: Bytes, data: Bytes, cursor: nat)
    requires Blanks(out, data) && cursor <= |out| && At(out, AfterHashes(out, cursor), QUOTE)
    ensures AfterHashes(data, cursor) == AfterHashes(out, cursor) && At(data, AfterHashes(data, cursor), QUOTE)
    decreases |out| - cursor
  {
    if At(out, cursor, HASH) {
      HashesAgree(out, data, cursor + 1);
    }
  }

  lemma {:induction false} RawStartAgrees(out: Bytes, data: Bytes, offset: nat, prefixes: seq<Bytes>)
    requires Blanks(out, data) && RawStartFrom(out, offset, prefixes).Some?
    requires forall p | p in prefixes :: SPACE !in p
    ensures RawStartFrom(data, offset, prefixes).Some?
  {
    var prefix := prefixes[0];
    if RawStartAfter(out, offset, prefix).Some? {
      forall i | 0 <= i < |prefix| ensures data[offset + i] == prefix[i] {
        assert out[offset + i] == out[offset..offset + |prefix|][i] == prefix[i];
        assert prefix[i] in prefix && prefix in prefixes;
      }
      assert data[offset..offset + |prefix|] == prefix;
      HashesAgree(out, data, offset + |prefix|);
    } else {
      RawStartAgrees(out, data, offset, prefixes[1..]);
    }
  }

  lemma {:induction false} UnicodeEscapeAgrees(
    out: Bytes, data: Bytes, cursor: nat, digits: nat, value: nat, underscore: bool)
    requires Blanks(out, data) && UnicodeEscapeEnd(out, cursor, digits, value, underscore).Some?
    ensures UnicodeEscapeEnd(data, cursor, digits, value, underscore)
         == UnicodeEscapeEnd(out, cursor, digits, value, underscore)
    decreases |out| - cursor
  {
    if out[cursor] == 125 {
    } else if IsHexDigit(out[cursor]) {
      UnicodeEscapeAgrees(out, data, cursor + 1, digits + 1, value * 16 + HexValue(out[cursor]), false);
    } else {
      UnicodeEscapeAgrees(out, data, cursor + 1, digits, value, true);
    }
  }

  lemma EscapeAgrees(out: Bytes, data: Bytes, offset: nat, byteCharacter: bool)
    requires Blanks(out, data) && EscapeEnd(out, offset, byteCharacter).Some?
    ensures EscapeEnd(data, offset, byteCharacter) == EscapeEnd(out, offset, byteCharacter)
  {
    if out[offset + 1] == 117 {
      UnicodeEscapeAgrees(out, data, offset + 3, 0, 0, false);
    }
  }

  /** A character literal of the blanked text whose content is not a space stood in the original too. */
  lemma CharacterAgrees(out: Bytes, data: Bytes, offset: nat, byteCharacter: bool)
    requires Blanks(out, data) && CharacterEnd(out, offset, byteCharacter).Some?
    requires out[offset] == data[offset]
    ensures CharacterEnd(data, offset, byteCharacter).Some?
  {
    if out[offset] == BACKSLASH {
      EscapeAgrees(out, data, offset, byteCharacter);
    } else if out[offset] >= 0x80 {
      var width := ScalarWidth(out[offset]);
      var slice := out[offset..offset + width];
      assert Valid(slice);
      TailsAreHigh(slice);
      assert forall i | 0 <= i < width :: out[offset + i] == slice[i];
      assert data[offset..offset + width] == slice;
    }
  }

  /** One scalar of two octets or more has no octet below 0x80. */
  lemma TailsAreHigh(slice: Bytes)
    requires slice != [] && slice[0] >= 0x80 && |slice| == ScalarWidth(slice[0]) && Valid(slice)
    ensures forall i | 0 <= i < |slice| :: slice[i] >= 0x80
  {
    assert DecodeOne(slice).Some?;
  }

  // ----- Nothing is left to blank

  lemma CoveredShowsNoCode(data: Bytes, spans: seq<Span>, offset: nat)
    requires offset < |data| && Covers(spans, offset)
    ensures Painted(data, spans)[offset] in {SPACE, LF, CR}
  {
  }

  lemma BlankOctetStartsNothing(out: Bytes, offset: nat)
    requires offset < |out| && out[offset] in {SPACE, LF, CR}
    ensures Match(out, offset) == None
  {
    if RawStart(out, offset).Some? {
      RawStartFirst(out, offset, RAW_PREFIXES);
    }
  }

  lemma {:induction false} RawStartFirst(data: Bytes, offset: nat, prefixes: seq<Bytes>)
    requires RawStartFrom(data, offset, prefixes).Some?
    requires forall p | p in prefixes :: |p| > 0 && p[0] in {98, 99, 114}
    ensures offset < |data| && data[offset] in {98, 99, 114}
  {
    if RawStartAfter(data, offset, prefixes[0]).Some? {
      assert data[offset] == data[offset..offset + |prefixes[0]|][0];
    } else {
      RawStartFirst(data, offset, prefixes[1..]);
    }
  }

  /** What is blanked just before a code octet was no identifier octet. */
  lemma IdentifiersBeforeCodeAreKept(data: Bytes, offset: nat)
    requires 0 < offset < |data| && data[offset] != LF && !Covers(Spans(data, 0), offset)
    requires IsIdentifierOctet(data[offset - 1])
    ensures !Covers(Spans(data, 0), offset - 1)
  {
    hide Spans, IsIdentifierOctet, WellPlaced;
    SpansAreWellPlaced(data, 0);
    forall s | s in Spans(data, 0) ensures !(s.start <= offset - 1 < s.end) {
      assert !(s.start <= offset < s.end);
      if s.end == offset {
        EndsOffIdentifier(data, s);
      }
    }
  }

  lemma EndsOffIdentifier(data: Bytes, s: Span)
    requires WellPlaced(data, s) && s.end < |data| && data[s.end] != LF
    ensures !IsIdentifierOctet(data[s.end - 1])
  {
  }

  lemma ContextAgrees(data: Bytes, out: Bytes, offset: nat)
    requires offset < |data| == |out| && data[offset] != LF && !Covers(Spans(data, 0), offset)
    requires forall i | 0 <= i < |data| && !Covers(Spans(data, 0), i) :: out[i] == data[i]
    requires !FollowsIdentifier(out, offset)
    ensures !FollowsIdentifier(data, offset)
  {
    if FollowsIdentifier(data, offset) {
      IdentifiersBeforeCodeAreKept(data, offset);
    }
  }

  /** A span that starts just after an uncovered octet hides more than one octet, or the data ends there. */
  lemma SpaceIsNotQuoted(data: Bytes, offset: nat)
    requires 0 < offset < |data| && !Covers(Spans(data, 0), offset - 1) && Blanked(data)[offset] != data[offset]
    ensures !At(Blanked(data), offset + 1, APOSTROPHE)
  {
    SpansAreWellPlaced(data, 0);
    var s :| s in Spans(data, 0) && s.start <= offset < s.end;
    assert s.start == offset;
    if s.end < |data| {
      assert Covers(Spans(data, 0), offset + 1);
      CoveredShowsNoCode(data, Spans(data, 0), offset + 1);
    }
  }

  lemma QuotedAgrees(data: Bytes, quote: nat, byteCharacter: bool)
    requires quote < |data| && Blanked(data)[quote] == APOSTROPHE
    requires CharacterEnd(Blanked(data), quote + 1, byteCharacter).Some?
    ensures CharacterEnd(data, quote + 1, byteCharacter).Some?
  {
    var out := Blanked(data);
    assert Blanks(out, data);
    if Covers(Spans(data, 0), quote) {
      CoveredShowsNoCode(data, Spans(data, 0), quote);
    }
    if out[quote + 1] != data[quote + 1] {
      assert out[quote + 1] == SPACE;
      SpaceIsNotQuoted(data, quote + 1);
    } else {
      CharacterAgrees(out, data, quote + 1, byteCharacter);
    }
  }

  ghost predicate IsCharacter(data: Bytes, offset: nat, quote: nat) {
    && offset < |data|
    && (if quote == offset + 1 then At2(data, offset, 98, APOSTROPHE)
        else quote == offset && At(data, offset, APOSTROPHE))
    && !FollowsIdentifier(data, offset)
    && CharacterEnd(data, quote + 1, quote > offset).Some?
  }

  lemma CharacterMatchCases(data: Bytes, offset: nat)
    requires offset < |data|
    ensures CharacterMatch(data, offset).Some? <==>
            IsCharacter(data, offset, offset) || IsCharacter(data, offset, offset + 1)
  {
  }

  lemma CharacterAgreesAt(data: Bytes, out: Bytes, offset: nat, quote: nat)
    requires out == Blanked(data) && Blanks(out, data) && IsCharacter(out, offset, quote)
    requires !Covers(Spans(data, 0), offset)
    ensures IsCharacter(data, offset, quote)
  {
    ContextAgrees(data, out, offset);
    QuotedAgrees(data, quote, quote > offset);
  }

  lemma CharacterMatchAgrees(data: Bytes, offset: nat)
    requires offset < |data| && !Covers(Spans(data, 0), offset)
    requires CharacterMatch(Blanked(data), offset).Some?
    ensures CharacterMatch(data, offset).Some?
  {
    var out := Blanked(data);
    assert Blanks(out, data);
    CharacterMatchCases(out, offset);
    CharacterMatchCases(data, offset);
    var quote := if IsCharacter(out, offset, offset) then offset else offset + 1;
    CharacterAgreesAt(data, out, offset, quote);
  }

  lemma MatchAgrees(data: Bytes, out: Bytes, offset: nat)
    requires Blanks(out, data) && offset < |data| && Match(out, offset).Some?
    requires CharacterMatch(out, offset).Some? ==> CharacterMatch(data, offset).Some?
    ensures Match(data, offset).Some?
  {
    if RawStart(out, offset).Some? {
      RawStartAgrees(out, data, offset, RAW_PREFIXES);
    }
  }

  /** No comment and no literal starts anywhere in the blanked text. */
  lemma NothingLeftToBlank(data: Bytes, offset: nat)
    requires offset < |data|
    ensures Match(Blanked(data), offset) == None
  {
    var out := Blanked(data);
    if Covers(Spans(data, 0), offset) {
      CoveredShowsNoCode(data, Spans(data, 0), offset);
      BlankOctetStartsNothing(out, offset);
    } else if Match(out, offset).Some? {
      UncoveredMeansNoMatch(data, 0, offset);
      if CharacterMatch(out, offset).Some? {
        CharacterMatchAgrees(data, offset);
      }
      MatchAgrees(data, out, offset);
    }
  }

  lemma {:induction false} NoMatchNoSpans(data: Bytes, from: nat)
    requires from <= |data| && forall i | 0 <= i < |data| :: Match(data, i) == None
    ensures Spans(data, from) == []
    decreases |data| - from
  {
    if from < |data| {
      NoMatchNoSpans(data, from + 1);
    }
  }

  /** Blanking twice is blanking once. */
  lemma Idempotent(data: Bytes)
    ensures Blanked(Blanked(data)) == Blanked(data)
  {
    var out := Blanked(data);
    forall i | 0 <= i < |out| ensures Match(out, i) == None {
      NothingLeftToBlank(data, i);
    }
    NoMatchNoSpans(out, 0);
    assert Painted(out, []) == out;
  }

  // ----- Lines and UTF-8

  /** Length, carriage returns and line feeds stay where they were; any other octet stays or becomes a space. */
  lemma LinesAreKept(data: Bytes)
    ensures |Blanked(data)| == |data|
    ensures forall i | 0 <= i < |data| ::
      && (data[i] in {LF, CR} ==> Blanked(data)[i] == data[i])
      && (Blanked(data)[i] == data[i] || Blanked(data)[i] == SPACE)
      && (Blanked(data)[i] in {LF, CR} ==> Blanked(data)[i] == data[i])
  {
  }

  /** A character of several octets is blanked as a whole or not at all. */
  lemma CharactersAreNotSplit(data: Bytes, at: nat, width: nat, i: nat, j: nat)
    requires at + width <= |data| && forall k | at <= k < at + width :: data[k] >= 0x80
    requires at <= i < at + width && at <= j < at + width
    requires Covers(Spans(data, 0), i)
    ensures Covers(Spans(data, 0), j)
  {
    SpansAreWellPlaced(data, 0);
    var s :| s in Spans(data, 0) && s.start <= i < s.end;
    assert s.start < at;
    assert s.end >= at + width;
  }

  lemma {:induction false} AsciiIsValid(text: Bytes)
    requires forall b | b in text :: b < 0x80
    ensures Valid(text)
  {
    if text != [] {
      assert text[0] in text && forall b | b in text[1..] :: b in text;
      AsciiIsValid(text[1..]);
    }
  }

  lemma {:induction false} ValidConcat(a: Bytes, b: Bytes)
    requires Valid(a) && Valid(b)
    ensures Valid(a + b)
  {
    ValidIffEncoding(a);
    ValidIffEncoding(b);
    EncodeConcat(Decode(a).value, Decode(b).value);
    ValidIffEncoding(a + b);
  }

  lemma AfterFirstCharacter(data: Bytes, at: nat)
    requires at < |data| && Valid(data[at..])
    ensures DecodeOne(data[at..]).Some?
    ensures var width := DecodeOne(data[at..]).value.1; at + width <= |data| && Valid(data[at + width..])
  {
    var width := DecodeOne(data[at..]).value.1;
    assert data[at..][width..] == data[at + width..];
  }

  /** `width` octets at `at` are one character. */
  ghost predicate IsCharacterAt(data: Bytes, at: nat, width: nat) {
    at < |data| && DecodeOne(data[at..]).Some? && DecodeOne(data[at..]).value.1 == width
  }

  /** Valid character by character is valid. */
  lemma {:induction false} CharacterByCharacter(data: Bytes, out: Bytes, at: nat)
    requires |out| == |data| && at <= |data| && Valid(data[at..])
    requires forall k: nat, w: nat | IsCharacterAt(data, k, w) :: Valid(out[k..k + w])
    ensures Valid(out[at..])
    decreases |data| - at
  {
    if at < |data| {
      AfterFirstCharacter(data, at);
      var width := DecodeOne(data[at..]).value.1;
      assert IsCharacterAt(data, at, width);
      CharacterByCharacter(data, out, at + width);
      ValidConcat(out[at..at + width], out[at + width..]);
      assert out[at..] == out[at..at + width] + out[at + width..];
    } else {
      assert out[at..] == [];
    }
  }

  lemma UnchangedCharacterIsValid(data: Bytes, at: nat, width: nat)
    requires IsCharacterAt(data, at, width)
    ensures Valid(data[at..at + width])
  {
    var c := DecodeOne(data[at..]).value.0;
    EncodeCharInvertsDecodeOne(data[at..]);
    assert data[at..at + width] == EncodeChar(c) == Encode([c]);
    DecodeInvertsEncode([c]);
  }

  lemma LongCharacterIsHigh(data: Bytes, at: nat, width: nat)
    requires IsCharacterAt(data, at, width) && width > 1
    ensures forall k | at <= k < at + width :: data[k] >= 0x80
  {
    assert forall k | at <= k < at + width :: data[k] == data[at..][k - at];
  }

  lemma BlankedCharacterIsValid(data: Bytes, at: nat, width: nat)
    requires IsCharacterAt(data, at, width)
    ensures Valid(Blanked(data)[at..at + width])
  {
    var out := Blanked(data);
    if forall i | at <= i < at + width :: out[i] == data[i] {
      assert out[at..at + width] == data[at..at + width];
      UnchangedCharacterIsValid(data, at, width);
    } else {
      var i :| at <= i < at + width && out[i] != data[i];
      if width > 1 {
        LongCharacterIsHigh(data, at, width);
        forall k | at <= k < at + width ensures out[k] == SPACE {
          CharactersAreNotSplit(data, at, width, i, k);
        }
      }
      AsciiIsValid(out[at..at + width]);
    }
  }

  /** Blanking keeps valid UTF-8 valid, so the final decoding cannot fail. */
  lemma Utf8IsKept(data: Bytes)
    requires Valid(data)
    ensures Valid(Blanked(data))
  {
    assert data[0..] == data && Blanked(data)[0..] == Blanked(data);
    forall k: nat, w: nat | IsCharacterAt(data, k, w) ensures Valid(Blanked(data)[k..k + w]) {
      BlankedCharacterIsValid(data, k, w);
    }
    CharacterByCharacter(data, Blanked(data), 0);
  }
}
