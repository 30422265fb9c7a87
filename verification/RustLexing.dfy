/** Whole texts: every text is a list of pieces, and blanking it keeps the code and spaces out the lexemes. */
module RustLexing {
  import opened Wrappers
  import opened Utf8
  import RustTokens
  import opened RustBlank
  import opened RustBlankTheorems
  import opened RustLexemes
  import opened RustLexemeTheorems

  // ----- From a lexeme that stands to the match

  lemma LineCommentIsMatched(data: Bytes, at: nat, l: Lexeme)
    requires l.LineComment? && StandsAt(data, at, l)
    ensures Match(data, at) == Some(at + |Print(l)|)
  {
    assert |Print(l)| == 2 + |l.text|;
    LineCommentEnds(data, at, l.text);
    hide StartsWith, IndexOrEnd, Print;
  }

  lemma LineCommentEnds(data: Bytes, at: nat, text: Bytes)
    requires StartsWith(data, [SLASH, SLASH] + text, at) && LF !in text
    requires var end := at + 2 + |text|; end == |data| || data[end] == LF
    ensures At2(data, at, SLASH, SLASH) && IndexOrEnd(data, LF, at + 2) == at + 2 + |text|
  {
    var end := at + 2 + |text|;
    StartsConcat(data, [SLASH, SLASH], text, at);
    StartsTwo(data, SLASH, SLASH, at);
    var slice := data[at + 2..end];
    assert forall i | at + 2 <= i < end :: data[i] == slice[i - at - 2];
    assert slice == text;
    hide StartsWith;
    FirstIndex(data, LF, at + 2, end);
  }

  lemma {:induction false} FirstIndex(data: Bytes, octet: byte, from: nat, end: nat)
    requires from <= end <= |data| && (end < |data| ==> data[end] == octet)
    requires forall i | from <= i < end :: data[i] != octet
    ensures IndexOrEnd(data, octet, from) == end
    decreases end - from
  {
    if from < end {
      FirstIndex(data, octet, from + 1, end);
    }
  }

  lemma BlockCommentIsMatched(data: Bytes, at: nat, l: Lexeme)
    requires l.BlockComment? && StandsAt(data, at, l)
    ensures Match(data, at) == Some(at + |Print(l)|)
  {
    BlockCommentFits(data, at, l.parts);
    hide *;
    ClosedEnds(data, at + 2, l.parts, at + |Print(l)|);
    MatchOfBlock(data, at);
  }

  lemma BlockCommentFits(data: Bytes, at: nat, parts: seq<Part>)
    requires StandsAt(data, at, BlockComment(parts))
    ensures At2(data, at, SLASH, STAR) && ClosesAfter(data, at + 2, parts, at + |Print(BlockComment(parts))|)
  {
    NestedStarts(data, at, parts);
    assert Print(BlockComment(parts)) == PrintPart(Nested(parts));
    assert |PrintPart(Nested(parts))| == 4 + |PrintParts(parts)|;
    hide StartsWith, IsBody, PrintParts, PrintPart, Print;
  }

  lemma MatchOfBlock(data: Bytes, at: nat)
    requires At2(data, at, SLASH, STAR)
    ensures Match(data, at) == Some(BlockEnd(data, at + 2, 1))
  {
    hide BlockEnd;
  }

  lemma OpenCommentIsMatched(data: Bytes, at: nat, l: Lexeme)
    requires l.OpenComment? && StandsAt(data, at, l)
    ensures Match(data, at) == Some(at + |Print(l)|)
  {
    StartsConcat(data, [SLASH, STAR], PrintLevels(l.levels), at);
    StartsTwo(data, SLASH, STAR, at);
    hide StartsWith, AreOpen, PrintLevels, BlockEnd;
    OpenLevelsRunOut(data, at + 2, l.levels, 1);
  }

  /** A raw string starts with `r`, or with `b` or `c` and then `r`. */
  lemma RawStartLetters(data: Bytes, at: nat)
    requires RawStart(data, at).Some?
    ensures at < |data| && data[at] in {98, 99, 114} && (data[at] != 114 ==> At(data, at + 1, 114))
  {
    var prefix := RawStartFromPrefix(data, at, RAW_PREFIXES);
    RawPrefixOctets(data, at, prefix);
    RawPrefixLetters(prefix);
    hide RawStart, RawStartAfter;
    if |prefix| == 2 {
      assert data[at + 1] == prefix[1];
    }
    assert data[at + 0] == prefix[0];
  }

  lemma RawPrefixLetters(p: Bytes)
    requires p in RAW_PREFIXES
    ensures 1 <= |p| <= 2 && p[0] in {98, 99, 114} && (p[0] != 114 ==> |p| == 2 && p[1] == 114)
  {
  }

  lemma MatchOfRawString(data: Bytes, at: nat, from: nat, hashes: nat)
    requires at < |data| && data[at] in {98, 99, 114} && RawStart(data, at) == Some((from, hashes)) && from <= |data|
    ensures Match(data, at) == Some(PastOrEnd(data, Terminator(hashes), from))
  {
    hide RawStart, PastOrEnd, StringStart, CharacterMatch;
  }

  lemma RawPartsStand(data: Bytes, at: nat, opening: Bytes, content: Bytes, mark: Bytes)
    requires StartsWith(data, opening + content + mark, at)
    ensures StartsWith(data, opening, at) && StartsWith(data, content, at + |opening|)
    ensures StartsWith(data, mark, at + |opening| + |content|)
  {
    StartsConcat(data, opening + content, mark, at);
    StartsConcat(data, opening, content, at);
    hide StartsWith;
  }

  lemma RawStringFits(data: Bytes, at: nat, l: Lexeme)
    requires (l.RawString? || l.OpenRawString?) && StandsAt(data, at, l)
    ensures at < |data| && StartsWith(data, Print(l), at)
    ensures l.prefix in RAW_PREFIXES && !Contains(l.content, Terminator(l.hashes))
    ensures l.OpenRawString? ==> at + |Print(l)| == |data|
  {
    hide StartsWith, Contains, Print, Terminator;
  }

  lemma RawStringPrints(prefix: Bytes, hashes: nat, content: Bytes)
    ensures Print(RawString(prefix, hashes, content)) == RawOpening(prefix, hashes) + content + Terminator(hashes)
    ensures Print(OpenRawString(prefix, hashes, content)) == RawOpening(prefix, hashes) + content
    ensures |RawOpening(prefix, hashes)| == |prefix| + hashes + 1
  {
    assert |prefix + Hashes(hashes)| == |prefix| + hashes;
    hide Terminator, Hashes;
  }

  lemma ClosedRawIsMatched(data: Bytes, at: nat, prefix: Bytes, hashes: nat, content: Bytes)
    requires StandsAt(data, at, RawString(prefix, hashes, content))
    ensures Match(data, at) == Some(at + |Print(RawString(prefix, hashes, content))|)
  {
    hide *;
    var from := at + |prefix| + hashes + 1;
    RawStringFits(data, at, RawString(prefix, hashes, content));
    RawStringPrints(prefix, hashes, content);
    RawPartsStand(data, at, RawOpening(prefix, hashes), content, Terminator(hashes));
    RawStringEnds(data, at, prefix, hashes, content, true);
    RawStartLetters(data, at);
    MatchOfRawString(data, at, from, hashes);
  }

  lemma OpenRawIsMatched(data: Bytes, at: nat, prefix: Bytes, hashes: nat, content: Bytes)
    requires StandsAt(data, at, OpenRawString(prefix, hashes, content))
    ensures Match(data, at) == Some(at + |Print(OpenRawString(prefix, hashes, content))|)
  {
    hide *;
    var from := at + |prefix| + hashes + 1;
    RawStringFits(data, at, OpenRawString(prefix, hashes, content));
    RawStringPrints(prefix, hashes, content);
    StartsConcat(data, RawOpening(prefix, hashes), content, at);
    RawStringEnds(data, at, prefix, hashes, content, false);
    RawStartLetters(data, at);
    MatchOfRawString(data, at, from, hashes);
  }

  lemma RawStringEnds(data: Bytes, at: nat, prefix: Bytes, hashes: nat, content: Bytes, closed: bool)
    requires prefix in RAW_PREFIXES && !Contains(content, Terminator(hashes))
    requires StartsWith(data, RawOpening(prefix, hashes), at)
    requires var from := at + |prefix| + hashes + 1;
      && StartsWith(data, content, from)
      && if closed then StartsWith(data, Terminator(hashes), from + |content|) else from + |content| == |data|
    ensures var from := at + |prefix| + hashes + 1;
      && from <= |data| && RawStart(data, at) == Some((from, hashes))
      && PastOrEnd(data, Terminator(hashes), from) == from + |content| + (if closed then hashes + 1 else 0)
  {
    var from := at + |prefix| + hashes + 1;
    hide *;
    RawStringOpens(data, at, prefix, hashes);
    ContentIsFree(data, from, content, hashes);
    if closed {
      PastFirst(data, Terminator(hashes), from, from + |content|);
    } else {
      PastNone(data, Terminator(hashes), from);
    }
  }

  lemma RawStringOpens(data: Bytes, at: nat, prefix: Bytes, hashes: nat)
    requires prefix in RAW_PREFIXES && StartsWith(data, RawOpening(prefix, hashes), at)
    ensures var from := at + |prefix| + hashes + 1;
      from <= |data| && RawStart(data, at) == Some((from, hashes))
  {
    assert OpensAt(data, at, prefix, hashes, at + |prefix| + hashes + 1);
    RawStartIff(data, at, at + |prefix| + hashes + 1, hashes);
    assert |RawOpening(prefix, hashes)| == |prefix| + hashes + 1;
  }

  /** What a string literal closes with. */
  function Closing(l: Lexeme): Bytes
    requires l.StringLiteral? || l.OpenString?
  {
    if l.StringLiteral? then [QUOTE] else if l.dangling then [BACKSLASH] else []
  }

  lemma StringIsMatched(data: Bytes, at: nat, l: Lexeme)
    requires (l.StringLiteral? || l.OpenString?) && StandsAt(data, at, l)
    ensures Match(data, at) == Some(at + |Print(l)|)
  {
    hide *;
    StringStands(data, at, l);
    StringEnds(data, at, l.prefix, l.elements, Closing(l));
    MatchOfString(data, at, at + |l.prefix| + 1);
  }

  lemma MatchOfString(data: Bytes, at: nat, from: nat)
    requires at < |data| && data[at] != SLASH && RawStart(data, at).None? && StringStart(data, at) == Some(from)
    requires from <= |data|
    ensures Match(data, at) == Some(StringEnd(data, from, false))
  {
    hide RawStart, PastOrEnd, StringStart, CharacterMatch, StringEnd;
  }

  lemma StringStands(data: Bytes, at: nat, l: Lexeme)
    requires (l.StringLiteral? || l.OpenString?) && StandsAt(data, at, l)
    ensures at < |data| && l.prefix in STRING_PREFIXES && forall e | e in l.elements :: IsElement(e)
    ensures var text := (l.prefix + [QUOTE]) + (PrintElements(l.elements) + Closing(l));
      && StartsWith(data, text, at) && |Print(l)| == |text|
      && (Closing(l) == [QUOTE] || (Closing(l) in {[], [BACKSLASH]} && at + |text| == |data|))
  {
    StringPrints(l);
    hide Print, PrintElements, StartsWith, IsElement;
  }

  lemma StringPrints(l: Lexeme)
    requires l.StringLiteral? || l.OpenString?
    ensures Print(l) == (l.prefix + [QUOTE]) + (PrintElements(l.elements) + Closing(l))
  {
    hide PrintElements;
  }

  lemma StringEnds(data: Bytes, at: nat, prefix: Bytes, elements: seq<Element>, closing: Bytes)
    requires prefix in STRING_PREFIXES && forall e | e in elements :: IsElement(e)
    requires var text := (prefix + [QUOTE]) + (PrintElements(elements) + closing);
      && StartsWith(data, text, at)
      && (closing == [QUOTE] || (closing in {[], [BACKSLASH]} && at + |text| == |data|))
    ensures at < |data| && data[at] != SLASH && RawStart(data, at).None?
    ensures StringStart(data, at) == Some(at + |prefix| + 1)
    ensures StringEnd(data, at + |prefix| + 1, false)
      == at + |(prefix + [QUOTE]) + (PrintElements(elements) + closing)|
  {
    var opening, body := prefix + [QUOTE], PrintElements(elements) + closing;
    var end := at + |opening + body|;
    StartsConcat(data, opening, body, at);
    assert IsStringBody(data, at + |opening|, elements, closing, end);
    hide PrintElements, IsStringBody, StartsWith, StringEnd, RawStart;
    StringEndsAfter(data, at + |opening|, elements, closing, end);
    StringStartStands(data, at, prefix);
    if RawStart(data, at).Some? {
      RawStartLetters(data, at);
    }
  }

  lemma StringStartStands(data: Bytes, at: nat, prefix: Bytes)
    requires prefix in STRING_PREFIXES && StartsWith(data, prefix + [QUOTE], at)
    ensures StringStart(data, at) == Some(at + |prefix| + 1)
    ensures At(data, at, QUOTE) || ((At(data, at, 98) || At(data, at, 99)) && At(data, at + 1, QUOTE))
  {
    if prefix == [] {
      assert prefix + [QUOTE] == [QUOTE];
      StartsOne(data, QUOTE, at);
    } else {
      assert prefix + [QUOTE] == [prefix[0], QUOTE];
      StartsTwo(data, prefix[0], QUOTE, at);
    }
  }

  lemma CharacterIsMatched(data: Bytes, at: nat, l: Lexeme)
    requires l.Character? && StandsAt(data, at, l)
    ensures Match(data, at) == Some(at + |Print(l)|)
    ensures CharacterMatch(data, at) == Some(at + |Print(l)|)
  {
    var opening: Bytes := if l.byteCharacter then [98, APOSTROPHE] else [APOSTROPHE];
    var rest := PrintContent(l.character) + [APOSTROPHE];
    assert Print(l) == opening + rest;
    StartsConcat(data, opening, rest, at);
    CharacterOpens(data, at, l.byteCharacter);
    CharacterEnds(data, at + |opening|, l.character, l.byteCharacter);
    hide PrintContent, Print, StartsWith;
    if RawStart(data, at).Some? {
      RawStartLetters(data, at);
    }
  }

  lemma CharacterOpens(data: Bytes, at: nat, byteCharacter: bool)
    ensures StartsWith(data, if byteCharacter then [98, APOSTROPHE] else [APOSTROPHE], at)
      <==> if byteCharacter then At2(data, at, 98, APOSTROPHE) else At(data, at, APOSTROPHE)
  {
    StartsOne(data, APOSTROPHE, at);
    StartsTwo(data, 98, APOSTROPHE, at);
  }

  lemma LexemeIsMatched(data: Bytes, at: nat, l: Lexeme)
    requires StandsAt(data, at, l)
    ensures Match(data, at) == Some(at + |Print(l)|)
  {
    hide StandsAt, Match, Print;
    match l
    case LineComment(_) => LineCommentIsMatched(data, at, l);
    case BlockComment(_) => BlockCommentIsMatched(data, at, l);
    case OpenComment(_) => OpenCommentIsMatched(data, at, l);
    case RawString(prefix, hashes, content) => ClosedRawIsMatched(data, at, prefix, hashes, content);
    case OpenRawString(prefix, hashes, content) => OpenRawIsMatched(data, at, prefix, hashes, content);
    case StringLiteral(_, _) => StringIsMatched(data, at, l);
    case OpenString(_, _, _) => StringIsMatched(data, at, l);
    case Character(_, _) => CharacterIsMatched(data, at, l);
  }

  // ----- From the match to a lexeme that stands

  lemma LineCommentThere(data: Bytes, at: nat) returns (l: Lexeme)
    requires At2(data, at, SLASH, SLASH)
    ensures StandsAt(data, at, l)
  {
    var end := IndexOrEnd(data, LF, at + 2);
    l := LineComment(data[at + 2..end]);
    StartsTwo(data, SLASH, SLASH, at);
    StartsSlice(data, at + 2, end);
    StartsConcat(data, [SLASH, SLASH], l.text, at);
  }

  lemma BlockCommentThere(data: Bytes, at: nat) returns (l: Lexeme)
    requires At2(data, at, SLASH, STAR)
    ensures StandsAt(data, at, l)
  {
    var parts, open := ReadBody(data, at + 2);
    if open == [] && at + 2 + |PrintParts(parts)| < |data| {
      l := BlockComment(parts);
      ClosedCommentThere(data, at, parts);
    } else {
      hide IsBody, AreOpen;
      LevelFirst(data, at + 2, parts, open);
      l := OpenComment([parts] + open);
      OpenCommentThere(data, at, [parts] + open);
    }
  }

  lemma ClosedCommentThere(data: Bytes, at: nat, parts: seq<Part>)
    requires At2(data, at, SLASH, STAR) && IsBody(data, at + 2, parts)
    requires At2(data, at + 2 + |PrintParts(parts)|, STAR, SLASH)
    ensures StandsAt(data, at, BlockComment(parts))
  {
    BodyStarts(data, at + 2, parts);
    NestedStarts(data, at, parts);
    assert Print(BlockComment(parts)) == PrintPart(Nested(parts));
    hide StartsWith, IsBody, PrintParts, PrintPart, Print;
  }

  lemma OpenCommentThere(data: Bytes, at: nat, levels: seq<seq<Part>>)
    requires At2(data, at, SLASH, STAR) && AreOpen(data, at + 2, levels)
    ensures StandsAt(data, at, OpenComment(levels))
  {
    LevelsStart(data, at + 2, levels);
    StartsTwo(data, SLASH, STAR, at);
    StartsConcat(data, [SLASH, STAR], PrintLevels(levels), at);
    hide StartsWith, AreOpen, PrintLevels;
  }

  lemma RawStringThere(data: Bytes, at: nat) returns (l: Lexeme)
    requires RawStart(data, at).Some?
    ensures StandsAt(data, at, l)
  {
    var (from, hashes) := RawStart(data, at).value;
    hide *;
    RawStartIff(data, at, from, hashes);
    var prefix :| prefix in RAW_PREFIXES && OpensAt(data, at, prefix, hashes, from);
    RawOpens(data, at, prefix, hashes, from);
    var end := FirstOccurrence(data, Terminator(hashes), from);
    var content := data[from..end];
    StartsSlice(data, from, end);
    ContentIsFree(data, from, content, hashes);
    if end < |data| {
      l := RawString(prefix, hashes, content);
      ClosedRawStands(data, at, prefix, hashes, content);
    } else {
      l := OpenRawString(prefix, hashes, content);
      OpenRawStands(data, at, prefix, hashes, content);
    }
  }

  lemma RawOpens(data: Bytes, at: nat, prefix: Bytes, hashes: nat, from: nat)
    requires OpensAt(data, at, prefix, hashes, from)
    ensures StartsWith(data, RawOpening(prefix, hashes), at) && from == at + |RawOpening(prefix, hashes)| <= |data|
    ensures Terminator(hashes) != []
  {
    RawStringPrints(prefix, hashes, []);
    hide RawOpening, Print;
  }

  lemma ClosedRawStands(data: Bytes, at: nat, prefix: Bytes, hashes: nat, content: Bytes)
    requires at < |data| && prefix in RAW_PREFIXES && !Contains(content, Terminator(hashes))
    requires var opening := RawOpening(prefix, hashes);
      && StartsWith(data, opening, at) && StartsWith(data, content, at + |opening|)
      && StartsWith(data, Terminator(hashes), at + |opening| + |content|)
    ensures StandsAt(data, at, RawString(prefix, hashes, content))
  {
    var opening := RawOpening(prefix, hashes);
    RawStringPrints(prefix, hashes, content);
    hide StartsWith, Contains, RawOpening, Print, Terminator;
    StartsConcat(data, opening, content, at);
    StartsConcat(data, opening + content, Terminator(hashes), at);
  }

  lemma OpenRawStands(data: Bytes, at: nat, prefix: Bytes, hashes: nat, content: Bytes)
    requires at < |data| && prefix in RAW_PREFIXES && !Contains(content, Terminator(hashes))
    requires var opening := RawOpening(prefix, hashes);
      && StartsWith(data, opening, at) && StartsWith(data, content, at + |opening|)
      && at + |opening| + |content| == |data|
    ensures StandsAt(data, at, OpenRawString(prefix, hashes, content))
  {
    RawStringPrints(prefix, hashes, content);
    hide StartsWith, Contains, RawOpening, Print, Terminator;
    StartsConcat(data, RawOpening(prefix, hashes), content, at);
  }

  lemma StringThere(data: Bytes, at: nat) returns (l: Lexeme)
    requires StringStart(data, at).Some?
    ensures StandsAt(data, at, l)
  {
    var prefix: Bytes := if data[at] == QUOTE then [] else [data[at]];
    StringOpens(data, at, prefix);
    hide *;
    var elements, closing, end := ReadString(data, StringStart(data, at).value);
    l := StringThereStands(data, at, prefix, elements, closing, end);
  }

  lemma StringThereStands(data: Bytes, at: nat, prefix: Bytes, elements: seq<Element>, closing: Bytes, end: nat)
    returns (l: Lexeme)
    requires at < |data| && prefix in STRING_PREFIXES && StartsWith(data, prefix + [QUOTE], at)
    requires IsStringBody(data, at + |prefix| + 1, elements, closing, end)
    ensures StandsAt(data, at, l)
  {
    l := if closing == [QUOTE] then StringLiteral(prefix, elements)
         else OpenString(prefix, elements, closing == [BACKSLASH]);
    StringPrints(l);
    hide PrintElements, Print, IsElement, StartsWith;
    StartsConcat(data, prefix + [QUOTE], PrintElements(elements) + closing, at);
    assert closing == Closing(l);
  }

  lemma StringOpens(data: Bytes, at: nat, prefix: Bytes)
    requires StringStart(data, at).Some? && prefix == if data[at] == QUOTE then [] else [data[at]]
    ensures prefix in STRING_PREFIXES && StartsWith(data, prefix + [QUOTE], at)
    ensures StringStart(data, at).value == at + |prefix| + 1
  {
    assert STRING_PREFIXES[0] == [] && STRING_PREFIXES[1] == [98] && STRING_PREFIXES[2] == [99];
    if prefix == [] {
      assert prefix + [QUOTE] == [QUOTE];
      StartsOne(data, QUOTE, at);
    } else {
      assert prefix + [QUOTE] == [prefix[0], QUOTE];
      StartsTwo(data, prefix[0], QUOTE, at);
    }
  }

  lemma CharacterThere(data: Bytes, at: nat) returns (l: Lexeme)
    requires at < |data| && CharacterMatch(data, at).Some?
    ensures l.Character? && StandsAt(data, at, l)
  {
    var byteCharacter := At2(data, at, 98, APOSTROPHE) && !FollowsIdentifier(data, at);
    var opening: Bytes := if byteCharacter then [98, APOSTROPHE] else [APOSTROPHE];
    CharacterOpens(data, at, byteCharacter);
    hide CharacterEnd, StartsWith;
    var content := ReadCharacter(data, at + |opening|, byteCharacter);
    l := Character(byteCharacter, content);
    CharacterStands(data, at, byteCharacter, content);
  }

  lemma CharacterStands(data: Bytes, at: nat, byteCharacter: bool, content: Content)
    requires at < |data| && IsContent(content, byteCharacter) && !FollowsIdentifier(data, at)
    requires var opening: Bytes := if byteCharacter then [98, APOSTROPHE] else [APOSTROPHE];
      StartsWith(data, opening, at) && StartsWith(data, PrintContent(content) + [APOSTROPHE], at + |opening|)
    ensures StandsAt(data, at, Character(byteCharacter, content))
  {
    var opening: Bytes := if byteCharacter then [98, APOSTROPHE] else [APOSTROPHE];
    StartsConcat(data, opening, PrintContent(content) + [APOSTROPHE], at);
    CharacterPrints(byteCharacter, content);
    hide StartsWith, PrintContent, IsContent, Print, FollowsIdentifier;
  }

  lemma CharacterPrints(byteCharacter: bool, content: Content)
    ensures Print(Character(byteCharacter, content))
      == (if byteCharacter then [98, APOSTROPHE] else [APOSTROPHE]) + (PrintContent(content) + [APOSTROPHE])
  {
    hide PrintContent;
    assert [98] + [APOSTROPHE] == [98, APOSTROPHE];
  }

  ghost predicate IsCharacterLexeme(data: Bytes, at: nat, l: Lexeme, end: nat) {
    l.Character? && StandsAt(data, at, l) && end == at + |Print(l)|
  }

  /** A character or byte literal is told from a lifetime exactly where one of the grammar's stands. */
  lemma CharacterMatchIff(data: Bytes, at: nat, end: nat)
    requires at < |data|
    ensures CharacterMatch(data, at) == Some(end) <==> exists l :: IsCharacterLexeme(data, at, l, end)
  {
    hide StandsAt, CharacterMatch, Print;
    if CharacterMatch(data, at) == Some(end) {
      var l := CharacterThere(data, at);
      CharacterIsMatched(data, at, l);
      assert IsCharacterLexeme(data, at, l, end);
    }
    if l :| IsCharacterLexeme(data, at, l, end) {
      CharacterIsMatched(data, at, l);
    }
  }

  lemma MatchIsLexeme(data: Bytes, at: nat) returns (l: Lexeme)
    requires at < |data| && Match(data, at).Some?
    ensures StandsAt(data, at, l)
  {
    hide StandsAt;
    if At2(data, at, SLASH, SLASH) {
      l := LineCommentThere(data, at);
    } else if At2(data, at, SLASH, STAR) {
      l := BlockCommentThere(data, at);
    } else if RawStart(data, at).Some? {
      l := RawStringThere(data, at);
    } else if StringStart(data, at).Some? {
      l := StringThere(data, at);
    } else {
      l := CharacterThere(data, at);
    }
  }

  /** The scan finds an end exactly where a lexeme of the grammar stands, and it is that lexeme's. */
  lemma MatchIffLexeme(data: Bytes, at: nat, end: nat)
    requires at < |data|
    ensures Match(data, at) == Some(end) <==> exists l :: StandsAt(data, at, l) && end == at + |Print(l)|
  {
    hide StandsAt, Match, Print;
    if Match(data, at) == Some(end) {
      var l := MatchIsLexeme(data, at);
      LexemeIsMatched(data, at, l);
    }
    forall l | StandsAt(data, at, l) ensures Match(data, at) == Some(at + |Print(l)|) {
      LexemeIsMatched(data, at, l);
    }
  }

  // ----- Whole texts

  /** Every text is made of pieces. */
  lemma {:induction false} EveryTextHasALexing(data: Bytes, at: nat) returns (pieces: seq<Piece>)
    requires at <= |data|
    ensures IsLexing(data, at, pieces)
    decreases |data| - at
  {
    if at == |data| {
      pieces := [];
    } else {
      var first := FirstPiece(data, at);
      hide IsLexing;
      var rest := EveryTextHasALexing(data, at + |PrintPiece(first)|);
      pieces := [first] + rest;
      LexingOfFirst(data, at, first, rest);
    }
  }

  lemma LexingOfFirst(data: Bytes, at: nat, first: Piece, rest: seq<Piece>)
    requires IsPiece(data, at, first) && IsLexing(data, at + |PrintPiece(first)|, rest)
    ensures IsLexing(data, at, [first] + rest)
  {
    hide IsPiece, PrintPiece;
    assert ([first] + rest)[1..] == rest;
  }

  lemma FirstPiece(data: Bytes, at: nat) returns (p: Piece)
    requires at < |data|
    ensures IsPiece(data, at, p) && at + |PrintPiece(p)| <= |data| && |PrintPiece(p)| > 0
  {
    hide StandsAt, Match, Print;
    if Match(data, at).Some? {
      var l := MatchIsLexeme(data, at);
      LexemeIsMatched(data, at, l);
      p := Hidden(l);
    } else {
      forall l ensures !StandsAt(data, at, l) {
        if StandsAt(data, at, l) {
          LexemeIsMatched(data, at, l);
        }
      }
      p := Code(data[at]);
    }
  }

  lemma {:induction false} PiecesStand(data: Bytes, at: nat, pieces: seq<Piece>)
    requires IsLexing(data, at, pieces)
    ensures at <= |data| && data[at..] == PrintPieces(pieces)
    decreases |pieces|
  {
    hide *;
    if pieces == [] {
      NoPieces(data, at);
    } else {
      LexingSplits(data, at, pieces);
      PieceStands(data, at, pieces[0]);
      PrintPiecesCons(pieces);
      var next := at + |PrintPiece(pieces[0])|;
      PiecesStand(data, next, pieces[1..]);
      Rejoined(data, at, next);
    }
  }

  lemma NoPieces(data: Bytes, at: nat)
    requires IsLexing(data, at, [])
    ensures at == |data| && data[at..] == PrintPieces([])
    ensures Painted(data, Spans(data, at))[at..] == BlankPieces([])
  {
    hide Spans;
  }

  lemma Rejoined(data: Bytes, at: nat, next: nat)
    requires at <= next <= |data|
    ensures data[at..] == data[at..next] + data[next..]
  {
  }

  lemma PrintPiecesCons(pieces: seq<Piece>)
    requires pieces != []
    ensures PrintPieces(pieces) == PrintPiece(pieces[0]) + PrintPieces(pieces[1..])
    ensures BlankPieces(pieces) == BlankPiece(pieces[0]) + BlankPieces(pieces[1..])
  {
  }

  lemma LexingSplits(data: Bytes, at: nat, pieces: seq<Piece>)
    requires pieces != [] && IsLexing(data, at, pieces)
    ensures at < |data| && IsPiece(data, at, pieces[0])
    ensures IsLexing(data, at + |PrintPiece(pieces[0])|, pieces[1..])
  {
    hide StandsAt, PrintPiece;
  }

  lemma PieceStands(data: Bytes, at: nat, p: Piece)
    requires IsPiece(data, at, p)
    ensures at + |PrintPiece(p)| <= |data| && data[at..at + |PrintPiece(p)|] == PrintPiece(p)
  {
    hide StandsAt, Print;
    if p.Hidden? {
      LexemeStarts(data, at, p.lexeme);
    }
  }

  lemma LexemeStarts(data: Bytes, at: nat, l: Lexeme)
    requires StandsAt(data, at, l)
    ensures StartsWith(data, Print(l), at)
  {
    hide StartsWith, Print, IsBody, AreOpen, Contains, IsContent, IsElement;
  }

  // ----- Blanking

  lemma CoversLater(data: Bytes, from: nat, i: nat)
    requires from <= |data| && i < from
    ensures !Covers(Spans(data, from), i)
  {
    SpansAreWellPlaced(data, from);
  }

  lemma PaintsPiece(data: Bytes, at: nat, p: Piece)
    requires IsPiece(data, at, p)
    ensures var next := at + |PrintPiece(p)|;
      && next <= |data|
      && Painted(data, Spans(data, at))[at..next] == BlankPiece(p)
      && Painted(data, Spans(data, at))[next..] == Painted(data, Spans(data, next))[next..]
  {
    var next := at + |PrintPiece(p)|;
    PieceStands(data, at, p);
    match p
    case Code(octet) => PaintsCode(data, at, octet);
    case Hidden(l) =>
      LexemeIsMatched(data, at, l);
      PaintsLexeme(data, at, next);
      hide Print, StandsAt, Spans, Painted;
      assert Spaced(data[at..next]) == Spaced(Print(l));
  }

  lemma PaintsCode(data: Bytes, at: nat, octet: byte)
    requires IsPiece(data, at, Code(octet))
    ensures Painted(data, Spans(data, at))[at..at + 1] == [octet]
    ensures Spans(data, at) == Spans(data, at + 1)
  {
    hide StandsAt;
    if Match(data, at).Some? {
      var l := MatchIsLexeme(data, at);
    }
    CoversLater(data, at + 1, at);
  }

  lemma PaintsLexeme(data: Bytes, at: nat, next: nat)
    requires at < |data| && Match(data, at) == Some(next)
    ensures Painted(data, Spans(data, at))[at..next] == Spaced(data[at..next])
    ensures Painted(data, Spans(data, at))[next..] == Painted(data, Spans(data, next))[next..]
  {
    assert Spans(data, at) == [Span(at, next)] + Spans(data, next);
    hide Match, Spans;
    PaintsFirstSpan(data, Span(at, next), Spans(data, next));
  }

  lemma PaintsFirstSpan(data: Bytes, first: Span, rest: seq<Span>)
    requires first.start <= first.end <= |data|
    ensures var out := Painted(data, [first] + rest);
      && out[first.start..first.end] == Spaced(data[first.start..first.end])
      && out[first.end..] == Painted(data, rest)[first.end..]
  {
    var spans := [first] + rest;
    assert first in spans;
    assert forall s :: s in spans <==> s == first || s in rest;
    assert forall i: nat | first.end <= i :: Covers(spans, i) <==> Covers(rest, i);
    assert forall i | first.start <= i < first.end :: Covers(spans, i);
  }

  lemma {:induction false} BlankingFrom(data: Bytes, at: nat, pieces: seq<Piece>)
    requires IsLexing(data, at, pieces)
    ensures at <= |data| && Painted(data, Spans(data, at))[at..] == BlankPieces(pieces)
    decreases |pieces|
  {
    hide *;
    if pieces == [] {
      NoPieces(data, at);
    } else {
      LexingSplits(data, at, pieces);
      PrintPiecesCons(pieces);
      var next, out := at + |PrintPiece(pieces[0])|, Painted(data, Spans(data, at));
      PaintsPiece(data, at, pieces[0]);
      BlankingFrom(data, next, pieces[1..]);
      Rejoined(out, at, next);
    }
  }

  /**
   * Blanking hides exactly the lexemes: whenever a text is a list of pieces, and every text is, what is left is
   * the code as it was with every lexeme spaced out between it.
   */
  lemma BlankingKeepsExactlyTheCode(data: Bytes)
    ensures exists pieces :: IsLexing(data, 0, pieces)
    ensures forall pieces | IsLexing(data, 0, pieces) ::
      data == PrintPieces(pieces) && Blanked(data) == BlankPieces(pieces)
  {
    var pieces := EveryTextHasALexing(data, 0);
    hide IsLexing;
    forall pieces | IsLexing(data, 0, pieces)
      ensures data == PrintPieces(pieces) && Blanked(data) == BlankPieces(pieces)
    {
      PiecesStand(data, 0, pieces);
      BlankingFrom(data, 0, pieces);
      assert data[0..] == data && Blanked(data)[0..] == Blanked(data);
    }
  }

  // ----- The scan and the tokenizer on identifiers

  /** White space apart, a character belongs to an atom exactly when each of its octets belongs to an identifier. */
  lemma AtomsAreIdentifierOctets(c: char)
    requires !RustTokens.IsWhitespace(c)
    ensures RustTokens.IsAtomCharacter(c) <==> forall b | b in EncodeChar(c) :: IsIdentifierOctet(b)
  {
    HighCharactersAreHigh(c);
    if c as int < 0x80 {
      assert EncodeChar(c)[0] in EncodeChar(c);
    }
  }
}
