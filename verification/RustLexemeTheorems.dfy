/** The scan finds exactly the lexemes of the grammar, and blanking hides exactly those. */
module RustLexemeTheorems {
  import opened Wrappers
  import opened Utf8
  import opened RustBlank
  import opened RustBlankTheorems
  import opened RustLexemes

  // ----- Texts at offsets

  lemma StartsConcat(data: Bytes, a: Bytes, b: Bytes, at: nat)
    ensures StartsWith(data, a + b, at) <==> StartsWith(data, a, at) && StartsWith(data, b, at + |a|)
  {
    var n, m := |a|, |b|;
    if at + n + m <= |data| {
      assert data[at..at + n + m][..n] == data[at..at + n];
      assert data[at..at + n + m][n..] == data[at + n..at + n + m];
      assert (a + b)[..n] == a && (a + b)[n..] == b;
      assert data[at..at + n] + data[at + n..at + n + m] == data[at..at + n + m];
    }
  }

  lemma StartsSlice(data: Bytes, at: nat, end: nat)
    requires at <= end <= |data|
    ensures StartsWith(data, data[at..end], at)
  {
  }

  lemma StartsOne(data: Bytes, octet: byte, at: nat)
    ensures StartsWith(data, [octet], at) <==> At(data, at, octet)
  {
    if at < |data| {
      assert data[at..at + 1] == [data[at]];
    }
  }

  lemma StartsTwo(data: Bytes, first: byte, second: byte, at: nat)
    ensures StartsWith(data, [first, second], at) <==> At2(data, at, first, second)
  {
    if at + 1 < |data| {
      assert data[at..at + 2] == [data[at], data[at + 1]];
    }
  }

  // ----- Block comments

  /** Depth is what the scan keeps of the comments it is inside; a body leaves it as it was. */
  lemma {:induction false} BodyIsPassed(data: Bytes, at: nat, parts: seq<Part>, depth: nat)
    requires IsBody(data, at, parts) && depth > 0
    ensures at + |PrintParts(parts)| <= |data|
    ensures BlockEnd(data, at, depth) == BlockEnd(data, at + |PrintParts(parts)|, depth)
    decreases parts
  {
    if parts != [] {
      match parts[0] {
        case Octet(octet) =>
        case Nested(inner) => BodyIsPassed(data, at + 2, inner, depth + 1);
      }
      BodyIsPassed(data, at + |PrintPart(parts[0])|, parts[1..], depth);
    }
  }

  lemma {:induction false} OpenLevelsRunOut(data: Bytes, at: nat, levels: seq<seq<Part>>, depth: nat)
    requires AreOpen(data, at, levels) && depth > 0
    ensures BlockEnd(data, at, depth) == |data| == at + |PrintLevels(levels)|
    decreases |levels|
  {
    BodyIsPassed(data, at, levels[0], depth);
    if |levels| > 1 {
      OpenLevelsRunOut(data, at + |PrintParts(levels[0])| + 2, levels[1..], depth + 1);
    }
  }

  /**
   * What a text holds from an offset on, up to the first mark that closes something opened before it: a body,
   * or a body and then comments still open at the end.
   */
  lemma {:induction false} ReadBody(data: Bytes, at: nat) returns (parts: seq<Part>, open: seq<seq<Part>>)
    requires at <= |data|
    ensures IsBody(data, at, parts) && at + |PrintParts(parts)| <= |data|
    ensures var end := at + |PrintParts(parts)|;
      if open == [] then end == |data| || At2(data, end, STAR, SLASH)
      else At2(data, end, SLASH, STAR) && AreOpen(data, end + 2, open)
    decreases |data| - at
  {
    EmptyBody(data, at);
    hide IsBody, AreOpen, PrintParts;
    if at == |data| || At2(data, at, STAR, SLASH) {
      parts, open := [], [];
    } else if At2(data, at, SLASH, STAR) {
      var inner, deeper := ReadBody(data, at + 2);
      var end := at + 2 + |PrintParts(inner)|;
      if deeper == [] && end < |data| {
        var rest;
        rest, open := ReadBody(data, end + 2);
        NestedFirst(data, at, inner, rest);
        parts := [Nested(inner)] + rest;
      } else {
        LevelFirst(data, at + 2, inner, deeper);
        parts, open := [], [inner] + deeper;
      }
    } else {
      var rest;
      rest, open := ReadBody(data, at + 1);
      OctetFirst(data, at, rest);
      parts := [Octet(data[at])] + rest;
    }
  }

  lemma EmptyBody(data: Bytes, at: nat)
    ensures IsBody(data, at, []) <==> at <= |data|
    ensures PrintParts([]) == []
  {
  }

  lemma OctetFirst(data: Bytes, at: nat, rest: seq<Part>)
    requires at < |data| && !At2(data, at, SLASH, STAR) && !At2(data, at, STAR, SLASH) && IsBody(data, at + 1, rest)
    ensures var parts := [Octet(data[at])] + rest;
      IsBody(data, at, parts) && |PrintParts(parts)| == 1 + |PrintParts(rest)|
  {
    assert ([Octet(data[at])] + rest)[1..] == rest;
  }

  lemma NestedFirst(data: Bytes, at: nat, inner: seq<Part>, rest: seq<Part>)
    requires At2(data, at, SLASH, STAR) && IsBody(data, at + 2, inner)
    requires var end := at + 2 + |PrintParts(inner)|; At2(data, end, STAR, SLASH) && IsBody(data, end + 2, rest)
    ensures var parts := [Nested(inner)] + rest;
      IsBody(data, at, parts) && |PrintParts(parts)| == 4 + |PrintParts(inner)| + |PrintParts(rest)|
  {
    assert ([Nested(inner)] + rest)[1..] == rest;
    assert |PrintPart(Nested(inner))| == 4 + |PrintParts(inner)|;
  }

  lemma LevelFirst(data: Bytes, at: nat, inner: seq<Part>, deeper: seq<seq<Part>>)
    requires IsBody(data, at, inner)
    requires var end := at + |PrintParts(inner)|;
      if deeper == [] then end == |data| else At2(data, end, SLASH, STAR) && AreOpen(data, end + 2, deeper)
    ensures AreOpen(data, at, [inner] + deeper)
  {
    hide IsBody, PrintParts;
    assert ([inner] + deeper)[1..] == deeper;
  }

  lemma {:induction false} BodyStarts(data: Bytes, at: nat, parts: seq<Part>)
    requires IsBody(data, at, parts)
    ensures StartsWith(data, PrintParts(parts), at)
    decreases parts
  {
    if parts != [] {
      hide StartsWith;
      match parts[0] {
        case Octet(octet) => StartsOne(data, octet, at);
        case Nested(inner) =>
          BodyStarts(data, at + 2, inner);
          NestedStarts(data, at, inner);
      }
      BodyStarts(data, at + |PrintPart(parts[0])|, parts[1..]);
      StartsConcat(data, PrintPart(parts[0]), PrintParts(parts[1..]), at);
    } else {
      assert data[at..at] == [];
    }
  }

  lemma NestedStarts(data: Bytes, at: nat, inner: seq<Part>)
    ensures StartsWith(data, PrintPart(Nested(inner)), at) <==>
      && At2(data, at, SLASH, STAR) && StartsWith(data, PrintParts(inner), at + 2)
      && At2(data, at + 2 + |PrintParts(inner)|, STAR, SLASH)
  {
    var text := PrintParts(inner);
    hide StartsWith, PrintParts;
    StartsTwo(data, SLASH, STAR, at);
    StartsTwo(data, STAR, SLASH, at + 2 + |text|);
    StartsConcat(data, [SLASH, STAR] + text, [STAR, SLASH], at);
    StartsConcat(data, [SLASH, STAR], text, at);
  }

  lemma {:induction false} LevelsStart(data: Bytes, at: nat, levels: seq<seq<Part>>)
    requires AreOpen(data, at, levels)
    ensures StartsWith(data, PrintLevels(levels), at)
    decreases |levels|
  {
    hide StartsWith, PrintParts, IsBody;
    BodyStarts(data, at, levels[0]);
    if |levels| > 1 {
      var text := PrintParts(levels[0]);
      LevelsStart(data, at + |text| + 2, levels[1..]);
      StartsTwo(data, SLASH, STAR, at + |text|);
      StartsConcat(data, text, [SLASH, STAR], at);
      StartsConcat(data, text + [SLASH, STAR], PrintLevels(levels[1..]), at);
    }
  }

  ghost predicate ClosesAfter(data: Bytes, at: nat, parts: seq<Part>, end: nat) {
    && IsBody(data, at, parts) && At2(data, at + |PrintParts(parts)|, STAR, SLASH)
    && end == at + |PrintParts(parts)| + 2
  }

  ghost predicate RunsOut(data: Bytes, at: nat, levels: seq<seq<Part>>) { AreOpen(data, at, levels) }

  /** A comment ends after the mark that balances its opening, or with the text when nothing does. */
  lemma BlockEndIff(data: Bytes, at: nat, end: nat)
    requires at <= |data|
    ensures BlockEnd(data, at, 1) == end <==>
      || (exists parts :: ClosesAfter(data, at, parts, end))
      || (end == |data| && exists levels :: RunsOut(data, at, levels))
  {
    var parts, open := ReadBody(data, at);
    var next := at + |PrintParts(parts)|;
    if open != [] || next == |data| {
      assert RunsOut(data, at, [parts] + open);
      OpenLevelsRunOut(data, at, [parts] + open, 1);
    } else {
      assert ClosesAfter(data, at, parts, next + 2);
      ClosedEnds(data, at, parts, next + 2);
      assert BlockEnd(data, at, 1) == end ==> ClosesAfter(data, at, parts, end);
    }
    if body :| ClosesAfter(data, at, body, end) {
      ClosedEnds(data, at, body, end);
    }
    if levels :| RunsOut(data, at, levels) {
      OpenLevelsRunOut(data, at, levels, 1);
    }
  }

  lemma ClosedEnds(data: Bytes, at: nat, parts: seq<Part>, end: nat)
    requires ClosesAfter(data, at, parts, end)
    ensures BlockEnd(data, at, 1) == end
  {
    BodyIsPassed(data, at, parts, 1);
  }

  // ----- Strings

  lemma {:induction false} ElementsArePassed(data: Bytes, at: nat, elements: seq<Element>)
    requires StartsWith(data, PrintElements(elements), at) && forall e | e in elements :: IsElement(e)
    ensures StringEnd(data, at, false) == StringEnd(data, at + |PrintElements(elements)|, false)
    decreases |elements|
  {
    if elements != [] {
      var first, rest := elements[0], PrintElements(elements[1..]);
      assert first in elements;
      StartsConcat(data, PrintElement(first), rest, at);
      ElementIsPassed(data, at, first);
      hide StartsWith, PrintElement, IsElement, StringEnd;
      ElementsArePassed(data, at + |PrintElement(first)|, elements[1..]);
    }
  }

  lemma ElementIsPassed(data: Bytes, at: nat, e: Element)
    requires IsElement(e) && StartsWith(data, PrintElement(e), at)
    ensures StringEnd(data, at, false) == StringEnd(data, at + |PrintElement(e)|, false)
  {
    match e
    case Plain(octet) => StartsOne(data, octet, at);
    case Escaped(octet) =>
      StartsTwo(data, BACKSLASH, octet, at);
      assert StringEnd(data, at + 1, true) == StringEnd(data, at + 2, false);
  }

  lemma {:induction false} ReadElements(data: Bytes, at: nat) returns (elements: seq<Element>, dangling: bool)
    requires at <= |data|
    ensures StartsWith(data, PrintElements(elements), at) && forall e | e in elements :: IsElement(e)
    ensures var end := at + |PrintElements(elements)|;
      if dangling then At(data, end, BACKSLASH) && end + 1 == |data| else end == |data| || At(data, end, QUOTE)
    decreases |data| - at
  {
    if at == |data| || data[at] == QUOTE || (data[at] == BACKSLASH && at + 1 == |data|) {
      elements, dangling := [], At(data, at, BACKSLASH);
      assert data[at..at] == [];
    } else {
      var first := FirstElement(data, at);
      hide StartsWith;
      var rest;
      rest, dangling := ReadElements(data, at + |PrintElement(first)|);
      elements := [first] + rest;
      StartsConcat(data, PrintElement(first), PrintElements(rest), at);
      hide PrintElement, IsElement;
      assert elements[1..] == rest;
    }
  }

  lemma FirstElement(data: Bytes, at: nat) returns (first: Element)
    requires at < |data| && data[at] != QUOTE && !(data[at] == BACKSLASH && at + 1 == |data|)
    ensures IsElement(first) && StartsWith(data, PrintElement(first), at) && 0 < |PrintElement(first)|
    ensures at + |PrintElement(first)| <= |data|
  {
    StartsOne(data, data[at], at);
    if data[at] == BACKSLASH {
      first := Escaped(data[at + 1]);
      StartsTwo(data, data[at], data[at + 1], at);
    } else {
      first := Plain(data[at]);
    }
    hide StartsWith;
  }

  /** The elements and what closes them: a quote, or the end of the text, perhaps after a lone backslash. */
  ghost predicate IsStringBody(data: Bytes, at: nat, elements: seq<Element>, closing: Bytes, end: nat) {
    && (forall e | e in elements :: IsElement(e))
    && StartsWith(data, PrintElements(elements) + closing, at) && end == at + |PrintElements(elements) + closing|
    && (closing == [QUOTE] || (closing in {[], [BACKSLASH]} && end == |data|))
  }

  /** A string ends after the first quote that no backslash escapes, or with the text. */
  lemma StringEndIff(data: Bytes, at: nat, end: nat)
    requires at <= |data|
    ensures StringEnd(data, at, false) == end
      <==> exists elements, closing :: IsStringBody(data, at, elements, closing, end)
  {
    var elements, closing, e := ReadString(data, at);
    hide IsStringBody;
    forall elements, closing, e | IsStringBody(data, at, elements, closing, e)
      ensures StringEnd(data, at, false) == e
    {
      StringEndsAfter(data, at, elements, closing, e);
    }
  }

  lemma ReadString(data: Bytes, at: nat) returns (elements: seq<Element>, closing: Bytes, end: nat)
    requires at <= |data|
    ensures IsStringBody(data, at, elements, closing, end)
  {
    var dangling;
    elements, dangling := ReadElements(data, at);
    var text := PrintElements(elements);
    var next := at + |text|;
    closing := if dangling then [BACKSLASH] else if next == |data| then [] else [QUOTE];
    end := next + |closing|;
    StartsConcat(data, text, closing, at);
    if closing == [] {
      assert data[next..next] == [];
    } else {
      StartsOne(data, closing[0], next);
    }
    hide StartsWith, PrintElements;
  }

  lemma StringEndsAfter(data: Bytes, at: nat, elements: seq<Element>, closing: Bytes, end: nat)
    requires IsStringBody(data, at, elements, closing, end)
    ensures StringEnd(data, at, false) == end
  {
    StartsConcat(data, PrintElements(elements), closing, at);
    ElementsArePassed(data, at, elements);
    if closing != [] {
      StartsOne(data, closing[0], at + |PrintElements(elements)|);
    }
    hide PrintElements;
  }

  // ----- Raw strings

  lemma {:induction false} PastFirst(data: Bytes, pattern: Bytes, from: nat, at: nat)
    requires pattern != [] && from <= at && StartsWith(data, pattern, at)
    requires forall i | from <= i < at :: !StartsWith(data, pattern, i)
    ensures PastOrEnd(data, pattern, from) == at + |pattern|
    decreases at - from
  {
    if from < at {
      PastFirst(data, pattern, from + 1, at);
    }
  }

  lemma {:induction false} PastNone(data: Bytes, pattern: Bytes, from: nat)
    requires pattern != [] && from <= |data|
    requires forall i | from <= i < |data| :: !StartsWith(data, pattern, i)
    ensures PastOrEnd(data, pattern, from) == |data|
    decreases |data| - from
  {
    if from < |data| {
      PastNone(data, pattern, from + 1);
    }
  }

  lemma {:induction false} FirstOccurrence(data: Bytes, pattern: Bytes, from: nat) returns (at: nat)
    requires pattern != [] && from <= |data|
    ensures from <= at <= |data| && forall i | from <= i < at :: !StartsWith(data, pattern, i)
    ensures at < |data| ==> StartsWith(data, pattern, at)
    decreases |data| - from
  {
    if from == |data| || StartsWith(data, pattern, from) {
      at := from;
    } else {
      at := FirstOccurrence(data, pattern, from + 1);
    }
  }

  lemma MarkOctet(data: Bytes, hashes: nat, at: nat, k: nat)
    requires StartsWith(data, Terminator(hashes), at) && k <= hashes
    ensures data[at + k] == if k == 0 then QUOTE else HASH
  {
    assert data[at + k] == data[at..at + hashes + 1][k] == Terminator(hashes)[k];
  }

  /** A closing mark that starts in the content ends in it, as neither the next one nor the end can be inside it. */
  lemma MarksDoNotOverlap(data: Bytes, hashes: nat, at: nat, end: nat)
    requires at < end && StartsWith(data, Terminator(hashes), at)
    requires end == |data| || StartsWith(data, Terminator(hashes), end)
    ensures at + hashes + 1 <= end
  {
    if end < at + hashes + 1 {
      MarkOctet(data, hashes, end, 0);
      MarkOctet(data, hashes, at, end - at);
    }
  }

  lemma StartsInside(data: Bytes, from: nat, content: Bytes, pattern: Bytes, i: nat)
    requires StartsWith(data, content, from) && i + |pattern| <= |content|
    ensures StartsWith(content, pattern, i) <==> StartsWith(data, pattern, from + i)
  {
    var there, here := data[from + i..from + i + |pattern|], content[i..i + |pattern|];
    assert forall k | 0 <= k < |content| :: content[k] == data[from..from + |content|][k] == data[from + k];
    assert forall k | 0 <= k < |pattern| :: there[k] == data[from + i + k] && here[k] == content[i + k];
    assert there == here;
  }

  /** The content of a raw string is free of the closing mark exactly when the mark stands nowhere before it ends. */
  lemma ContentIsFree(data: Bytes, from: nat, content: Bytes, hashes: nat)
    requires StartsWith(data, content, from)
    requires var end := from + |content|; end == |data| || StartsWith(data, Terminator(hashes), end)
    ensures !Contains(content, Terminator(hashes))
      <==> forall i | from <= i < from + |content| :: !StartsWith(data, Terminator(hashes), i)
  {
    var mark, end := Terminator(hashes), from + |content|;
    forall i | 0 <= i <= |content| && StartsWith(content, mark, i) ensures StartsWith(data, mark, from + i) {
      StartsInside(data, from, content, mark, i);
    }
    forall i | from <= i < end && StartsWith(data, mark, i) ensures StartsWith(content, mark, i - from) {
      MarksDoNotOverlap(data, hashes, i, end);
      StartsInside(data, from, content, mark, i - from);
    }
    if Contains(content, mark) {
      var i :| 0 <= i <= |content| && StartsWith(content, mark, i);
      assert i + |mark| <= |content|;
      assert StartsWith(data, mark, from + i);
    }
  }

  lemma HashesStand(data: Bytes, at: nat, hashes: nat)
    ensures StartsWith(data, Hashes(hashes), at)
      <==> at + hashes <= |data| && forall i | at <= i < at + hashes :: data[i] == HASH
  {
    if at + hashes <= |data| {
      var slice := data[at..at + hashes];
      assert forall i | 0 <= i < hashes :: slice[i] == data[at + i];
      if StartsWith(data, Hashes(hashes), at) {
        assert forall i | at <= i < at + hashes :: data[i] == slice[i - at];
      }
    }
  }

  lemma {:induction false} HashesCounted(data: Bytes, at: nat, hashes: nat)
    requires at + hashes <= |data| && !At(data, at + hashes, HASH)
    requires forall i | at <= i < at + hashes :: data[i] == HASH
    ensures AfterHashes(data, at) == at + hashes
    decreases hashes
  {
    if hashes > 0 {
      HashesCounted(data, at + 1, hashes - 1);
    }
  }

  /** The opening of a raw string, and where its content starts. */
  ghost predicate OpensAt(data: Bytes, at: nat, prefix: Bytes, hashes: nat, content: nat) {
    StartsWith(data, RawOpening(prefix, hashes), at) && content == at + |prefix| + hashes + 1
  }

  lemma RawStartAfterIff(data: Bytes, at: nat, prefix: Bytes, hashes: nat, content: nat)
    ensures OpensAt(data, at, prefix, hashes, content) <==> RawStartAfter(data, at, prefix) == Some((content, hashes))
  {
    var start := at + |prefix|;
    RawOpeningStands(data, at, prefix, hashes);
    hide StartsWith, RawOpening;
    if OpensAt(data, at, prefix, hashes, content) {
      HashesCounted(data, start, hashes);
    }
    if RawStartAfter(data, at, prefix) == Some((content, hashes)) {
      assert AfterHashes(data, start) == start + hashes;
    }
  }

  lemma RawOpeningStands(data: Bytes, at: nat, prefix: Bytes, hashes: nat)
    ensures var start := at + |prefix|;
      StartsWith(data, RawOpening(prefix, hashes), at) <==>
        && StartsWith(data, prefix, at) && At(data, start + hashes, QUOTE)
        && start + hashes <= |data| && forall i | start <= i < start + hashes :: data[i] == HASH
  {
    var start := at + |prefix|;
    var marks := Hashes(hashes);
    assert RawOpening(prefix, hashes) == prefix + marks + [QUOTE] && |prefix + marks| == |prefix| + hashes;
    StartsConcat(data, prefix + marks, [QUOTE], at);
    StartsConcat(data, prefix, marks, at);
    StartsOne(data, QUOTE, start + hashes);
    HashesStand(data, start, hashes);
    hide StartsWith, Hashes, RawOpening;
  }

  lemma RawPrefixShape(p: Bytes)
    requires p in RAW_PREFIXES
    ensures 1 <= |p| <= 2 && (|p| == 2 ==> p[1] !in {HASH, QUOTE})
  {
  }

  lemma RawPrefixOctets(data: Bytes, at: nat, p: Bytes)
    requires RawStartAfter(data, at, p).Some?
    ensures at + |p| < |data| && data[at + |p|] in {HASH, QUOTE}
    ensures forall i | 0 <= i < |p| :: data[at + i] == p[i]
  {
    assert forall i | 0 <= i < |p| :: data[at + i] == data[at..at + |p|][i] == p[i];
  }

  lemma OneRawPrefix(data: Bytes, at: nat, p: Bytes, q: Bytes)
    requires p in RAW_PREFIXES && q in RAW_PREFIXES
    requires RawStartAfter(data, at, p).Some? && RawStartAfter(data, at, q).Some?
    ensures p == q
  {
    RawPrefixShape(p);
    RawPrefixShape(q);
    RawPrefixOctets(data, at, p);
    RawPrefixOctets(data, at, q);
    hide *;
    assert |p| == |q|;
    assert forall i | 0 <= i < |p| :: p[i] == data[at + i] == q[i];
  }

  lemma {:induction false} RawStartFromFinds(data: Bytes, at: nat, prefixes: seq<Bytes>, prefix: Bytes)
    requires prefix in prefixes && (forall p | p in prefixes :: p in RAW_PREFIXES)
    requires RawStartAfter(data, at, prefix).Some?
    ensures RawStartFrom(data, at, prefixes) == RawStartAfter(data, at, prefix)
  {
    hide RawStartAfter;
    if RawStartAfter(data, at, prefixes[0]).Some? {
      OneRawPrefix(data, at, prefixes[0], prefix);
    } else {
      RawStartFromFinds(data, at, prefixes[1..], prefix);
    }
  }

  lemma {:induction false} RawStartFromPrefix(data: Bytes, at: nat, prefixes: seq<Bytes>) returns (prefix: Bytes)
    requires RawStartFrom(data, at, prefixes).Some?
    ensures prefix in prefixes && RawStartAfter(data, at, prefix) == RawStartFrom(data, at, prefixes)
  {
    hide RawStartAfter;
    if RawStartAfter(data, at, prefixes[0]).Some? {
      prefix := prefixes[0];
    } else {
      prefix := RawStartFromPrefix(data, at, prefixes[1..]);
    }
  }

  /** A raw string starts exactly where one of the prefixes, some hashes and a quote stand. */
  lemma RawStartIff(data: Bytes, at: nat, content: nat, hashes: nat)
    ensures RawStart(data, at) == Some((content, hashes))
      <==> exists prefix | prefix in RAW_PREFIXES :: OpensAt(data, at, prefix, hashes, content)
  {
    hide OpensAt, RawStartFrom;
    forall prefix | prefix in RAW_PREFIXES && OpensAt(data, at, prefix, hashes, content)
      ensures RawStart(data, at) == Some((content, hashes))
    {
      RawStartAfterIff(data, at, prefix, hashes, content);
      RawStartFromFinds(data, at, RAW_PREFIXES, prefix);
    }
    if RawStart(data, at) == Some((content, hashes)) {
      var prefix := RawStartFromPrefix(data, at, RAW_PREFIXES);
      RawStartAfterIff(data, at, prefix, hashes, content);
    }
  }

  // ----- Characters

  function Accumulated(value: nat, digits: seq<Digit>): nat
    requires AreDigits(digits)
    decreases |digits|
  {
    if digits == [] then value else Accumulated(value * 16 + HexValue(digits[0].octet), digits[1..])
  }

  lemma {:induction false} AccumulatedLast(value: nat, digits: seq<Digit>)
    requires digits != [] && AreDigits(digits)
    decreases |digits|
    ensures var last := |digits| - 1;
      Accumulated(value, digits) == 16 * Accumulated(value, digits[..last]) + HexValue(digits[last].octet)
  {
    var last := |digits| - 1;
    if last == 0 {
      assert digits[..0] == [] && digits[1..] == [];
    } else {
      AccumulatedLast(value * 16 + HexValue(digits[0].octet), digits[1..]);
      assert digits[1..][..last - 1] == digits[..last][1..];
    }
  }

  lemma {:induction false} AccumulatedIsValue(digits: seq<Digit>)
    requires AreDigits(digits)
    ensures Accumulated(0, digits) == DigitsValue(digits)
  {
    if digits != [] {
      AccumulatedLast(0, digits);
      AccumulatedIsValue(digits[..|digits| - 1]);
    }
  }

  /** What `\u{` may be followed by, when some digits have been read already. */
  predicate EndsEscape(value: nat, count: nat, underscore: bool) {
    1 <= count <= 6 && !underscore && value <= 0x10FFFF && !(0xD800 <= value <= 0xDFFF)
  }

  lemma {:induction false} DigitsArePassed(data: Bytes, at: nat, digits: seq<Digit>, count: nat, value: nat,
    underscore: bool)
    requires StartsWith(data, PrintDigits(digits), at) && AreDigits(digits)
    ensures UnicodeEscapeEnd(data, at, count, value, underscore)
      == UnicodeEscapeEnd(data, at + |PrintDigits(digits)|, count + |digits|, Accumulated(value, digits),
        if digits == [] then underscore else digits[|digits| - 1].underscored)
    decreases |digits|
  {
    if digits != [] {
      var first := digits[0];
      var next := at + 1 + (if first.underscored then 1 else 0);
      FirstDigitIsPassed(data, at, digits, count, value, underscore);
      hide StartsWith, PrintDigits, UnicodeEscapeEnd;
      assert first in digits && AreDigits(digits[1..]);
      DigitsArePassed(data, next, digits[1..], count + 1, value * 16 + HexValue(first.octet), first.underscored);
    }
  }

  lemma FirstDigitIsPassed(data: Bytes, at: nat, digits: seq<Digit>, count: nat, value: nat, underscore: bool)
    requires digits != [] && IsHexDigit(digits[0].octet) && StartsWith(data, PrintDigits(digits), at)
    ensures var next := at + 1 + (if digits[0].underscored then 1 else 0);
      && |PrintDigits(digits)| == next - at + |PrintDigits(digits[1..])|
      && StartsWith(data, PrintDigits(digits[1..]), next)
      && UnicodeEscapeEnd(data, at, count, value, underscore)
        == UnicodeEscapeEnd(data, next, count + 1, value * 16 + HexValue(digits[0].octet), digits[0].underscored)
  {
    var first := digits[0];
    var mark: Bytes := if first.underscored then [95] else [];
    StartsConcat(data, [first.octet] + mark, PrintDigits(digits[1..]), at);
    StartsConcat(data, [first.octet], mark, at);
    StartsOne(data, first.octet, at);
    StartsOne(data, 95, at + 1);
    hide StartsWith;
  }

  /** A hexadecimal digit stands for its place among the sixteen, in either case. */
  lemma HexDigitIff(b: byte, n: nat)
    requires n < 16
    ensures IsHexDigit(b) && HexValue(b) == n
      <==> b == "0123456789abcdef"[n] as int || b == "0123456789ABCDEF"[n] as int
  {
  }

  lemma {:induction false} ReadDigits(data: Bytes, at: nat, count: nat, value: nat, underscore: bool)
    returns (digits: seq<Digit>)
    requires UnicodeEscapeEnd(data, at, count, value, underscore).Some?
    requires At(data, at, 95) ==> count == 0 || underscore
    ensures AreDigits(digits) && StartsWith(data, PrintDigits(digits) + [125], at)
    ensures UnicodeEscapeEnd(data, at, count, value, underscore).value == at + |PrintDigits(digits)| + 1
    ensures EndsEscape(Accumulated(value, digits), count + |digits|,
      if digits == [] then underscore else digits[|digits| - 1].underscored)
    decreases |data| - at
  {
    if data[at] == 125 {
      digits := [];
      StartsOne(data, 125, at);
      assert PrintDigits(digits) + [125] == [125];
    } else {
      var underscored := At(data, at + 1, 95);
      var mark: Bytes := if underscored then [95] else [];
      var next := at + 1 + |mark|;
      var rest := ReadDigits(data, next, count + 1, value * 16 + HexValue(data[at]), underscored);
      digits := [Digit(data[at], underscored)] + rest;
      assert digits[1..] == rest;
      DigitFirst(data, at, mark, rest);
      hide StartsWith, UnicodeEscapeEnd;
      assert PrintDigits(digits) == [data[at]] + mark + PrintDigits(rest);
      assert PrintDigits(digits) + [125] == [data[at]] + mark + (PrintDigits(rest) + [125]);
    }
  }

  lemma DigitFirst(data: Bytes, at: nat, mark: Bytes, rest: seq<Digit>)
    requires at < |data| && mark == (if At(data, at + 1, 95) then [95] else [])
    requires StartsWith(data, PrintDigits(rest) + [125], at + 1 + |mark|)
    ensures StartsWith(data, [data[at]] + mark + (PrintDigits(rest) + [125]), at)
  {
    StartsOne(data, data[at], at);
    StartsOne(data, 95, at + 1);
    if mark == [] {
      assert data[at + 1..at + 1] == [];
    }
    StartsConcat(data, [data[at]], mark, at);
    StartsConcat(data, [data[at]] + mark, PrintDigits(rest) + [125], at);
  }

  lemma StartsFour(data: Bytes, at: nat, text: Bytes)
    requires |text| == 4
    ensures StartsWith(data, text, at) <==> at + 4 <= |data| && forall i | 0 <= i < 4 :: data[at + i] == text[i]
  {
    if at + 4 <= |data| {
      var slice := data[at..at + 4];
      assert forall i | 0 <= i < 4 :: slice[i] == data[at + i];
    }
  }

  lemma UnicodeStands(data: Bytes, at: nat, digits: seq<Digit>)
    ensures StartsWith(data, PrintContent(Unicode(digits)), at) <==>
      && At2(data, at, BACKSLASH, 117) && At(data, at + 2, 123)
      && StartsWith(data, PrintDigits(digits) + [125], at + 3)
  {
    var text := PrintDigits(digits) + [125];
    assert PrintContent(Unicode(digits)) == [BACKSLASH, 117] + ([123] + text);
    StartsConcat(data, [BACKSLASH, 117], [123] + text, at);
    StartsConcat(data, [123], text, at + 2);
    StartsTwo(data, BACKSLASH, 117, at);
    StartsOne(data, 123, at + 2);
    hide StartsWith, PrintDigits;
  }

  lemma BraceEnds(data: Bytes, at: nat, count: nat, value: nat)
    requires At(data, at, 125) && EndsEscape(value, count, false)
    ensures UnicodeEscapeEnd(data, at, count, value, false) == Some(at + 1)
  {
  }

  lemma UnicodeStarts(data: Bytes, at: nat)
    requires At2(data, at, BACKSLASH, 117) && At(data, at + 2, 123)
    ensures EscapeEnd(data, at, false) == UnicodeEscapeEnd(data, at + 3, 0, 0, false)
  {
    hide UnicodeEscapeEnd, IsHexDigit, HexValue;
  }

  lemma UnicodeEnds(data: Bytes, at: nat, digits: seq<Digit>)
    requires IsContent(Unicode(digits), false) && StartsWith(data, PrintContent(Unicode(digits)), at)
    ensures EscapeEnd(data, at, false) == Some(at + |PrintContent(Unicode(digits))|)
  {
    var text := PrintDigits(digits);
    UnicodeStands(data, at, digits);
    StartsConcat(data, text, [125], at + 3);
    StartsOne(data, 125, at + 3 + |text|);
    AccumulatedIsValue(digits);
    hide StartsWith, PrintDigits, UnicodeEscapeEnd, EscapeEnd, HexValue;
    UnicodeStarts(data, at);
    DigitsArePassed(data, at + 3, digits, 0, 0, false);
    BraceEnds(data, at + 3 + |text|, |digits|, Accumulated(0, digits));
  }

  lemma EscapeEnds(data: Bytes, at: nat, content: Content, byteCharacter: bool)
    requires !content.Scalar? && IsContent(content, byteCharacter) && StartsWith(data, PrintContent(content), at)
    ensures EscapeEnd(data, at, byteCharacter) == Some(at + |PrintContent(content)|)
  {
    match content
    case Simple(octet) => StartsTwo(data, BACKSLASH, octet, at);
    case Hex(high, low) => HexEnds(data, at, high, low, byteCharacter);
    case Unicode(digits) => UnicodeEnds(data, at, digits);
  }

  lemma HexEnds(data: Bytes, at: nat, high: byte, low: byte, byteCharacter: bool)
    requires IsContent(Hex(high, low), byteCharacter) && StartsWith(data, PrintContent(Hex(high, low)), at)
    ensures EscapeEnd(data, at, byteCharacter) == Some(at + 4)
  {
    StartsFour(data, at, [BACKSLASH, 120, high, low]);
    hide StartsWith, HexValue, IsHexDigit, UnicodeEscapeEnd;
  }

  lemma ReadEscape(data: Bytes, at: nat, byteCharacter: bool) returns (content: Content)
    requires EscapeEnd(data, at, byteCharacter).Some?
    ensures !content.Scalar? && IsContent(content, byteCharacter) && StartsWith(data, PrintContent(content), at)
  {
    var kind := data[at + 1];
    if kind in {110, 114, 116, 48, BACKSLASH, APOSTROPHE, QUOTE} {
      content := Simple(kind);
      StartsTwo(data, BACKSLASH, kind, at);
    } else if kind == 120 {
      content := Hex(data[at + 2], data[at + 3]);
      StartsFour(data, at, [BACKSLASH, 120, data[at + 2], data[at + 3]]);
    } else {
      var digits := ReadUnicode(data, at);
      content := Unicode(digits);
    }
  }

  lemma ReadUnicode(data: Bytes, at: nat) returns (digits: seq<Digit>)
    requires EscapeEnd(data, at, false).Some? && At(data, at + 1, 117)
    ensures IsContent(Unicode(digits), false) && StartsWith(data, PrintContent(Unicode(digits)), at)
  {
    digits := ReadDigits(data, at + 3, 0, 0, false);
    UnicodeStands(data, at, digits);
    AccumulatedIsValue(digits);
    hide StartsWith, PrintContent;
  }

  ghost predicate IsEscape(data: Bytes, at: nat, content: Content, byteCharacter: bool, end: nat) {
    && !content.Scalar? && IsContent(content, byteCharacter)
    && StartsWith(data, PrintContent(content), at) && end == at + |PrintContent(content)|
  }

  /** An escape ends exactly where one of the grammar's does. */
  lemma EscapeEndIff(data: Bytes, at: nat, byteCharacter: bool, end: nat)
    ensures EscapeEnd(data, at, byteCharacter) == Some(end)
      <==> exists content :: IsEscape(data, at, content, byteCharacter, end)
  {
    hide *;
    if EscapeEnd(data, at, byteCharacter) == Some(end) {
      var content := EscapeThere(data, at, byteCharacter, end);
    }
    if content :| IsEscape(data, at, content, byteCharacter, end) {
      EscapeIsThere(data, at, content, byteCharacter, end);
    }
  }

  lemma EscapeThere(data: Bytes, at: nat, byteCharacter: bool, end: nat) returns (content: Content)
    requires EscapeEnd(data, at, byteCharacter) == Some(end)
    ensures IsEscape(data, at, content, byteCharacter, end)
  {
    hide EscapeEnd, PrintContent, IsContent, StartsWith;
    content := ReadEscape(data, at, byteCharacter);
    EscapeEnds(data, at, content, byteCharacter);
  }

  lemma EscapeIsThere(data: Bytes, at: nat, content: Content, byteCharacter: bool, end: nat)
    requires IsEscape(data, at, content, byteCharacter, end)
    ensures EscapeEnd(data, at, byteCharacter) == Some(end)
  {
    hide EscapeEnd, PrintContent, IsContent, StartsWith;
    EscapeEnds(data, at, content, byteCharacter);
  }

  lemma WidthOfFirst(slice: Bytes)
    requires DecodeOne(slice).Some?
    ensures slice[0] >= 0x80 ==> ScalarWidth(slice[0]) == DecodeOne(slice).value.1
    ensures slice[0] < 0x80 <==> DecodeOne(slice).value.0 < '\U{80}'
    ensures slice[0] < 0x80 ==> DecodeOne(slice).value == (slice[0] as char, 1)
  {
  }

  lemma ScalarEnds(data: Bytes, at: nat, c: char)
    requires c !in {'\n', '\r', '\'', '\\'} && StartsWith(data, EncodeChar(c), at)
    ensures ScalarEnd(data, at) == Some(at + |EncodeChar(c)|)
    ensures at < |data| && data[at] != BACKSLASH && (data[at] < 0x80 <==> c < '\U{80}')
  {
    var slice := EncodeChar(c);
    DecodeOneInvertsEncodeChar(c, []);
    DecodeInvertsEncode([c]);
    assert slice + [] == slice == Encode([c]);
    WidthOfFirst(slice);
    assert data[at] == data[at..at + |slice|][0] == slice[0];
    hide EncodeChar, DecodeOne, Decode, StartsWith;
  }

  lemma ReadScalar(data: Bytes, at: nat) returns (c: char)
    requires ScalarEnd(data, at).Some?
    ensures c !in {'\n', '\r', '\'', '\\'} && StartsWith(data, EncodeChar(c), at)
    ensures data[at] < 0x80 <==> c < '\U{80}'
  {
    var width := if data[at] < 0x80 then 1 else ScalarWidth(data[at]);
    var slice := data[at..at + width];
    assert slice[0] == data[at];
    assert DecodeOne(slice).Some?;
    WidthOfFirst(slice);
    EncodeCharInvertsDecodeOne(slice);
    c := DecodeOne(slice).value.0;
    assert EncodeChar(c) == slice[..width] == slice;
    hide EncodeChar, DecodeOne, Decode;
  }

  lemma CharacterEnds(data: Bytes, at: nat, content: Content, byteCharacter: bool)
    requires IsContent(content, byteCharacter) && StartsWith(data, PrintContent(content) + [APOSTROPHE], at)
    ensures CharacterEnd(data, at, byteCharacter) == Some(at + |PrintContent(content)| + 1)
  {
    var text := PrintContent(content);
    StartsConcat(data, text, [APOSTROPHE], at);
    StartsOne(data, APOSTROPHE, at + |text|);
    match content {
      case Scalar(c) => ScalarEnds(data, at, c);
      case _ =>
        EscapeEnds(data, at, content, byteCharacter);
        assert data[at] == BACKSLASH;
    }
    hide StartsWith, EscapeEnd, ScalarEnd, PrintContent;
  }

  lemma ReadCharacter(data: Bytes, at: nat, byteCharacter: bool) returns (content: Content)
    requires CharacterEnd(data, at, byteCharacter).Some?
    ensures IsContent(content, byteCharacter) && StartsWith(data, PrintContent(content) + [APOSTROPHE], at)
    ensures CharacterEnd(data, at, byteCharacter).value == at + |PrintContent(content)| + 1
  {
    content := ReadContent(data, at, byteCharacter);
    hide *;
    ContentThenQuote(data, at, content);
  }

  lemma ReadContent(data: Bytes, at: nat, byteCharacter: bool) returns (content: Content)
    requires CharacterEnd(data, at, byteCharacter).Some?
    ensures IsContent(content, byteCharacter) && StartsWith(data, PrintContent(content), at)
    ensures CharacterEnd(data, at, byteCharacter).value == at + |PrintContent(content)| + 1
    ensures At(data, at + |PrintContent(content)|, APOSTROPHE)
  {
    CharacterInParts(data, at, byteCharacter);
    hide *;
    if At(data, at, BACKSLASH) {
      content := ReadEscape(data, at, byteCharacter);
      EscapeEnds(data, at, content, byteCharacter);
    } else {
      var c := ReadScalar(data, at);
      content := Scalar(c);
      ScalarEnds(data, at, c);
      ScalarIsContent(c, byteCharacter);
    }
  }

  lemma CharacterInParts(data: Bytes, at: nat, byteCharacter: bool)
    requires CharacterEnd(data, at, byteCharacter).Some?
    ensures at < |data|
    ensures var end := if At(data, at, BACKSLASH) then EscapeEnd(data, at, byteCharacter) else ScalarEnd(data, at);
      end.Some? && At(data, end.value, APOSTROPHE) && CharacterEnd(data, at, byteCharacter) == Some(end.value + 1)
    ensures !At(data, at, BACKSLASH) && byteCharacter ==> data[at] < 0x80
  {
    hide EscapeEnd, ScalarEnd;
  }

  lemma ScalarIsContent(c: char, byteCharacter: bool)
    requires c !in {'\n', '\r', '\'', '\\'} && (byteCharacter ==> c < '\U{80}')
    ensures IsContent(Scalar(c), byteCharacter) && PrintContent(Scalar(c)) == EncodeChar(c)
  {
    hide EncodeChar;
  }

  lemma ContentThenQuote(data: Bytes, at: nat, content: Content)
    requires StartsWith(data, PrintContent(content), at) && At(data, at + |PrintContent(content)|, APOSTROPHE)
    ensures StartsWith(data, PrintContent(content) + [APOSTROPHE], at)
  {
    StartsConcat(data, PrintContent(content), [APOSTROPHE], at);
    StartsOne(data, APOSTROPHE, at + |PrintContent(content)|);
  }
}
