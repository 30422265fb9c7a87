/** Splitting blanked Rust text into tokens. */
module RustTokens {
  datatype Token = Token(value: string, offset: nat, identifier: bool, raw: bool)

  /** A token without its place. */
  datatype Word = Word(value: string, identifier: bool, raw: bool)

  function WordOf(token: Token): Word { Word(token.value, token.identifier, token.raw) }

  function Words(tokens: seq<Token>): (r: seq<Word>)
    ensures |r| == |tokens|
  {
    seq(|tokens|, i requires 0 <= i < |tokens| => WordOf(tokens[i]))
  }

  predicate IsWhitespace(c: char) {
    c in {'\t', '\n', '\U{0B}', '\U{0C}', '\r', ' ', '\U{85}', '\U{200E}', '\U{200F}', '\U{2028}', '\U{2029}'}
  }

  const BYTE_ORDER_MARK: char := '\U{FEFF}'

  predicate IsAtomCharacter(c: char) {
    && !IsWhitespace(c)
    && (c as int >= 0x80 || 'A' <= c <= 'Z' || 'a' <= c <= 'z' || '0' <= c <= '9' || c == '_')
  }

  predicate IsAtom(s: string) { s != "" && forall i | 0 <= i < |s| :: IsAtomCharacter(s[i]) }

  /** The shapes the tokenizer can produce. */
  predicate IsLexed(w: Word) {
    if w.identifier then IsAtom(w.value)
    else !w.raw && (w.value == "::" || (|w.value| == 1 && !IsAtomCharacter(w.value[0]) && !IsWhitespace(w.value[0])))
  }

  function AtomEnd(source: string, from: nat): (end: nat)
    requires from <= |source|
    ensures from <= end <= |source|
    ensures forall i | from <= i < end :: IsAtomCharacter(source[i])
    ensures end < |source| ==> !IsAtomCharacter(source[end])
    decreases |source| - from
  {
    if from < |source| && IsAtomCharacter(source[from]) then AtomEnd(source, from + 1) else from
  }

  predicate IsRawStart(source: string, index: nat) {
    && index + 2 < |source| && source[index] == 'r' && source[index + 1] == '#'
    && IsAtomCharacter(source[index + 2])
  }

  predicate IsSkipped(source: string, index: nat)
    requires index < |source|
  {
    (index == 0 && source[0] == BYTE_ORDER_MARK) || IsWhitespace(source[index])
  }

  /** The token at an offset that starts one, and where it ends. */
  function TokenAt(source: string, index: nat): (r: (Token, nat))
    requires index < |source|
    ensures index < r.1 <= |source|
  {
    if source[index] == ':' && index + 1 < |source| && source[index + 1] == ':' then
      (Token("::", index, false, false), index + 2)
    else if IsRawStart(source, index) then
      var end := AtomEnd(source, index + 2);
      (Token(source[index + 2..end], index, true, true), end)
    else if IsAtomCharacter(source[index]) then
      var end := AtomEnd(source, index + 1);
      (Token(source[index..end], index, true, false), end)
    else (Token([source[index]], index, false, false), index + 1)
  }

  function Tokens(source: string, index: nat): seq<Token>
    requires index <= |source|
    decreases |source| - index
  {
    if index == |source| then []
    else if IsSkipped(source, index) then Tokens(source, index + 1)
    else
      var (token, end) := TokenAt(source, index);
      [token] + Tokens(source, end)
  }

  method RustTokens(source: string) returns (tokens: seq<Token>)
    ensures tokens == Tokens(source, 0)
  {
    tokens := [];
    var index := 0;
    while index < |source|
      invariant index <= |source|
      invariant tokens + Tokens(source, index) == Tokens(source, 0)
    {
      if IsSkipped(source, index) {
        index := index + 1;
      } else {
        var token, end := ReadToken(source, index);
        assert tokens + ([token] + Tokens(source, end)) == tokens + [token] + Tokens(source, end);
        tokens := tokens + [token];
        index := end;
      }
    }
  }

  method ReadToken(source: string, index: nat) returns (token: Token, end: nat)
    requires index < |source|
    ensures (token, end) == TokenAt(source, index)
  {
    var character := source[index];
    if character == ':' && index + 1 < |source| && source[index + 1] == ':' {
      return Token("::", index, false, false), index + 2;
    }
    if IsRawStart(source, index) {
      end := ScanAtom(source, index + 2);
      return Token(source[index + 2..end], index, true, true), end;
    }
    if IsAtomCharacter(character) {
      end := ScanAtom(source, index + 1);
      return Token(source[index..end], index, true, false), end;
    }
    return Token([character], index, false, false), index + 1;
  }

  method ScanAtom(source: string, from: nat) returns (end: nat)
    requires from <= |source|
    ensures end == AtomEnd(source, from)
  {
    end := from;
    while end < |source| && IsAtomCharacter(source[end])
      invariant from <= end <= |source|
      invariant AtomEnd(source, end) == AtomEnd(source, from)
    {
      end := end + 1;
    }
  }

  lemma {:induction false} TokensAreLexed(source: string, index: nat)
    requires index <= |source|
    ensures forall t | t in Tokens(source, index) :: IsLexed(WordOf(t))
    decreases |source| - index
  {
    if index < |source| {
      if IsSkipped(source, index) {
        TokensAreLexed(source, index + 1);
      } else {
        var (token, end) := TokenAt(source, index);
        TokensAreLexed(source, end);
        if IsRawStart(source, index) {
          assert AtomEnd(source, index + 2) > index + 2;
        }
      }
    }
  }

  /** Where a token stands, its text stands in the source. */
  ghost predicate StandsAt(source: string, token: Token) {
    var text := if token.raw then "r#" + token.value else token.value;
    token.offset + |text| <= |source| && source[token.offset..token.offset + |text|] == text
  }

  ghost predicate InOrder(tokens: seq<Token>) {
    forall i, j | 0 <= i < j < |tokens| :: tokens[i].offset < tokens[j].offset
  }

  /** Every token is at its offset, and the offsets grow. */
  lemma {:induction false} TokensStandInOrder(source: string, index: nat)
    requires index <= |source|
    ensures forall t | t in Tokens(source, index) :: t.offset >= index && StandsAt(source, t)
    ensures InOrder(Tokens(source, index))
    decreases |source| - index
  {
    if index < |source| {
      if IsSkipped(source, index) {
        TokensStandInOrder(source, index + 1);
      } else {
        var (token, end) := TokenAt(source, index);
        TokensStandInOrder(source, end);
        TokenStands(source, index);
        var rest := Tokens(source, end);
        assert forall i | 0 <= i < |rest| :: rest[i] in rest;
      }
    }
  }

  lemma TokenStands(source: string, index: nat)
    requires index < |source|
    ensures StandsAt(source, TokenAt(source, index).0) && TokenAt(source, index).0.offset == index
  {
  }

  // ----- The tokens of every text, without reading it

  function Spelling(w: Word): string { if w.raw then "r#" + w.value else w.value }

  /** Nothing in the text after a word makes the word longer or joins it into another one. */
  predicate EndsBefore(w: Word, rest: string) {
    if w.identifier then
      && (rest != "" ==> !IsAtomCharacter(rest[0]))
      && (w == Word("r", true, false) && |rest| > 1 && rest[0] == '#' ==> !IsAtomCharacter(rest[1]))
    else w.value == ":" && rest != "" ==> rest[0] != ':'
  }

  ghost predicate WordStands(source: string, at: nat, w: Word) {
    var end := at + |Spelling(w)|;
    && IsLexed(w) && end <= |source| && source[at..end] == Spelling(w)
    && (at < |source| ==> !IsSkipped(source, at))
    && EndsBefore(w, source[end..])
  }

  ghost predicate AllSkipped(source: string, from: nat, to: nat) {
    from <= to <= |source| && forall i | from <= i < to :: IsSkipped(source, i)
  }

  /** From an offset on, the text is made of these tokens, each where it says, and of skipped characters only. */
  ghost predicate IsTokenized(source: string, from: nat, tokens: seq<Token>)
    decreases |tokens|
  {
    if tokens == [] then AllSkipped(source, from, |source|)
    else
      var offset, word := tokens[0].offset, WordOf(tokens[0]);
      && AllSkipped(source, from, offset)
      && WordStands(source, offset, word)
      && IsTokenized(source, offset + |Spelling(word)|, tokens[1..])
  }

  lemma {:induction false} AtomEndIs(source: string, from: nat, end: nat)
    requires from <= end <= |source|
    requires forall i | from <= i < end :: IsAtomCharacter(source[i])
    requires end < |source| ==> !IsAtomCharacter(source[end])
    ensures AtomEnd(source, from) == end
    decreases end - from
  {
    if from < end {
      AtomEndIs(source, from + 1, end);
    }
  }

  /** The word read at an offset stands there. */
  lemma ReadWordStands(source: string, at: nat)
    requires at < |source| && !IsSkipped(source, at)
    ensures var (token, end) := TokenAt(source, at);
      && token.offset == at && WordStands(source, at, WordOf(token)) && end == at + |Spelling(WordOf(token))|
  {
    var (token, end) := TokenAt(source, at);
    var w := WordOf(token);
    assert source[at..end] == Spelling(w);
    assert IsRawStart(source, at) ==> AtomEnd(source, at + 2) > at + 2;
    assert IsLexed(w);
    assert end < |source| ==> source[end..][0] == source[end];
    if w == Word("r", true, false) && end + 1 < |source| {
      assert source[at] == 'r' && source[end..][1] == source[end + 1];
    }
  }

  /** A word that stands at an offset is the one read there. */
  lemma StandingWordIsRead(source: string, at: nat, w: Word)
    requires WordStands(source, at, w)
    ensures at < |source|
    ensures TokenAt(source, at) == (Token(w.value, at, w.identifier, w.raw), at + |Spelling(w)|)
  {
    var s, end := Spelling(w), at + |Spelling(w)|;
    assert forall i | 0 <= i < |s| :: source[at + i] == s[i];
    assert forall i | 0 <= i < |source| - end :: source[end + i] == source[end..][i];
    if w.raw {
      assert s[2..] == w.value && source[at + 2..end] == s[2..];
      assert forall i | 0 <= i < |w.value| :: source[at + 2 + i] == w.value[i];
      AtomEndIs(source, at + 2, end);
    } else if w.identifier {
      AtomEndIs(source, at + 1, end);
      NoRawStart(source, at, w);
      assert IsAtomCharacter(s[0]);
    } else {
      assert w.value == "::" || w.value == [source[at]];
      assert !IsAtomCharacter(source[at]);
      assert w.value == ":" && end < |source| ==> source[end] != ':';
    }
  }

  lemma NoRawStart(source: string, at: nat, w: Word)
    requires WordStands(source, at, w) && w.identifier && !w.raw
    ensures !IsRawStart(source, at)
  {
    var s, end := w.value, at + |w.value|;
    assert forall i | 0 <= i < |s| :: source[at + i] == s[i];
    assert forall i | 0 <= i < |source| - end :: source[end + i] == source[end..][i];
    assert |s| == 1 && s[0] == 'r' ==> s == "r";
  }

  lemma SkippingOne(source: string, from: nat, tokens: seq<Token>)
    requires from < |source| && IsSkipped(source, from)
    ensures IsTokenized(source, from, tokens) <==> IsTokenized(source, from + 1, tokens)
  {
    hide IsSkipped;
    assert forall to: nat | to != from :: AllSkipped(source, from, to) <==> AllSkipped(source, from + 1, to);
    assert !AllSkipped(source, from + 1, from);
  }

  lemma TokenizedFromToken(source: string, from: nat, tokens: seq<Token>)
    requires from < |source| && !IsSkipped(source, from) && tokens != []
    ensures IsTokenized(source, from, tokens) <==>
      && tokens[0].offset == from && WordStands(source, from, WordOf(tokens[0]))
      && IsTokenized(source, from + |Spelling(WordOf(tokens[0]))|, tokens[1..])
  {
    hide IsSkipped, WordStands, Spelling;
  }

  /** Where a token starts, the rest is tokenized behind the token read there. */
  lemma FirstTokenIff(source: string, from: nat, tokens: seq<Token>)
    requires from < |source| && !IsSkipped(source, from) && tokens != []
    ensures IsTokenized(source, from, tokens) <==>
      tokens[0] == TokenAt(source, from).0 && IsTokenized(source, TokenAt(source, from).1, tokens[1..])
  {
    hide *;
    ReadWordStands(source, from);
    TokenizedFromToken(source, from, tokens);
    if WordStands(source, from, WordOf(tokens[0])) {
      StandingWordIsRead(source, from, WordOf(tokens[0]));
      TokenOfWord(tokens[0]);
    }
  }

  lemma TokenOfWord(token: Token)
    ensures var w := WordOf(token); token == Token(w.value, token.offset, w.identifier, w.raw)
  {
  }

  lemma NothingFollows(source: string, tokens: seq<Token>)
    ensures IsTokenized(source, |source|, tokens) <==> tokens == []
  {
    if tokens != [] && IsTokenized(source, |source|, tokens) {
      StandingWordIsRead(source, tokens[0].offset, WordOf(tokens[0]));
    }
  }

  /** Every text has one list of tokens, and it is the one read. */
  lemma {:induction false} TokensIffTokenized(source: string, from: nat, tokens: seq<Token>)
    requires from <= |source|
    ensures tokens == Tokens(source, from) <==> IsTokenized(source, from, tokens)
    decreases |source| - from
  {
    hide IsSkipped, TokenAt, AllSkipped, WordStands;
    if from == |source| {
      NothingFollows(source, tokens);
    } else if IsSkipped(source, from) {
      TokensIffTokenized(source, from + 1, tokens);
      SkippingOne(source, from, tokens);
    } else if tokens != [] {
      TokensIffTokenized(source, TokenAt(source, from).1, tokens[1..]);
      FirstTokenIff(source, from, tokens);
      assert tokens == [tokens[0]] + tokens[1..];
    } else {
      NotAllSkipped(source, from);
    }
  }

  lemma NotAllSkipped(source: string, from: nat)
    requires from < |source| && !IsSkipped(source, from)
    ensures !IsTokenized(source, from, [])
  {
  }

  // ----- Spelling words out and reading them back

  /** A word with the white space before it. */
  datatype Spaced = Spaced(space: string, word: Word)

  predicate IsBlank(s: string) { forall i | 0 <= i < |s| :: IsWhitespace(s[i]) }

  function Text(pieces: seq<Spaced>, tail: string): string {
    if pieces == [] then tail else pieces[0].space + (Spelling(pieces[0].word) + Text(pieces[1..], tail))
  }

  function WordsIn(pieces: seq<Spaced>): (r: seq<Word>)
    ensures |r| == |pieces|
  {
    seq(|pieces|, i requires 0 <= i < |pieces| => pieces[i].word)
  }

  /** No word runs into what follows it, white space or not. */
  predicate AreApart(pieces: seq<Spaced>, tail: string) {
    if pieces == [] then IsBlank(tail)
    else
      && IsBlank(pieces[0].space) && IsLexed(pieces[0].word)
      && EndsBefore(pieces[0].word, Text(pieces[1..], tail))
      && AreApart(pieces[1..], tail)
  }

  lemma WordsOfCons(token: Token, tokens: seq<Token>)
    ensures Words([token] + tokens) == [WordOf(token)] + Words(tokens)
  {
  }

  lemma {:induction false} BlanksAreSkipped(source: string, from: nat, to: nat)
    requires from <= to <= |source| && forall i | from <= i < to :: IsWhitespace(source[i])
    ensures Tokens(source, from) == Tokens(source, to)
    decreases |source| - from
  {
    if from < to {
      BlanksAreSkipped(source, from + 1, to);
    }
  }

  lemma SpelledWordStands(source: string, at: nat, w: Word)
    requires IsLexed(w) && at + |Spelling(w)| <= |source| && source[at..at + |Spelling(w)|] == Spelling(w)
    requires EndsBefore(w, source[at + |Spelling(w)|..])
    requires at == 0 && source != "" ==> source[0] != BYTE_ORDER_MARK
    ensures WordStands(source, at, w)
  {
    SpellingStarts(w);
    hide EndsBefore, IsWhitespace;
    assert source[at] == Spelling(w)[0];
  }

  lemma FirstIsApart(pieces: seq<Spaced>, tail: string)
    requires pieces != [] && AreApart(pieces, tail)
    ensures Text(pieces, tail) == pieces[0].space + (Spelling(pieces[0].word) + Text(pieces[1..], tail))
    ensures IsBlank(pieces[0].space) && IsLexed(pieces[0].word)
    ensures EndsBefore(pieces[0].word, Text(pieces[1..], tail)) && AreApart(pieces[1..], tail)
  {
  }

  lemma SpellingStarts(w: Word)
    requires IsLexed(w)
    ensures Spelling(w) != "" && !IsWhitespace(Spelling(w)[0])
  {
  }

  lemma SpacedWord(source: string, at: nat, space: string, s: string, rest: string)
    requires at <= |source| && source[at..] == space + (s + rest) && IsBlank(space)
    ensures var start := at + |space|;
      var next := start + |s|;
      && next <= |source| && source[start..next] == s && source[next..] == rest
      && (s != "" ==> source[start] == s[0])
      && forall i | at <= i < start :: IsWhitespace(source[i])
  {
    hide IsWhitespace;
    var start := at + |space|;
    assert source[start..] == source[at..][|space|..] == s + rest;
    assert source[start..start + |s|] == source[start..][..|s|] == s;
    assert source[start + |s|..] == source[start..][|s|..] == rest;
    assert forall i | at <= i < start :: source[i] == space[i - at];
  }

  /** Reading gives back exactly the words written, with any white space between them, or none where they are apart. */
  lemma {:induction false} LexingInvertsSpelling(source: string, at: nat, pieces: seq<Spaced>, tail: string)
    requires at <= |source| && source[at..] == Text(pieces, tail) && AreApart(pieces, tail)
    requires at == 0 && source != "" ==> source[0] != BYTE_ORDER_MARK
    ensures Words(Tokens(source, at)) == WordsIn(pieces)
    decreases |pieces|
  {
    hide *;
    if pieces == [] {
      TailIsSkipped(source, at, tail);
    } else {
      var w := pieces[0].word;
      var start := at + |pieces[0].space|;
      FirstIsApart(pieces, tail);
      SpacedWord(source, at, pieces[0].space, Spelling(w), Text(pieces[1..], tail));
      BlanksAreSkipped(source, at, start);
      SpelledWordStands(source, start, w);
      StandingWordIsRead(source, start, w);
      TokensFromWord(source, start, w);
      LexingInvertsSpelling(source, start + |Spelling(w)|, pieces[1..], tail);
      WordsOfCons(TokenAt(source, start).0, Tokens(source, start + |Spelling(w)|));
      WordsInCons(pieces);
    }
  }

  lemma TailIsSkipped(source: string, at: nat, tail: string)
    requires at <= |source| && source[at..] == Text([], tail) && AreApart([], tail)
    ensures Words(Tokens(source, at)) == WordsIn([])
  {
    assert forall i | at <= i < |source| :: source[i] == tail[i - at];
    BlanksAreSkipped(source, at, |source|);
  }

  lemma TokensFromWord(source: string, at: nat, w: Word)
    requires WordStands(source, at, w) && at < |source|
    requires TokenAt(source, at) == (Token(w.value, at, w.identifier, w.raw), at + |Spelling(w)|)
    ensures Tokens(source, at) == [TokenAt(source, at).0] + Tokens(source, at + |Spelling(w)|)
    ensures WordOf(TokenAt(source, at).0) == w && |Spelling(w)| > 0
  {
    hide TokenAt;
  }

  lemma WordsInCons(pieces: seq<Spaced>)
    requires pieces != []
    ensures WordsIn(pieces) == [pieces[0].word] + WordsIn(pieces[1..])
  {
  }

  /** Words keep apart without white space unless both are identifiers, when no lone colon or hash is among them. */
  lemma {:induction false} KeepApart(pieces: seq<Spaced>, tail: string)
    requires forall p | p in pieces :: IsBlank(p.space) && IsLexed(p.word) && p.word.value !in {":", "#"}
    requires forall i | 0 < i < |pieces| ::
      pieces[i - 1].word.identifier && pieces[i].word.identifier ==> pieces[i].space != ""
    requires IsBlank(tail)
    ensures AreApart(pieces, tail)
  {
    if pieces != [] {
      assert pieces[0] in pieces;
      var rest := pieces[1..];
      assert forall i | 0 < i < |rest| :: rest[i - 1] == pieces[i] && rest[i] == pieces[i + 1];
      hide AreApart, IsBlank, IsLexed;
      KeepApart(rest, tail);
      OneKeepsApart(pieces[0].word, rest, tail);
      OneMoreApart(pieces, tail);
    }
  }

  lemma OneMoreApart(pieces: seq<Spaced>, tail: string)
    requires pieces != [] && IsBlank(pieces[0].space) && IsLexed(pieces[0].word)
    requires EndsBefore(pieces[0].word, Text(pieces[1..], tail)) && AreApart(pieces[1..], tail)
    ensures AreApart(pieces, tail)
  {
  }

  lemma OneKeepsApart(w: Word, rest: seq<Spaced>, tail: string)
    requires IsLexed(w) && w.value !in {":", "#"} && IsBlank(tail)
    requires rest != [] ==> IsBlank(rest[0].space) && IsLexed(rest[0].word) && rest[0].word.value !in {":", "#"}
    requires rest != [] && w.identifier && rest[0].word.identifier ==> rest[0].space != ""
    ensures EndsBefore(w, Text(rest, tail))
  {
    var text := Text(rest, tail);
    if rest != [] {
      var first := rest[0];
      SpellingStarts(first.word);
      var value := first.word.value;
      assert text[0] == if first.space != "" then first.space[0] else Spelling(first.word)[0];
      assert |value| == 1 ==> value == [value[0]];
    }
    assert w.identifier ==> w.value != ":";
  }
}
