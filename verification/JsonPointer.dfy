/** JSON pointers (RFC 6901): the check the catalog makes, and what the accepted texts denote. */
module JsonPointer {
  import opened Wrappers

  predicate BadTilde(s: string, i: nat)
    requires i + 1 < |s|
  {
    s[i] == '~' && s[i + 1] !in {'0', '1'}
  }

  predicate TildesAreEscapes(s: string) {
    && (s != "" ==> s[|s| - 1] != '~')
    && !(exists i | 0 <= i < |s| - 1 :: BadTilde(s, i))
  }

  /** Adjacent characters, as a window of width two slides over them, with no tilde left open at the end. */
  predicate ValidJsonPointer(value: string) { value == "" || (value[0] == '/' && TildesAreEscapes(value)) }

  // ----- Reference tokens (sections 3 and 4)

  function EscapeChar(c: char): string { if c == '~' then "~0" else if c == '/' then "~1" else [c] }

  function EscapeToken(token: string): string {
    if token == "" then "" else EscapeChar(token[0]) + EscapeToken(token[1..])
  }

  function PrintPointer(tokens: seq<string>): string {
    if tokens == [] then "" else "/" + EscapeToken(tokens[0]) + PrintPointer(tokens[1..])
  }

  function Extend(c: char, tokens: seq<string>): (r: seq<string>)
    requires tokens != []
    ensures r != []
  {
    [[c] + tokens[0]] + tokens[1..]
  }

  /** The tokens of a text that follows a `/`. */
  function DecodeTokens(s: string): (r: Option<seq<string>>)
    ensures r.Some? ==> r.value != []
  {
    if s == "" then Some([""])
    else if s[0] == '/' then
      match DecodeTokens(s[1..])
      case None => None
      case Some(tokens) => Some([""] + tokens)
    else if s[0] != '~' then
      match DecodeTokens(s[1..])
      case None => None
      case Some(tokens) => Some(Extend(s[0], tokens))
    else if |s| == 1 || s[1] !in {'0', '1'} then None
    else
      match DecodeTokens(s[2..])
      case None => None
      case Some(tokens) => Some(Extend(if s[1] == '0' then '~' else '/', tokens))
  }

  function DecodePointer(s: string): Option<seq<string>> {
    if s == "" then Some([]) else if s[0] == '/' then DecodeTokens(s[1..]) else None
  }

  // ----- Decoding inverts printing, on exactly the valid texts

  lemma EscapedCharDecodes(c: char, tail: string)
    ensures DecodeTokens(EscapeChar(c) + tail)
         == match DecodeTokens(tail) { case None => None case Some(tokens) => Some(Extend(c, tokens)) }
  {
    var s := EscapeChar(c) + tail;
    assert s[|EscapeChar(c)|..] == tail;
  }

  lemma LongerTokenReadsBack(c: char, token: string, rest: seq<string>)
    requires DecodeTokens(EscapeToken(token) + PrintPointer(rest)) == Some([token] + rest)
    ensures DecodeTokens(EscapeToken([c] + token) + PrintPointer(rest)) == Some([[c] + token] + rest)
  {
    var tail := EscapeToken(token) + PrintPointer(rest);
    EscapedCharDecodes(c, tail);
    EscapeOneMore(c, token);
    hide EscapeChar, PrintPointer, DecodeTokens, EscapeToken;
    assert EscapeToken([c] + token) + PrintPointer(rest) == EscapeChar(c) + tail;
    assert Extend(c, [token] + rest) == [[c] + token] + rest;
  }

  lemma EscapeOneMore(c: char, token: string)
    ensures EscapeToken([c] + token) == EscapeChar(c) + EscapeToken(token)
  {
    assert ([c] + token)[1..] == token;
  }

  lemma EmptyTokenReadsBack(rest: seq<string>)
    requires rest != [] ==> DecodeTokens(EscapeToken(rest[0]) + PrintPointer(rest[1..])) == Some(rest)
    ensures DecodeTokens(EscapeToken("") + PrintPointer(rest)) == Some([""] + rest)
  {
    assert EscapeToken("") + PrintPointer(rest) == PrintPointer(rest);
    if rest == [] {
      assert [""] + rest == [""];
    } else {
      PointerDecodes(rest);
    }
  }

  lemma {:induction false} TokensReadBack(tokens: seq<string>)
    requires tokens != []
    ensures DecodeTokens(EscapeToken(tokens[0]) + PrintPointer(tokens[1..])) == Some(tokens)
    decreases |tokens|, |tokens[0]|
  {
    hide EscapeToken, PrintPointer, DecodeTokens;
    var token, rest := tokens[0], tokens[1..];
    if token == "" {
      if rest != [] {
        TokensReadBack(rest);
      }
      EmptyTokenReadsBack(rest);
      assert tokens == [""] + rest;
    } else {
      var shorter := [token[1..]] + rest;
      TokensReadBack(shorter);
      assert shorter[0] == token[1..] && shorter[1..] == rest;
      LongerTokenReadsBack(token[0], token[1..], rest);
      assert [token[0]] + token[1..] == token && tokens == [token] + rest;
    }
  }

  lemma PointerDecodes(tokens: seq<string>)
    requires tokens != []
    requires DecodeTokens(EscapeToken(tokens[0]) + PrintPointer(tokens[1..])) == Some(tokens)
    ensures DecodeTokens(PrintPointer(tokens)) == Some([""] + tokens)
  {
    SlashThenTokens(tokens);
    hide EscapeToken, PrintPointer;
  }

  lemma SlashThenTokens(tokens: seq<string>)
    requires tokens != []
    ensures PrintPointer(tokens) != "" && PrintPointer(tokens)[0] == '/'
    ensures PrintPointer(tokens)[1..] == EscapeToken(tokens[0]) + PrintPointer(tokens[1..])
  {
    var tail := EscapeToken(tokens[0]) + PrintPointer(tokens[1..]);
    hide EscapeToken;
    assert PrintPointer(tokens) == "/" + tail;
  }

  function FirstChar(s: string): char
    requires s != "" && DecodeTokens(s).Some?
  {
    if s[0] != '~' then s[0] else if s[1] == '0' then '~' else '/'
  }

  lemma DecodedChar(s: string)
    requires s != "" && s[0] != '/' && DecodeTokens(s).Some?
    ensures var c := FirstChar(s);
      && |EscapeChar(c)| <= |s| && s == EscapeChar(c) + s[|EscapeChar(c)|..]
      && DecodeTokens(s[|EscapeChar(c)|..]).Some?
      && DecodeTokens(s).value == Extend(c, DecodeTokens(s[|EscapeChar(c)|..]).value)
  {
    if s[0] == '~' {
      assert s[..2] == ['~', s[1]] == EscapeChar(FirstChar(s));
    } else {
      assert s[..1] == [s[0]] == EscapeChar(FirstChar(s));
    }
  }

  lemma {:induction false} TokensPrintBack(s: string)
    requires DecodeTokens(s).Some?
    ensures var tokens := DecodeTokens(s).value;
      s == EscapeToken(tokens[0]) + PrintPointer(tokens[1..])
    decreases |s|
  {
    if s != "" {
      var tokens := DecodeTokens(s).value;
      if s[0] == '/' {
        TokensPrintBack(s[1..]);
        SlashPrintsBack(s, DecodeTokens(s[1..]).value);
        hide DecodeTokens, PrintPointer, EscapeToken;
        assert tokens == [""] + tokens[1..];
      } else {
        DecodedChar(s);
        var n := |EscapeChar(FirstChar(s))|;
        TokensPrintBack(s[n..]);
        CharPrintsBack(s, FirstChar(s), s[n..], DecodeTokens(s[n..]).value);
      }
    }
  }

  lemma SlashPrintsBack(s: string, inner: seq<string>)
    requires s != "" && s[0] == '/' && inner != []
    requires s[1..] == EscapeToken(inner[0]) + PrintPointer(inner[1..])
    ensures s == EscapeToken("") + PrintPointer(inner)
  {
    SlashThenTokens(inner);
    hide PrintPointer;
    assert s == "/" + s[1..] && PrintPointer(inner) == "/" + PrintPointer(inner)[1..];
  }

  lemma CharPrintsBack(s: string, c: char, rest: string, inner: seq<string>)
    requires inner != [] && s == EscapeChar(c) + rest
    requires rest == EscapeToken(inner[0]) + PrintPointer(inner[1..])
    ensures var tokens := Extend(c, inner); s == EscapeToken(tokens[0]) + PrintPointer(tokens[1..])
  {
    var tokens := Extend(c, inner);
    assert tokens[0] == [c] + inner[0] && tokens[0][1..] == inner[0] && tokens[1..] == inner[1..];
    assert EscapeToken(tokens[0]) == EscapeChar(c) + EscapeToken(inner[0]);
    hide EscapeToken, PrintPointer, EscapeChar;
  }

  lemma TildesStep(s: string)
    requires |s| >= 2 && !BadTilde(s, 0)
    ensures TildesAreEscapes(s) <==> TildesAreEscapes(s[1..])
  {
    var t := s[1..];
    assert forall i | 0 <= i < |t| :: t[i] == s[i + 1];
    if i :| 0 <= i < |s| - 1 && BadTilde(s, i) {
      assert BadTilde(t, i - 1);
    }
    if i :| 0 <= i < |t| - 1 && BadTilde(t, i) {
      assert BadTilde(s, i + 1);
    }
  }

  lemma {:induction false} DecodesIffEscaped(s: string)
    ensures DecodeTokens(s).Some? <==> TildesAreEscapes(s)
    decreases |s|
  {
    if |s| >= 2 {
      if s[0] != '~' {
        DecodesIffEscaped(s[1..]);
        TildesStep(s);
      } else if s[1] in {'0', '1'} {
        DecodesIffEscaped(s[2..]);
        TildesStep(s);
        if |s| > 2 {
          TildesStep(s[1..]);
          assert s[1..][1..] == s[2..];
        }
      } else {
        assert BadTilde(s, 0);
      }
    } else if |s| == 1 {
      assert s[1..] == "";
    }
  }

  /** A text is accepted exactly when it prints some list of reference tokens, and then decoding finds that list. */
  lemma ValidIffPrinted(value: string)
    ensures ValidJsonPointer(value) <==> exists tokens :: value == PrintPointer(tokens)
    ensures ValidJsonPointer(value) <==> DecodePointer(value).Some?
    ensures ValidJsonPointer(value) ==> PrintPointer(DecodePointer(value).value) == value
  {
    if value == "" {
      assert value == PrintPointer([]);
    } else {
      if value[0] == '/' {
        ValidIffDecoded(value);
        if DecodePointer(value).Some? {
          TokensPrintBack(value[1..]);
          var tokens := DecodePointer(value).value;
          assert value == "/" + value[1..] == PrintPointer(tokens);
        }
      }
      forall tokens | value == PrintPointer(tokens) ensures DecodePointer(value).Some? {
        PrintReadsBack(tokens);
      }
    }
  }

  lemma ValidIffDecoded(value: string)
    requires value != "" && value[0] == '/'
    ensures ValidJsonPointer(value) <==> DecodeTokens(value[1..]).Some?
  {
    DecodesIffEscaped(value[1..]);
    if |value| > 1 {
      TildesStep(value);
    }
  }

  lemma PrintReadsBack(tokens: seq<string>)
    ensures DecodePointer(PrintPointer(tokens)) == Some(tokens)
  {
    if tokens != [] {
      TokensReadBack(tokens);
      SlashThenTokens(tokens);
    }
  }
}
