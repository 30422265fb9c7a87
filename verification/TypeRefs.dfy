/** GraphQL type references as text: the parser of the action crate and the texts it inverts. */
module TypeRefs {
  import opened Wrappers
  import opened Text

  datatype TypeRef =
    | Named(name: string, nonNull: bool)
    | ListOf(inner: TypeRef, nonNull: bool)

  function ParseType(s: string): TypeRef
    decreases |s|
  {
    var t := Trim(s);
    TrimShortens(s);
    match StripSuffix(t, '!')
    case Some(stripped) => ParseType(stripped).(nonNull := true)
    case None =>
      match StripPrefix(t, "[")
      case None => Named(t, false)
      case Some(rest) =>
        match StripSuffix(rest, ']')
        case None => Named(t, false)
        case Some(inner) => ListOf(ParseType(inner), false)
  }

  // ----- Spelling

  /**
   * A type as written (section 2.11 of the GraphQL specification), with its own padding before and after the name or
   * the brackets and, when there is a mark, after the mark.
   */
  datatype Syntax =
    | NameSyntax(before: string, name: string, after: string, mark: Option<string>)
    | ListSyntax(before: string, inner: Syntax, after: string, mark: Option<string>)

  /** The part of a type's text that its non-null mark applies to. */
  function Body(x: Syntax): string
    decreases x, 0
  {
    match x
    case NameSyntax(_, name, _, _) => name
    case ListSyntax(_, inner, _, _) => "[" + Spell(inner) + "]"
  }

  function Spell(x: Syntax): string
    decreases x, 1
  {
    x.before + Body(x) + x.after + (match x.mark case None => "" case Some(end) => "!" + end)
  }

  function TypeOf(x: Syntax): TypeRef {
    match x
    case NameSyntax(_, name, _, mark) => Named(name, mark.Some?)
    case ListSyntax(_, inner, _, mark) => ListOf(TypeOf(inner), mark.Some?)
  }

  predicate IsPadded(x: Syntax) {
    && IsPadding(x.before) && IsPadding(x.after) && (x.mark.Some? ==> IsPadding(x.mark.value))
    && (x.ListSyntax? ==> IsPadded(x.inner))
  }

  /** A type written without padding. */
  function Plain(t: TypeRef): (x: Syntax)
    ensures TypeOf(x) == t && IsPadded(x)
  {
    var mark := if t.nonNull then Some("") else None;
    match t
    case Named(name, _) => NameSyntax("", name, "", mark)
    case ListOf(inner, _) => ListSyntax("", Plain(inner), "", mark)
  }

  /** A name that is not itself the text of a marked or bracketed type. */
  predicate IsTypeName(name: string) {
    && IsTrimmed(name)
    && (name != "" ==> name[|name| - 1] != '!')
    && !(|name| >= 2 && name[0] == '[' && name[|name| - 1] == ']')
  }

  predicate IsNamed(t: TypeRef) {
    match t
    case Named(name, _) => IsTypeName(name)
    case ListOf(inner, _) => IsNamed(inner)
  }

  lemma BodyIsTrimmed(x: Syntax)
    requires IsNamed(TypeOf(x))
    ensures IsTrimmed(Body(x))
    ensures Body(x) != "" ==> Body(x)[|Body(x)| - 1] != '!'
  {
  }

  lemma MarkedParses(s: string, stripped: string)
    requires Trim(s) == stripped + "!"
    ensures ParseType(s) == ParseType(stripped).(nonNull := true)
  {
    var t := stripped + "!";
    hide Trim;
    assert t[..|t| - 1] == stripped;
  }

  lemma BracketedParses(s: string, inner: string)
    requires Trim(s) == "[" + inner + "]"
    ensures ParseType(s) == ListOf(ParseType(inner), false)
  {
    var t := "[" + inner + "]";
    hide Trim;
    assert t[1..] == inner + "]" && (inner + "]")[..|inner|] == inner;
  }

  lemma NameParses(s: string)
    requires IsTypeName(Trim(s))
    ensures ParseType(s) == Named(Trim(s), false)
  {
    hide Trim;
  }

  lemma {:induction false} BodyParses(x: Syntax, before: string, after: string)
    requires IsNamed(TypeOf(x)) && IsPadded(x) && IsPadding(before) && IsPadding(after)
    ensures ParseType(before + Body(x) + after) == TypeOf(x).(nonNull := false)
    decreases x, 0
  {
    BodyIsTrimmed(x);
    TrimUnpads(before, Body(x), after);
    hide Trim, IsTrimmed, IsTight, Spell, ParseType;
    match x
    case NameSyntax(_, name, _, _) => NameParses(before + name + after);
    case ListSyntax(_, inner, _, _) =>
      SpellParses(inner);
      BracketedParses(before + Body(x) + after, Spell(inner));
  }

  lemma {:induction false} SpellParses(x: Syntax)
    requires IsNamed(TypeOf(x)) && IsPadded(x)
    ensures ParseType(Spell(x)) == TypeOf(x)
    decreases x, 1
  {
    var body := Body(x);
    hide ParseType, Body;
    match x.mark
    case Some(end) =>
      var after := if body == "" then "" else x.after;
      BodyIsTrimmed(x);
      MarkedTrims(body, x.before, x.after, end);
      hide Spell;
      BodyParses(x, "", after);
      assert "" + body + after == body + after;
      SpellUnfolds(x);
      MarkedParses(Spell(x), body + after);
    case None =>
      BodyParses(x, x.before, x.after);
      assert Spell(x) == x.before + body + x.after + "" == x.before + body + x.after;
  }

  lemma SpellUnfolds(x: Syntax)
    requires x.mark.Some?
    ensures Spell(x) == x.before + Body(x) + x.after + ("!" + x.mark.value)
  {
    hide Body;
  }

  lemma MarkedTrims(body: string, before: string, after: string, end: string)
    requires IsTrimmed(body) && IsPadding(before) && IsPadding(after) && IsPadding(end)
    ensures Trim(before + body + after + ("!" + end)) == body + (if body == "" then "" else after) + "!"
  {
    var all := before + body + after + ("!" + end);
    if body == "" {
      TrimUnpads(before + after, "!", end);
      assert all == before + after + "!" + end;
    } else {
      var marked := body + after + "!";
      TrimUnpads(before, marked, end);
      hide Trim;
      assert all == before + marked + end;
    }
  }

  lemma {:induction false} ParsedIsNamed(s: string)
    ensures IsNamed(ParseType(s))
    decreases |s|
  {
    var t := Trim(s);
    TrimShortens(s);
    TrimTrims(s);
    hide Trim, IsTrimmed;
    match StripSuffix(t, '!')
    case Some(stripped) => ParsedIsNamed(stripped);
    case None =>
      if StripPrefix(t, "[").Some? && StripSuffix(t[1..], ']').Some? {
        ParsedIsNamed(StripSuffix(t[1..], ']').value);
      }
  }

  /** Parsing inverts spelling, whatever the padding at each place. */
  lemma ParseInvertsSpelling(x: Syntax)
    requires IsNamed(TypeOf(x)) && IsPadded(x)
    ensures ParseType(Spell(x)) == TypeOf(x)
  {
    SpellParses(x);
  }

  /** The types parsing can return are exactly those that can be spelled. */
  lemma ParsedIffNamed(t: TypeRef)
    ensures IsNamed(t) <==> exists s :: ParseType(s) == t
  {
    if IsNamed(t) {
      SpellParses(Plain(t));
    }
    forall s | ParseType(s) == t ensures IsNamed(t) {
      ParsedIsNamed(s);
    }
  }
}
