/** The `use` parser accepts exactly the printed trees, and returns exactly their leaves in source order. */
module RustUseTheorems {
  import opened Wrappers
  import opened RustTokens
  import opened RustUse

  ghost predicate Lexed(tokens: seq<Token>) { forall t | t in tokens :: IsLexed(WordOf(t)) }

  /** The tokens from `cursor` on start with these words. */
  ghost predicate Spells(tokens: seq<Token>, cursor: nat, words: seq<Word>) {
    && cursor + |words| <= |tokens|
    && forall i | 0 <= i < |words| :: WordOf(tokens[cursor + i]) == words[i]
  }

  /** What may follow a tree: the end, a comma or a closing brace. */
  ghost predicate Closed(tokens: seq<Token>, cursor: nat) {
    cursor < |tokens| ==> WordOf(tokens[cursor]) in {Punctuation(","), Punctuation("}")}
  }

  lemma SpellsConcat(tokens: seq<Token>, cursor: nat, a: seq<Word>, b: seq<Word>)
    ensures Spells(tokens, cursor, a + b) <==> Spells(tokens, cursor, a) && Spells(tokens, cursor + |a|, b)
  {
    if Spells(tokens, cursor, a + b) {
      assert forall i | 0 <= i < |a| :: (a + b)[i] == a[i];
      assert forall i | 0 <= i < |b| :: (a + b)[|a| + i] == b[i];
      forall i | 0 <= i < |b| ensures WordOf(tokens[cursor + |a| + i]) == b[i] {
        assert WordOf(tokens[cursor + (|a| + i)]) == (a + b)[|a| + i];
      }
    }
    if Spells(tokens, cursor, a) && Spells(tokens, cursor + |a|, b) {
      forall i | 0 <= i < |a + b| ensures WordOf(tokens[cursor + i]) == (a + b)[i] {
        if i >= |a| {
          assert WordOf(tokens[cursor + |a| + (i - |a|)]) == b[i - |a|];
        }
      }
    }
  }

  lemma SpellsOne(tokens: seq<Token>, cursor: nat, word: Word)
    ensures Spells(tokens, cursor, [word]) <==> cursor < |tokens| && WordOf(tokens[cursor]) == word
  {
    if Spells(tokens, cursor, [word]) {
      assert WordOf(tokens[cursor + 0]) == [word][0];
    }
  }

  lemma SpellsTwo(tokens: seq<Token>, cursor: nat, first: Word, second: Word)
    ensures Spells(tokens, cursor, [first, second]) <==>
      cursor + 1 < |tokens| && WordOf(tokens[cursor]) == first && WordOf(tokens[cursor + 1]) == second
  {
    assert [first, second] == [first] + [second];
    SpellsConcat(tokens, cursor, [first], [second]);
    SpellsOne(tokens, cursor, first);
    SpellsOne(tokens, cursor + 1, second);
  }

  lemma IdentifierIsNoPunctuation(w: Word)
    requires IsLexed(w) && w.identifier
    ensures w.value !in {"{", "}", "*", ",", "::"}
  {
    assert IsAtomCharacter(w.value[0]);
  }

  lemma PunctuationIsNoIdentifier(tokens: seq<Token>, cursor: nat)
    requires Lexed(tokens) && cursor < |tokens| && tokens[cursor].value in {"{", "}", "*", ",", "::"}
    ensures WordOf(tokens[cursor]) == Punctuation(tokens[cursor].value)
  {
    assert IsLexed(WordOf(tokens[cursor]));
    if tokens[cursor].identifier {
      IdentifierIsNoPunctuation(WordOf(tokens[cursor]));
    }
  }

  // ----- Every printed tree is parsed to its leaves

  lemma ParsesAlias(
    alias: Option<Word>, tokens: seq<Token>, cursor: nat, start: nat, path: seq<string>, public: bool)
    requires IsAlias(alias) && Spells(tokens, cursor, PrintAlias(alias))
    requires Closed(tokens, cursor + |PrintAlias(alias)|)
    ensures FinishLeaf(tokens, start, path, cursor, public)
         == Some(([Leaf(start, path, Spelled(alias), public)], cursor + |PrintAlias(alias)|))
  {
    if alias.Some? {
      SpellsTwo(tokens, cursor, Keyword("as"), alias.value);
    }
  }

  lemma ParsesName(
    tree: UseTree, tokens: seq<Token>, cursor: nat, start: nat, path: seq<string>, public: bool)
    requires (tree.Name? || tree.SelfName?) && WellFormed(tree) && Lexed(tokens)
    requires Spells(tokens, cursor, Print(tree)) && Closed(tokens, cursor + |Print(tree)|)
    ensures ParseTree(tokens, cursor, start, path, public)
         == Some((Flatten(tree, tokens, cursor, start, path, public), cursor + |Print(tree)|))
  {
    hide Spells, PrintItem, ParseItem, ParseItems, FlattenItem, FlattenItems, FinishLeaf;
    var segment := if tree.Name? then tree.segment else Keyword("self");
    var named := if tree.Name? then path + [segment.value] else path;
    SpellsConcat(tokens, cursor, [segment], PrintAlias(tree.alias));
    ParsesLastSegment(segment, tree.alias, tokens, cursor);
    ParsesAlias(tree.alias, tokens, cursor + 1, start, named, public);
    assert ParseTree(tokens, cursor, start, path, public) == ParsePath(tokens, cursor, start, path, public);
    assert ParsePath(tokens, cursor, start, path, public) == FinishLeaf(tokens, start, named, cursor + 1, public);
  }

  lemma ParsesGlob(
    alias: Option<Word>, tokens: seq<Token>, cursor: nat, start: nat, path: seq<string>, public: bool)
    requires IsAlias(alias) && Spells(tokens, cursor, Print(Glob(alias)))
    requires Closed(tokens, cursor + |Print(Glob(alias))|)
    ensures ParseTree(tokens, cursor, start, path, public)
         == Some((Flatten(Glob(alias), tokens, cursor, start, path, public), cursor + |Print(Glob(alias))|))
  {
    SpellsConcat(tokens, cursor, [Punctuation("*")], PrintAlias(alias));
    SpellsOne(tokens, cursor, Punctuation("*"));
    ParsesAlias(alias, tokens, cursor + 1, start, path, public);
  }

  lemma {:induction false} ParsesTree(
    tree: UseTree, tokens: seq<Token>, cursor: nat, start: nat, path: seq<string>, public: bool)
    requires WellFormed(tree) && Lexed(tokens) && Spells(tokens, cursor, Print(tree))
    requires Closed(tokens, cursor + |Print(tree)|)
    ensures ParseTree(tokens, cursor, start, path, public)
         == Some((Flatten(tree, tokens, cursor, start, path, public), cursor + |Print(tree)|))
    decreases tree, 0
  {
    hide Spells, ParseItem, ParseTree, ParsePath, ParseItems, Flatten, FlattenItem, FlattenItems;
    match tree
    case Name(_, _) => ParsesName(tree, tokens, cursor, start, path, public);
    case SelfName(_) => ParsesName(tree, tokens, cursor, start, path, public);
    case Glob(alias) => ParsesGlob(alias, tokens, cursor, start, path, public);
    case Group(items, trailingComma) =>
      SpellsConcat(tokens, cursor, [Punctuation("{")], PrintRest(items, trailingComma));
      if items != [] {
        ParsesItems(items, trailingComma, tokens, cursor + 1, path, public);
      }
      ParsesGroup(items, trailingComma, tokens, cursor, start, path, public);
    case Under(segment, rest) =>
      SpellsConcat(tokens, cursor, [segment, Punctuation("::")], Print(rest));
      ParsesTree(rest, tokens, cursor + 2, start, path + [segment.value], public);
      ParsesUnder(segment, rest, tokens, cursor, start, path, public);
  }

  lemma ParsesGroup(
    items: seq<Item>, trailingComma: bool, tokens: seq<Token>, cursor: nat, start: nat, path: seq<string>, public: bool)
    requires trailingComma ==> items != []
    requires Spells(tokens, cursor, [Punctuation("{")]) && Spells(tokens, cursor + 1, PrintRest(items, trailingComma))
    requires items != [] ==> !Is(tokens, cursor + 1, "}")
    requires items != [] ==>
      ParseItems(tokens, cursor + 1, path, public)
      == Some((FlattenItems(items, tokens, cursor + 1, path, public), cursor + 1 + |PrintRest(items, trailingComma)|))
    ensures var tree := Group(items, trailingComma);
      ParseTree(tokens, cursor, start, path, public)
      == Some((Flatten(tree, tokens, cursor, start, path, public), cursor + |Print(tree)|))
  {
    SpellsOne(tokens, cursor, Punctuation("{"));
    SpellsOne(tokens, cursor + 1, Punctuation("}"));
  }

  lemma ParsesUnder(
    segment: Word, rest: UseTree, tokens: seq<Token>, cursor: nat, start: nat, path: seq<string>, public: bool)
    requires IsSegment(segment) && Lexed(tokens) && Spells(tokens, cursor, [segment, Punctuation("::")])
    requires ParseTree(tokens, cursor + 2, start, path + [segment.value], public)
      == Some((Flatten(rest, tokens, cursor + 2, start, path + [segment.value], public), cursor + 2 + |Print(rest)|))
    ensures var tree := Under(segment, rest);
      ParseTree(tokens, cursor, start, path, public)
      == Some((Flatten(tree, tokens, cursor, start, path, public), cursor + |Print(tree)|))
  {
    hide Spells, PrintItem, ParseItem, ParseItems, FlattenItem, FlattenItems, FinishLeaf;
    SpellsTwo(tokens, cursor, segment, Punctuation("::"));
    IdentifierIsNoPunctuation(WordOf(tokens[cursor]));
    assert ParseTree(tokens, cursor, start, path, public) == ParsePath(tokens, cursor, start, path, public);
  }

  lemma ParsesLastSegment(segment: Word, alias: Option<Word>, tokens: seq<Token>, cursor: nat)
    requires IsSegment(segment) && Lexed(tokens) && Spells(tokens, cursor, [segment])
    requires Spells(tokens, cursor + 1, PrintAlias(alias)) && Closed(tokens, cursor + 1 + |PrintAlias(alias)|)
    ensures cursor < |tokens| && WordOf(tokens[cursor]) == segment
    ensures !Is(tokens, cursor, "{") && !Is(tokens, cursor, "*") && !Is(tokens, cursor + 1, "::")
  {
    SpellsOne(tokens, cursor, segment);
    IdentifierIsNoPunctuation(WordOf(tokens[cursor]));
    if alias.Some? {
      SpellsTwo(tokens, cursor + 1, Keyword("as"), alias.value);
    }
  }

  lemma FirstWord(tree: UseTree)
    requires WellFormed(tree)
    ensures Print(tree)[0].identifier || Print(tree)[0].value in {"*", "{"}
  {
  }

  /** No item starts with a closing brace, and only a rooted one with `::`. */
  lemma FirstOfItem(item: Item, tokens: seq<Token>, cursor: nat)
    requires Lexed(tokens) && WellFormedItem(item) && Spells(tokens, cursor, PrintItem(item))
    ensures !Is(tokens, cursor, "}") && (Is(tokens, cursor, "::") <==> item.rooted)
  {
    var first := PrintItem(item)[0];
    assert WordOf(tokens[cursor + 0]) == first;
    FirstWord(item.tree);
    if first.identifier {
      IdentifierIsNoPunctuation(WordOf(tokens[cursor]));
    }
  }

  lemma {:induction false} ParsesItem(
    item: Item, tokens: seq<Token>, cursor: nat, path: seq<string>, public: bool)
    requires WellFormedItem(item) && Lexed(tokens) && Spells(tokens, cursor, PrintItem(item))
    requires Closed(tokens, cursor + |PrintItem(item)|)
    ensures ParseItem(tokens, cursor, path, public)
         == Some((FlattenItem(item, tokens, cursor, path, public), cursor + |PrintItem(item)|))
    decreases item, 1
  {
    hide Spells, Print, ParseTree, ParsePath, ParseItems, Flatten, FlattenItems, WellFormed;
    if item.rooted {
      SpellsConcat(tokens, cursor, [Punctuation("::")], Print(item.tree));
      SpellsOne(tokens, cursor, Punctuation("::"));
      ParsesTree(item.tree, tokens, cursor + 1, OffsetAt(tokens, cursor + 1), path, public);
    } else {
      FirstOfItem(item, tokens, cursor);
      ParsesTree(item.tree, tokens, cursor, OffsetAt(tokens, cursor), path, public);
    }
  }

  lemma SpellsSeparated(tokens: seq<Token>, cursor: nat, first: seq<Word>, comma: bool, rest: seq<Word>)
    ensures var next := cursor + |first|;
      Spells(tokens, cursor, first + PrintComma(comma) + rest) <==>
        && Spells(tokens, cursor, first)
        && (comma ==> next < |tokens| && WordOf(tokens[next]) == Punctuation(","))
        && Spells(tokens, if comma then next + 1 else next, rest)
  {
    hide Spells;
    SpellsConcat(tokens, cursor, first + PrintComma(comma), rest);
    if comma {
      SpellsConcat(tokens, cursor, first, [Punctuation(",")]);
      SpellsOne(tokens, cursor + |first|, Punctuation(","));
    } else {
      assert first + PrintComma(comma) == first;
    }
  }

  lemma SpellsItems(items: seq<Item>, trailingComma: bool, tokens: seq<Token>, cursor: nat)
    requires items != []
    ensures var next := cursor + |PrintItem(items[0])|;
      var comma := |items| > 1 || trailingComma;
      Spells(tokens, cursor, PrintRest(items, trailingComma)) <==>
        && Spells(tokens, cursor, PrintItem(items[0]))
        && (comma ==> next < |tokens| && WordOf(tokens[next]) == Punctuation(","))
        && Spells(tokens, if comma then next + 1 else next, PrintRest(items[1..], trailingComma))
  {
    hide Spells, PrintItem, Print;
    SpellsSeparated(
      tokens, cursor, PrintItem(items[0]), |items| > 1 || trailingComma, PrintRest(items[1..], trailingComma));
  }

  /** A group's last item and its closing brace, given how the item is parsed. */
  lemma ParsesLastItem(
    item: Item, trailingComma: bool, tokens: seq<Token>, cursor: nat, path: seq<string>, public: bool)
    requires Spells(tokens, cursor, PrintRest([item], trailingComma))
    requires ParseItem(tokens, cursor, path, public)
      == Some((FlattenItem(item, tokens, cursor, path, public), cursor + |PrintItem(item)|))
    ensures ParseItems(tokens, cursor, path, public)
         == Some((FlattenItems([item], tokens, cursor, path, public), cursor + |PrintRest([item], trailingComma)|))
  {
    hide Spells, PrintItem, Print, ParseItem, ParseTree, Flatten, FlattenItem;
    var next := cursor + |PrintItem(item)|;
    SpellsItems([item], trailingComma, tokens, cursor);
    SpellsOne(tokens, if trailingComma then next + 1 else next, Punctuation("}"));
    var leaves := FlattenItem(item, tokens, cursor, path, public);
    assert leaves + FlattenItems([], tokens, next + 1, path, public) == leaves;
  }

  /** The items of a group, given how its first item and the others are parsed. */
  lemma ParsesFirstThenOthers(
    items: seq<Item>, trailingComma: bool, tokens: seq<Token>, cursor: nat, path: seq<string>, public: bool)
    requires |items| > 1 && Spells(tokens, cursor, PrintRest(items, trailingComma))
    requires ParseItem(tokens, cursor, path, public)
      == Some((FlattenItem(items[0], tokens, cursor, path, public), cursor + |PrintItem(items[0])|))
    requires var next := cursor + |PrintItem(items[0])| + 1;
      && !Is(tokens, next, "}")
      && ParseItems(tokens, next, path, public)
         == Some((FlattenItems(items[1..], tokens, next, path, public), next + |PrintRest(items[1..], trailingComma)|))
    ensures ParseItems(tokens, cursor, path, public)
         == Some((FlattenItems(items, tokens, cursor, path, public), cursor + |PrintRest(items, trailingComma)|))
  {
    hide Spells, PrintItem, Print, ParseItem, ParseTree, Flatten, FlattenItem;
    SpellsItems(items, trailingComma, tokens, cursor);
  }

  lemma {:induction false} ParsesItems(
    items: seq<Item>, trailingComma: bool, tokens: seq<Token>, cursor: nat, path: seq<string>, public: bool)
    requires items != [] && (forall item | item in items :: WellFormedItem(item)) && Lexed(tokens)
    requires Spells(tokens, cursor, PrintRest(items, trailingComma))
    ensures ParseItems(tokens, cursor, path, public)
         == Some((FlattenItems(items, tokens, cursor, path, public), cursor + |PrintRest(items, trailingComma)|))
    ensures !Is(tokens, cursor, "}")
    decreases items
  {
    hide Spells, PrintItem, Print, ParseItem, ParseItems, ParseTree, Flatten, FlattenItem, FlattenItems;
    var item, rest := items[0], items[1..];
    var next := cursor + |PrintItem(item)|;
    SpellsItems(items, trailingComma, tokens, cursor);
    FirstOfItem(item, tokens, cursor);
    if |items| == 1 {
      SpellsOne(tokens, if trailingComma then next + 1 else next, Punctuation("}"));
      ParsesItem(item, tokens, cursor, path, public);
      assert items == [item];
      ParsesLastItem(item, trailingComma, tokens, cursor, path, public);
    } else {
      ParsesItem(item, tokens, cursor, path, public);
      ParsesItems(rest, trailingComma, tokens, next + 1, path, public);
      ParsesFirstThenOthers(items, trailingComma, tokens, cursor, path, public);
    }
  }

  // ----- Whatever is parsed is a printed tree

  lemma AliasOf(tokens: seq<Token>, start: nat, path: seq<string>, cursor: nat, public: bool)
    returns (alias: Option<Word>)
    requires cursor <= |tokens| && FinishLeaf(tokens, start, path, cursor, public).Some?
    ensures IsAlias(alias) && Spells(tokens, cursor, PrintAlias(alias))
    ensures FinishLeaf(tokens, start, path, cursor, public)
         == Some(([Leaf(start, path, Spelled(alias), public)], cursor + |PrintAlias(alias)|))
  {
    if cursor < |tokens| && IsKeyword(tokens[cursor], "as") {
      alias := Some(WordOf(tokens[cursor + 1]));
      SpellsTwo(tokens, cursor, Keyword("as"), alias.value);
    } else {
      alias := None;
    }
  }

  lemma {:induction false} TreeOf(tokens: seq<Token>, cursor: nat, start: nat, path: seq<string>, public: bool)
    returns (tree: UseTree)
    requires Lexed(tokens) && ParseTree(tokens, cursor, start, path, public).Some?
    ensures WellFormed(tree) && Spells(tokens, cursor, Print(tree))
    ensures ParseTree(tokens, cursor, start, path, public)
         == Some((Flatten(tree, tokens, cursor, start, path, public), cursor + |Print(tree)|))
    decreases |tokens| - cursor, 0
  {
    hide Spells, PrintItem, ParseItem, ParsePath, ParseItems, FlattenItem;
    if Is(tokens, cursor, "{") {
      PunctuationIsNoIdentifier(tokens, cursor);
      if Is(tokens, cursor + 1, "}") {
        PunctuationIsNoIdentifier(tokens, cursor + 1);
        tree := Group([], false);
        SpellsTwo(tokens, cursor, Punctuation("{"), Punctuation("}"));
        assert Print(tree) == [Punctuation("{"), Punctuation("}")];
      } else {
        var items, trailingComma := ItemsOf(tokens, cursor + 1, path, public);
        tree := Group(items, trailingComma);
        SpellsOne(tokens, cursor, Punctuation("{"));
        SpellsConcat(tokens, cursor, [Punctuation("{")], PrintRest(items, trailingComma));
      }
    } else if Is(tokens, cursor, "*") {
      PunctuationIsNoIdentifier(tokens, cursor);
      var alias := AliasOf(tokens, start, path, cursor + 1, public);
      tree := Glob(alias);
      SpellsOne(tokens, cursor, Punctuation("*"));
      SpellsConcat(tokens, cursor, [Punctuation("*")], PrintAlias(alias));
    } else {
      tree := PathOf(tokens, cursor, start, path, public);
    }
  }

  lemma {:induction false} PathOf(tokens: seq<Token>, cursor: nat, start: nat, path: seq<string>, public: bool)
    returns (tree: UseTree)
    requires Lexed(tokens) && cursor < |tokens| && ParsePath(tokens, cursor, start, path, public).Some?
    ensures WellFormed(tree) && Spells(tokens, cursor, Print(tree))
    ensures ParsePath(tokens, cursor, start, path, public)
         == Some((Flatten(tree, tokens, cursor, start, path, public), cursor + |Print(tree)|))
    decreases |tokens| - cursor, -1
  {
    hide Spells, PrintItem, ParseItem, ParseTree, ParseItems, FinishLeaf, FlattenItem, FlattenItems;
    var segment := WordOf(tokens[cursor]);
    SpellsOne(tokens, cursor, segment);
    if Is(tokens, cursor + 1, "::") {
      PunctuationIsNoIdentifier(tokens, cursor + 1);
      var rest := TreeOf(tokens, cursor + 2, start, path + [segment.value], public);
      tree := Under(segment, rest);
      SpellsTwo(tokens, cursor, segment, Punctuation("::"));
      SpellsConcat(tokens, cursor, [segment, Punctuation("::")], Print(rest));
    } else if IsKeyword(tokens[cursor], "self") {
      var alias := AliasOf(tokens, start, path, cursor + 1, public);
      tree := SelfName(alias);
      SpellsConcat(tokens, cursor, [segment], PrintAlias(alias));
    } else {
      var alias := AliasOf(tokens, start, path + [segment.value], cursor + 1, public);
      tree := Name(segment, alias);
      SpellsConcat(tokens, cursor, [segment], PrintAlias(alias));
    }
  }

  lemma {:induction false} ItemOf(tokens: seq<Token>, cursor: nat, path: seq<string>, public: bool)
    returns (item: Item)
    requires Lexed(tokens) && ParseItem(tokens, cursor, path, public).Some?
    ensures WellFormedItem(item) && Spells(tokens, cursor, PrintItem(item))
    ensures ParseItem(tokens, cursor, path, public)
         == Some((FlattenItem(item, tokens, cursor, path, public), cursor + |PrintItem(item)|))
    decreases |tokens| - cursor, 1
  {
    hide Spells, Print, ParseTree, ParsePath, ParseItems, Flatten, FlattenItems, WellFormed;
    if Is(tokens, cursor, "::") {
      PunctuationIsNoIdentifier(tokens, cursor);
      var tree := TreeOf(tokens, cursor + 1, tokens[cursor + 1].offset, path, public);
      item := Item(true, tree);
      SpellsOne(tokens, cursor, Punctuation("::"));
      SpellsConcat(tokens, cursor, [Punctuation("::")], Print(tree));
    } else {
      var tree := TreeOf(tokens, cursor, tokens[cursor].offset, path, public);
      item := Item(false, tree);
    }
  }

  lemma SpellsLastItem(item: Item, trailingComma: bool, tokens: seq<Token>, cursor: nat)
    requires Lexed(tokens) && Spells(tokens, cursor, PrintItem(item))
    requires var next := cursor + |PrintItem(item)|;
      if trailingComma then Is(tokens, next, ",") && Is(tokens, next + 1, "}") else Is(tokens, next, "}")
    ensures Spells(tokens, cursor, PrintRest([item], trailingComma))
  {
    hide Spells, PrintItem, Print;
    var next := cursor + |PrintItem(item)|;
    var brace := if trailingComma then next + 1 else next;
    PunctuationIsNoIdentifier(tokens, next);
    PunctuationIsNoIdentifier(tokens, brace);
    SpellsOne(tokens, brace, Punctuation("}"));
    assert [item][1..] == [];
    SpellsItems([item], trailingComma, tokens, cursor);
  }

  lemma {:induction false} ItemsOf(tokens: seq<Token>, cursor: nat, path: seq<string>, public: bool)
    returns (items: seq<Item>, trailingComma: bool)
    requires Lexed(tokens) && ParseItems(tokens, cursor, path, public).Some?
    ensures items != [] && forall item | item in items :: WellFormedItem(item)
    ensures Spells(tokens, cursor, PrintRest(items, trailingComma))
    ensures ParseItems(tokens, cursor, path, public)
         == Some((FlattenItems(items, tokens, cursor, path, public), cursor + |PrintRest(items, trailingComma)|))
    decreases |tokens| - cursor, 2
  {
    hide Spells, PrintItem, Print, PrintRest, ParseItem, ParseTree, Flatten, FlattenItem, FlattenItems, WellFormed;
    var item := ItemOf(tokens, cursor, path, public);
    var next := cursor + |PrintItem(item)|;
    PunctuationIsNoIdentifier(tokens, next);
    if !Is(tokens, next, "}") && !Is(tokens, next + 1, "}") {
      var more;
      more, trailingComma := ItemsOf(tokens, next + 1, path, public);
      items := [item] + more;
      assert items[1..] == more;
      SpellsItems(items, trailingComma, tokens, cursor);
      ParsesFirstThenOthers(items, trailingComma, tokens, cursor, path, public);
    } else {
      items, trailingComma := [item], !Is(tokens, next, "}");
      SpellsLastItem(item, trailingComma, tokens, cursor);
      ParsesLastItem(item, trailingComma, tokens, cursor, path, public);
    }
  }

  // ----- Both directions

  /** The tokens are a printed tree and the leaves are its leaves. */
  ghost predicate Denotes(item: Item, tokens: seq<Token>, leaves: seq<Leaf>, public: bool) {
    && WellFormedItem(item)
    && Words(tokens) == PrintItem(item)
    && leaves == FlattenItem(item, tokens, 0, [], public)
  }

  lemma SpellsAll(tokens: seq<Token>, words: seq<Word>)
    requires |tokens| == |words|
    ensures Spells(tokens, 0, words) <==> Words(tokens) == words
  {
    if Words(tokens) == words {
      assert forall i | 0 <= i < |words| :: WordOf(tokens[0 + i]) == Words(tokens)[i];
    }
    if Spells(tokens, 0, words) {
      forall i | 0 <= i < |words| ensures Words(tokens)[i] == words[i] {
        assert WordOf(tokens[0 + i]) == words[i];
      }
    }
  }

  /** The parser accepts exactly the printed trees and returns exactly their leaves. */
  lemma UseLeavesIffDenoted(tokens: seq<Token>, public: bool, leaves: seq<Leaf>)
    requires Lexed(tokens)
    ensures UseLeaves(tokens, public) == Some(leaves) <==> exists item :: Denotes(item, tokens, leaves, public)
  {
    forall item | Denotes(item, tokens, leaves, public) ensures UseLeaves(tokens, public) == Some(leaves) {
      SpellsAll(tokens, PrintItem(item));
      ParsesItem(item, tokens, 0, [], public);
    }
    if UseLeaves(tokens, public) == Some(leaves) {
      var item := ItemOf(tokens, 0, [], public);
      SpellsAll(tokens, PrintItem(item));
      assert Denotes(item, tokens, leaves, public);
    }
  }

  // ----- From text

  /** The marks a tree is written with. */
  predicate IsMark(w: Word) { w.value in {"::", "{", "}", "*", ","} }

  lemma {:induction false} TreeWords(tree: UseTree)
    requires WellFormed(tree)
    ensures forall w | w in Print(tree) && IsLexed(w) :: w.identifier || IsMark(w)
    decreases tree, 0
  {
    match tree
    case Name(_, alias) => AliasWords(alias);
    case SelfName(alias) => AliasWords(alias);
    case Glob(alias) => AliasWords(alias);
    case Group(items, trailingComma) => ItemWords(items, trailingComma);
    case Under(_, rest) => TreeWords(rest);
  }

  lemma AliasWords(alias: Option<Word>)
    requires IsAlias(alias)
    ensures forall w | w in PrintAlias(alias) && IsLexed(w) :: w.identifier
  {
    assert IsAtomCharacter("_"[0]);
  }

  lemma {:induction false} ItemWords(items: seq<Item>, trailingComma: bool)
    requires forall item | item in items :: WellFormedItem(item)
    ensures forall w | w in PrintRest(items, trailingComma) && IsLexed(w) :: w.identifier || IsMark(w)
    decreases items
  {
    if items != [] {
      OneItemWords(items[0]);
      ItemWords(items[1..], trailingComma);
    }
  }

  lemma {:induction false} OneItemWords(item: Item)
    requires WellFormedItem(item)
    ensures forall w | w in PrintItem(item) && IsLexed(w) :: w.identifier || IsMark(w)
    decreases item, 1
  {
    TreeWords(item.tree);
  }

  /**
   * From text: a tree written with any white space between its words, needed only between identifiers, is
   * tokenized and parsed to its leaves.
   */
  lemma SpelledTreeParses(item: Item, pieces: seq<Spaced>, tail: string, public: bool)
    requires WellFormedItem(item) && WordsIn(pieces) == PrintItem(item)
    requires forall p | p in pieces :: IsBlank(p.space) && IsLexed(p.word)
    requires forall i | 0 < i < |pieces| ::
      pieces[i - 1].word.identifier && pieces[i].word.identifier ==> pieces[i].space != ""
    requires IsBlank(tail)
    requires Text(pieces, tail) != "" ==> Text(pieces, tail)[0] != BYTE_ORDER_MARK
    ensures var tokens := Tokens(Text(pieces, tail), 0);
      UseLeaves(tokens, public) == Some(FlattenItem(item, tokens, 0, [], public))
  {
    var text := Text(pieces, tail);
    var tokens := Tokens(text, 0);
    assert text[0..] == text;
    forall p | p in pieces ensures p.word.value !in {":", "#"} {
      var i :| 0 <= i < |pieces| && pieces[i] == p;
      assert WordsIn(pieces)[i] == p.word;
      OneItemWords(item);
      assert p.word in PrintItem(item);
      assert p.word.identifier ==> IsAtomCharacter(p.word.value[0]);
    }
    hide AreApart, Text, Tokens, EndsBefore, Print, PrintItem, UseLeaves, FlattenItem;
    KeepApart(pieces, tail);
    LexingInvertsSpelling(text, 0, pieces, tail);
    TokensAreLexed(text, 0);
    var leaves := FlattenItem(item, tokens, 0, [], public);
    assert Denotes(item, tokens, leaves, public);
    UseLeavesIffDenoted(tokens, public, leaves);
  }
}
