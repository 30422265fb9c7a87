/** `use` trees: their grammar, and the cursor parser that flattens one into leaves. */
module RustUse {
  import opened Wrappers
  import opened RustTokens

  /** One imported path. */
  datatype Leaf = Leaf(start: nat, path: seq<string>, alias: Option<string>, public: bool)

  // ----- The trees

  /** A tree, optionally written with a leading `::`. */
  datatype Item = Item(rooted: bool, tree: UseTree)

  datatype UseTree =
    | Name(segment: Word, alias: Option<Word>)
    | SelfName(alias: Option<Word>)
    | Glob(alias: Option<Word>)
    | Group(items: seq<Item>, trailingComma: bool)
    | Under(segment: Word, rest: UseTree)

  function Punctuation(value: string): Word { Word(value, false, false) }

  function Keyword(value: string): Word { Word(value, true, false) }

  predicate IsSegment(w: Word) { w.identifier && w != Keyword("as") }

  predicate IsAlias(alias: Option<Word>) {
    alias.Some? ==> alias.value.identifier || alias.value.value == "_"
  }

  ghost predicate WellFormedItem(item: Item) { WellFormed(item.tree) }

  ghost predicate WellFormed(tree: UseTree) {
    match tree
    case Name(segment, alias) => IsSegment(segment) && segment != Keyword("self") && IsAlias(alias)
    case SelfName(alias) => IsAlias(alias)
    case Glob(alias) => IsAlias(alias)
    case Group(items, trailingComma) =>
      (trailingComma ==> items != []) && forall item | item in items :: WellFormedItem(item)
    case Under(segment, rest) => IsSegment(segment) && WellFormed(rest)
  }

  // ----- Writing a tree as words

  function PrintAlias(alias: Option<Word>): seq<Word> {
    if alias.Some? then [Keyword("as"), alias.value] else []
  }

  function Print(tree: UseTree): (r: seq<Word>)
    ensures |r| >= 1
  {
    match tree
    case Name(segment, alias) => [segment] + PrintAlias(alias)
    case SelfName(alias) => [Keyword("self")] + PrintAlias(alias)
    case Glob(alias) => [Punctuation("*")] + PrintAlias(alias)
    case Group(items, trailingComma) => [Punctuation("{")] + PrintRest(items, trailingComma)
    case Under(segment, rest) => [segment, Punctuation("::")] + Print(rest)
  }

  function PrintItem(item: Item): (r: seq<Word>)
    ensures |r| >= 1
  {
    if item.rooted then [Punctuation("::")] + Print(item.tree) else Print(item.tree)
  }

  function PrintComma(comma: bool): seq<Word> { if comma then [Punctuation(",")] else [] }

  /** What follows the opening brace, or follows a comma inside the group. */
  function PrintRest(items: seq<Item>, trailingComma: bool): (r: seq<Word>)
    ensures |r| >= 1
  {
    if items == [] then [Punctuation("}")]
    else PrintItem(items[0]) + PrintComma(|items| > 1 || trailingComma) + PrintRest(items[1..], trailingComma)
  }

  // ----- The leaves of a tree that stands at a cursor

  function Spelled(alias: Option<Word>): Option<string> {
    if alias.Some? then Some(alias.value.value) else None
  }

  function OffsetAt(tokens: seq<Token>, cursor: nat): nat {
    if cursor < |tokens| then tokens[cursor].offset else 0
  }

  function Flatten(tree: UseTree, tokens: seq<Token>, cursor: nat, start: nat, path: seq<string>, public: bool)
    : seq<Leaf>
  {
    match tree
    case Name(segment, alias) => [Leaf(start, path + [segment.value], Spelled(alias), public)]
    case SelfName(alias) => [Leaf(start, path, Spelled(alias), public)]
    case Glob(alias) => [Leaf(start, path, Spelled(alias), public)]
    case Group(items, trailingComma) => FlattenItems(items, tokens, cursor + 1, path, public)
    case Under(segment, rest) => Flatten(rest, tokens, cursor + 2, start, path + [segment.value], public)
  }

  function FlattenItem(item: Item, tokens: seq<Token>, cursor: nat, path: seq<string>, public: bool): seq<Leaf> {
    var at := if item.rooted then cursor + 1 else cursor;
    Flatten(item.tree, tokens, at, OffsetAt(tokens, at), path, public)
  }

  function FlattenItems(items: seq<Item>, tokens: seq<Token>, cursor: nat, path: seq<string>, public: bool): seq<Leaf> {
    if items == [] then []
    else
      FlattenItem(items[0], tokens, cursor, path, public) +
      FlattenItems(items[1..], tokens, cursor + |PrintItem(items[0])| + 1, path, public)
  }

  // ----- The parser

  type Parsed = Option<(seq<Leaf>, nat)>

  predicate Is(tokens: seq<Token>, cursor: nat, value: string) {
    cursor < |tokens| && tokens[cursor].value == value
  }

  predicate IsKeyword(token: Token, keyword: string) {
    token.identifier && token.value == keyword && !token.raw
  }

  function FinishLeaf(tokens: seq<Token>, start: nat, path: seq<string>, cursor: nat, public: bool): (r: Parsed)
    requires cursor <= |tokens|
    ensures r.Some? ==> cursor <= r.value.1 <= |tokens|
  {
    if cursor < |tokens| && IsKeyword(tokens[cursor], "as") then
      if cursor + 1 >= |tokens| then None
      else if tokens[cursor + 1].identifier || tokens[cursor + 1].value == "_" then
        Some(([Leaf(start, path, Some(tokens[cursor + 1].value), public)], cursor + 2))
      else None
    else Some(([Leaf(start, path, None, public)], cursor))
  }

  function ParseItem(tokens: seq<Token>, cursor: nat, path: seq<string>, public: bool): (r: Parsed)
    ensures r.Some? ==> cursor < r.value.1 <= |tokens|
    decreases |tokens| - cursor, 1
  {
    if cursor >= |tokens| then None
    else
      var at := if Is(tokens, cursor, "::") then cursor + 1 else cursor;
      if at >= |tokens| then None else ParseTree(tokens, at, tokens[at].offset, path, public)
  }

  /** A group, a glob, or a path whose leaf started at offset `start`. */
  function ParseTree(tokens: seq<Token>, cursor: nat, start: nat, path: seq<string>, public: bool): (r: Parsed)
    ensures r.Some? ==> cursor < r.value.1 <= |tokens|
    decreases |tokens| - cursor, 0
  {
    if cursor >= |tokens| then None
    else if Is(tokens, cursor, "{") then
      if Is(tokens, cursor + 1, "}") then Some(([], cursor + 2)) else ParseItems(tokens, cursor + 1, path, public)
    else if Is(tokens, cursor, "*") then FinishLeaf(tokens, start, path, cursor + 1, public)
    else ParsePath(tokens, cursor, start, path, public)
  }

  function ParsePath(tokens: seq<Token>, cursor: nat, start: nat, path: seq<string>, public: bool): (r: Parsed)
    requires cursor < |tokens|
    ensures r.Some? ==> cursor < r.value.1 <= |tokens|
    decreases |tokens| - cursor, -1
  {
    var segment := tokens[cursor];
    if !segment.identifier || IsKeyword(segment, "as") then None
    else if !Is(tokens, cursor + 1, "::") then
      if IsKeyword(segment, "self") then FinishLeaf(tokens, start, path, cursor + 1, public)
      else FinishLeaf(tokens, start, path + [segment.value], cursor + 1, public)
    else ParseTree(tokens, cursor + 2, start, path + [segment.value], public)
  }

  /** The items of a group up to its closing brace. */
  function ParseItems(tokens: seq<Token>, cursor: nat, path: seq<string>, public: bool): (r: Parsed)
    ensures r.Some? ==> cursor < r.value.1 <= |tokens|
    decreases |tokens| - cursor, 2
  {
    match ParseItem(tokens, cursor, path, public)
    case None => None
    case Some((leaves, next)) =>
      if Is(tokens, next, "}") then Some((leaves, next + 1))
      else if !Is(tokens, next, ",") then None
      else if Is(tokens, next + 1, "}") then Some((leaves, next + 2))
      else match ParseItems(tokens, next + 1, path, public)
        case None => None
        case Some((more, end)) => Some((leaves + more, end))
  }

  function UseLeaves(tokens: seq<Token>, public: bool): Option<seq<Leaf>> {
    match ParseItem(tokens, 0, [], public)
    case None => None
    case Some((leaves, cursor)) => if cursor == |tokens| then Some(leaves) else None
  }
}
