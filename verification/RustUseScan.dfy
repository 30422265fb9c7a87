/** The moving-cursor parser with its loops, proved to compute `RustUse.UseLeaves`. */
module RustUseScan {
  import opened Wrappers
  import opened RustTokens
  import opened RustUse

  function Prepended(leaves: seq<Leaf>, rest: Parsed): Parsed {
    match rest
    case None => None
    case Some((more, end)) => Some((leaves + more, end))
  }

  lemma PrependNothing(parsed: Parsed)
    ensures Prepended([], parsed) == parsed
  {
    if parsed.Some? {
      assert [] + parsed.value.0 == parsed.value.0;
    }
  }

  lemma PrependTwice(first: seq<Leaf>, second: seq<Leaf>, parsed: Parsed)
    ensures Prepended(first, Prepended(second, parsed)) == Prepended(first + second, parsed)
  {
    if parsed.Some? {
      assert first + (second + parsed.value.0) == first + second + parsed.value.0;
    }
  }

  method ScanItem(tokens: seq<Token>, from: nat, inherited: seq<string>, public: bool) returns (r: Parsed)
    ensures r == ParseItem(tokens, from, inherited, public)
    decreases |tokens| - from, 1
  {
    var cursor := from;
    if cursor >= |tokens| {
      return None;
    }
    if tokens[cursor].value == "::" {
      cursor := cursor + 1;
      if cursor >= |tokens| {
        return None;
      }
    }
    var start := tokens[cursor].offset;
    if tokens[cursor].value == "{" {
      if Is(tokens, cursor + 1, "}") {
        return Some(([], cursor + 2));
      }
      r := ScanGroup(tokens, cursor + 1, inherited, public);
    } else if tokens[cursor].value == "*" {
      r := FinishLeaf(tokens, start, inherited, cursor + 1, public);
    } else {
      r := ScanPath(tokens, cursor, start, inherited, public);
    }
  }

  method ScanGroup(tokens: seq<Token>, from: nat, path: seq<string>, public: bool) returns (r: Parsed)
    ensures r == ParseItems(tokens, from, path, public)
    decreases |tokens| - from, 2
  {
    hide ParseItem, ParseTree, ParsePath;
    var cursor := from;
    var leaves: seq<Leaf> := [];
    ghost var items := ParseItems(tokens, from, path, public);
    PrependNothing(items);
    while cursor < |tokens|
      invariant from <= cursor
      invariant items == Prepended(leaves, ParseItems(tokens, cursor, path, public))
      decreases |tokens| - cursor
    {
      var parsed := ScanItem(tokens, cursor, path, public);
      if parsed.None? {
        return None;
      }
      var (branch, next) := parsed.value;
      if next >= |tokens| {
        return None;
      }
      if tokens[next].value == "}" {
        return Some((leaves + branch, next + 1));
      }
      if tokens[next].value != "," {
        return None;
      }
      if Is(tokens, next + 1, "}") {
        return Some((leaves + branch, next + 2));
      }
      PrependTwice(leaves, branch, ParseItems(tokens, next + 1, path, public));
      leaves := leaves + branch;
      cursor := next + 1;
    }
    assert ParseItem(tokens, cursor, path, public) == None by {
      NoItemAtEnd(tokens, cursor, path, public);
    }
    return None;
  }

  lemma NoItemAtEnd(tokens: seq<Token>, cursor: nat, path: seq<string>, public: bool)
    requires cursor >= |tokens|
    ensures ParseItem(tokens, cursor, path, public) == None
  {
  }

  /** A group after a path is parsed like an item of its own. */
  lemma GroupAfterPath(tokens: seq<Token>, cursor: nat, start: nat, path: seq<string>, public: bool)
    requires Is(tokens, cursor, "{")
    ensures ParseItem(tokens, cursor, path, public) == ParseTree(tokens, cursor, start, path, public)
  {
  }

  method ScanPath(tokens: seq<Token>, from: nat, start: nat, inherited: seq<string>, public: bool)
    returns (r: Parsed)
    requires from < |tokens|
    ensures r == ParsePath(tokens, from, start, inherited, public)
    decreases |tokens| - from, 0
  {
    hide FinishLeaf, ParseItem, ParseItems;
    var cursor, path := from, inherited;
    while true
      invariant from <= cursor < |tokens|
      invariant ParsePath(tokens, from, start, inherited, public) == ParsePath(tokens, cursor, start, path, public)
      decreases |tokens| - cursor
    {
      var segment := tokens[cursor];
      if !segment.identifier || IsKeyword(segment, "as") {
        return None;
      }
      if IsKeyword(segment, "self") && (cursor + 1 >= |tokens| || tokens[cursor + 1].value != "::") {
        return FinishLeaf(tokens, start, path, cursor + 1, public);
      }
      path := path + [segment.value];
      cursor := cursor + 1;
      if cursor >= |tokens| || tokens[cursor].value != "::" {
        return FinishLeaf(tokens, start, path, cursor, public);
      }
      cursor := cursor + 1;
      if cursor >= |tokens| {
        return None;
      }
      if tokens[cursor].value == "{" {
        GroupAfterPath(tokens, cursor, start, path, public);
        r := ScanItem(tokens, cursor, path, public);
        return;
      }
      if tokens[cursor].value == "*" {
        return FinishLeaf(tokens, start, path, cursor + 1, public);
      }
    }
  }

  method RustUseLeaves(tokens: seq<Token>, public: bool) returns (r: Option<seq<Leaf>>)
    ensures r == UseLeaves(tokens, public)
  {
    var parsed := ScanItem(tokens, 0, [], public);
    if parsed.None? {
      return None;
    }
    var (leaves, cursor) := parsed.value;
    if cursor != |tokens| {
      return None;
    }
    return Some(leaves);
  }
}
