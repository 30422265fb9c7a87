/** ClickHouse type names as text: unwrapping, map arguments, and the scalar tables that read them. */
module ClickHouseTypes {
  import opened Wrappers
  import opened Text

  // ----- Text

  /** What stands before and after the first occurrence of `c`. */
  function SplitOnce(s: string, c: char): (r: Option<(string, string)>)
    ensures r.Some? ==> s == r.value.0 + [c] + r.value.1 && c !in r.value.0
    ensures r.None? ==> c !in s
  {
    if s == "" then None
    else if s[0] == c then Some(("", s[1..]))
    else match SplitOnce(s[1..], c)
      case None => None
      case Some((before, after)) => Some(([s[0]] + before, after))
  }

  // ----- The source's functions

  function InnerType(native: string, wrapper: string): (r: Option<string>)
    ensures r.Some? ==> |r.value| < |native|
  {
    match StripPrefix(native, wrapper)
    case None => None
    case Some(rest) =>
      match StripPrefix(rest, "(")
      case None => None
      case Some(inner) => StripSuffix(inner, ')')
  }

  function Unwrapped(native: string): string
    decreases |native|
  {
    if InnerType(native, "Nullable").Some? then Unwrapped(InnerType(native, "Nullable").value)
    else if InnerType(native, "LowCardinality").Some? then Unwrapped(InnerType(native, "LowCardinality").value)
    else native
  }

  method UnwrapType(native: string) returns (r: string)
    ensures r == Unwrapped(Trim(native))
  {
    r := Trim(native);
    while true
      invariant Unwrapped(r) == Unwrapped(Trim(native))
      decreases |r|
    {
      var inner := InnerType(r, "Nullable");
      if inner.None? {
        inner := InnerType(r, "LowCardinality");
      }
      if inner.None? {
        break;
      }
      r := inner.value;
    }
  }

  function Shifted(distance: nat, r: Option<nat>): Option<nat> {
    match r
    case None => None
    case Some(i) => Some(distance + i)
  }

  function NextNesting(c: char, nesting: nat): nat {
    if c == '(' then nesting + 1 else if c == ')' && nesting > 0 then nesting - 1 else nesting
  }

  /** The offset of the first comma outside parentheses; an unmatched `)` is passed over. */
  function SeparatorAt(args: string, nesting: nat): (r: Option<nat>)
    ensures r.Some? ==> r.value < |args| && args[r.value] == ','
  {
    if args == "" then None
    else if args[0] == ',' && nesting == 0 then Some(0)
    else
      Shifted(1, SeparatorAt(args[1..], NextNesting(args[0], nesting)))
  }

  function MapTypes(native: string): Option<(string, string)> {
    match SplitOnce(Unwrapped(Trim(native)), '(')
    case None => None
    case Some((family, rest)) =>
      if Lower(Trim(family)) != "map" then None
      else match StripSuffix(rest, ')')
        case None => None
        case Some(args) =>
          match SeparatorAt(args, 0)
          case None => None
          case Some(separator) =>
            var key, value := Trim(args[..separator]), Trim(args[separator + 1..]);
            if key == "" || value == "" then None else Some((key, value))
  }

  lemma SeparatorStep(args: string, index: nat, nesting: nat)
    requires index < |args|
    ensures args[index] == ',' && nesting == 0 ==> SeparatorAt(args[index..], nesting) == Some(0)
    ensures args[index] != ',' || nesting > 0 ==>
      SeparatorAt(args[index..], nesting)
      == Shifted(1, SeparatorAt(args[index + 1..], NextNesting(args[index], nesting)))
  {
    assert args[index..][1..] == args[index + 1..];
  }

  method FindSeparator(args: string) returns (r: Option<nat>)
    ensures r == SeparatorAt(args, 0)
  {
    hide SeparatorAt;
    assert args[0..] == args;
    var nesting: nat := 0;
    var index := 0;
    while index < |args|
      invariant index <= |args|
      invariant SeparatorAt(args, 0) == Shifted(index, SeparatorAt(args[index..], nesting))
    {
      var ch := args[index];
      SeparatorStep(args, index, nesting);
      match ch {
        case '(' => nesting := nesting + 1;
        case ')' => if nesting > 0 { nesting := nesting - 1; }
        case ',' =>
          if nesting == 0 {
            return Some(index);
          }
        case _ =>
      }
      index := index + 1;
    }
    NoSeparatorInNothing(nesting);
    return None;
  }

  lemma NoSeparatorInNothing(nesting: nat)
    ensures SeparatorAt("", nesting) == None
  {
  }

  method ClickHouseMapTypes(native: string) returns (r: Option<(string, string)>)
    ensures r == MapTypes(native)
  {
    var unwrapped := UnwrapType(native);
    var split := SplitOnce(unwrapped, '(');
    if split.None? {
      return None;
    }
    var (family, rest) := split.value;
    if Lower(Trim(family)) != "map" {
      return None;
    }
    var args := StripSuffix(rest, ')');
    if args.None? {
      return None;
    }
    var separator := FindSeparator(args.value);
    if separator.None? {
      return None;
    }
    var key, value := Trim(args.value[..separator.value]), Trim(args.value[separator.value + 1..]);
    if key == "" || value == "" {
      return None;
    }
    return Some((key, value));
  }

  predicate IsNullable(native: string)
    decreases |native|
  {
    var trimmed := Trim(native);
    TrimShortens(native);
    InnerType(trimmed, "Nullable").Some?
    || (InnerType(trimmed, "LowCardinality").Some? && IsNullable(InnerType(trimmed, "LowCardinality").value))
  }

  function Family(native: string): string {
    match SplitOnce(native, '(')
    case None => Lower(native)
    case Some((name, _)) => Lower(name)
  }

  function FamilyToPg(family: string): string {
    if family in {"int8", "int16", "uint8", "uint16"} then "int2"
    else if family in {"int32", "uint32"} then "int4"
    else if family in {"int64", "uint64", "int128", "uint128", "int256", "uint256"} then "int8"
    else if family == "float32" then "float4"
    else if family == "float64" then "float8"
    else if family in {"decimal", "decimal32", "decimal64", "decimal128", "decimal256"} then "numeric"
    else if family in {"bool", "boolean"} then "bool"
    else if family == "uuid" then "uuid"
    else if family in {"json", "object", "map", "tuple", "array"} then "json"
    else if family in {"datetime", "datetime64"} then "timestamp"
    else if family in {"date", "date32"} then "date"
    else "text"
  }

  function TypeToPg(native: string): string { FamilyToPg(Family(Unwrapped(Trim(native)))) }

  method ClickHouseTypeToPg(native: string) returns (pg: string)
    ensures pg == TypeToPg(native)
  {
    var unwrapped := UnwrapType(native);
    pg := FamilyToPg(Family(unwrapped));
  }

  datatype ScalarType =
    | SmallInt | Int | BigInt | Float | Double | Numeric | Bool | TextType | Uuid | JsonType | Jsonb
    | Timestamp | TimestampTz | Date | Time | BytesType | Geometry | Geography | Other(native: string)

  function PostgresScalar(native: string): ScalarType {
    if native == "int2" then SmallInt
    else if native == "int4" then Int
    else if native == "int8" then BigInt
    else if native == "float4" then Float
    else if native == "float8" then Double
    else if native == "numeric" then Numeric
    else if native == "bool" then Bool
    else if native in {"text", "varchar", "bpchar"} then TextType
    else if native == "uuid" then Uuid
    else if native == "json" then JsonType
    else if native == "jsonb" then Jsonb
    else if native == "timestamp" then Timestamp
    else if native == "timestamptz" then TimestampTz
    else if native == "date" then Date
    else if native == "time" then Time
    else if native == "bytea" then BytesType
    else if native == "geometry" then Geometry
    else if native == "geography" then Geography
    else Other(native)
  }

  function FamilyScalar(family: string, native: string): ScalarType {
    if family in {"int8", "int16", "uint8", "uint16"} then SmallInt
    else if family in {"int32", "uint32"} then Int
    else if family in {"int64", "uint64"} then BigInt
    else if family == "float32" then Float
    else if family == "float64" then Double
    else if family in {"decimal", "decimal32", "decimal64", "decimal128", "decimal256"} then Numeric
    else if family in {"bool", "boolean"} then Bool
    else if family in {"string", "fixedstring", "enum8", "enum16", "ipv4", "ipv6"} then TextType
    else if family == "uuid" then Uuid
    else if family == "json" then JsonType
    else if family in {"datetime", "datetime64"} then Timestamp
    else if family in {"date", "date32"} then Date
    else Other(native)
  }

  function ClickHouseScalar(native: string): ScalarType
    decreases |native|
  {
    var trimmed := Trim(native);
    TrimShortens(native);
    if InnerType(trimmed, "Nullable").Some? then ClickHouseScalar(InnerType(trimmed, "Nullable").value)
    else if InnerType(trimmed, "LowCardinality").Some? then
      ClickHouseScalar(InnerType(trimmed, "LowCardinality").value)
    else FamilyScalar(Family(trimmed), trimmed)
  }

  // ----- Type trees and how ClickHouse prints them

  datatype ChType =
    | Nullable(inner: ChType)
    | LowCardinality(inner: ChType)
    | Base(name: string, args: seq<ChType>)

  predicate IsNameChar(c: char) {
    'a' <= c <= 'z' || 'A' <= c <= 'Z' || '0' <= c <= '9' || c == '_'
  }

  predicate IsName(s: string) { s != "" && forall i | 0 <= i < |s| :: IsNameChar(s[i]) }

  ghost predicate WellFormed(t: ChType) {
    match t
    case Nullable(inner) => WellFormed(inner)
    case LowCardinality(inner) => WellFormed(inner)
    case Base(name, args) =>
      IsName(name) && name != "Nullable" && name != "LowCardinality" && forall a | a in args :: WellFormed(a)
  }

  function PrintArgs(args: seq<ChType>): string {
    if args == [] then ""
    else if |args| == 1 then Print(args[0])
    else Print(args[0]) + ", " + PrintArgs(args[1..])
  }

  function Print(t: ChType): string {
    match t
    case Nullable(inner) => "Nullable(" + Print(inner) + ")"
    case LowCardinality(inner) => "LowCardinality(" + Print(inner) + ")"
    case Base(name, args) => if args == [] then name else name + "(" + PrintArgs(args) + ")"
  }

  /** The type inside every wrapper. */
  function Core(t: ChType): (r: ChType)
    ensures r.Base?
  {
    match t
    case Base(_, _) => t
    case _ => Core(t.inner)
  }

  predicate HasNullable(t: ChType) {
    match t
    case Nullable(_) => true
    case LowCardinality(inner) => HasNullable(inner)
    case Base(_, _) => false
  }

  /** The families both tables know alike. */
  const SHARED_FAMILIES: set<string> := {
    "int8", "int16", "uint8", "uint16", "int32", "uint32", "int64", "uint64", "float32", "float64",
    "decimal", "decimal32", "decimal64", "decimal128", "decimal256", "bool", "boolean", "uuid", "json",
    "datetime", "datetime64", "date", "date32", "string", "fixedstring", "enum8", "enum16", "ipv4", "ipv6"
  }

  // ----- Printed types carry no padding

  lemma NameIsTight(name: string)
    requires IsName(name)
    ensures IsTight(name) && '(' !in name && ')' !in name && ',' !in name
  {
    assert IsNameChar(name[0]) && IsNameChar(name[|name| - 1]);
  }

  lemma PrintIsTight(t: ChType)
    requires WellFormed(t)
    ensures IsTight(Print(t))
  {
    if t.Base? {
      NameIsTight(t.name);
    }
  }

  lemma {:induction false} PrintArgsIsTight(args: seq<ChType>)
    requires args != [] && forall a | a in args :: WellFormed(a)
    ensures IsTight(PrintArgs(args))
  {
    PrintIsTight(args[0]);
    if |args| > 1 {
      PrintArgsIsTight(args[1..]);
    }
  }

  lemma {:induction false} SplitAfterName(name: string, rest: string)
    requires '(' !in name
    ensures SplitOnce(name + "(" + rest, '(') == Some((name, rest))
  {
    if name == "" {
      assert name + "(" + rest == "(" + rest && ("(" + rest)[1..] == rest;
    } else {
      assert (name + "(" + rest)[1..] == name[1..] + "(" + rest;
      SplitAfterName(name[1..], rest);
      assert [name[0]] + name[1..] == name;
    }
  }

  // ----- Wrappers

  lemma InnerOfWrapped(wrapper: string, inner: string)
    ensures InnerType(wrapper + "(" + inner + ")", wrapper) == Some(inner)
  {
    var s := wrapper + "(" + inner + ")";
    assert s[|wrapper|..] == "(" + (inner + ")");
    assert ("(" + (inner + ")"))[1..] == inner + ")";
    assert (inner + ")")[..|inner|] == inner;
  }

  lemma OnlyNamedInner(s: string, wrapper: string)
    requires '(' !in wrapper
    requires SplitOnce(s, '(').Some? ==> SplitOnce(s, '(').value.0 != wrapper
    ensures InnerType(s, wrapper) == None
  {
    if InnerType(s, wrapper).Some? {
      var rest := s[|wrapper| + 1..];
      assert s == wrapper + "(" + rest;
      SplitAfterName(wrapper, rest);
      assert false;
    }
  }

  lemma {:induction false} SplitNowhere(s: string)
    requires '(' !in s
    ensures SplitOnce(s, '(') == None
  {
    if s != "" {
      SplitNowhere(s[1..]);
    }
  }

  lemma BaseSplits(t: ChType)
    requires t.Base? && WellFormed(t)
    ensures SplitOnce(Print(t), '(') == if t.args == [] then None else Some((t.name, PrintArgs(t.args) + ")"))
  {
    NameIsTight(t.name);
    if t.args == [] {
      SplitNowhere(t.name);
    } else {
      SplitAfterName(t.name, PrintArgs(t.args) + ")");
      assert Print(t) == t.name + "(" + (PrintArgs(t.args) + ")");
    }
  }

  /** A base type is not mistaken for a wrapped one. */
  lemma BaseIsUnwrapped(t: ChType)
    requires t.Base? && WellFormed(t)
    ensures InnerType(Print(t), "Nullable") == None
    ensures InnerType(Print(t), "LowCardinality") == None
  {
    BaseSplits(t);
    hide Print, InnerType, SplitOnce, PrintArgs, IsName;
    OnlyNamedInner(Print(t), "Nullable");
    OnlyNamedInner(Print(t), "LowCardinality");
  }

  lemma NullableIsInside(inner: string)
    ensures InnerType("Nullable(" + inner + ")", "Nullable") == Some(inner)
  {
    InnerOfWrapped("Nullable", inner);
    assert "Nullable" + "(" + inner + ")" == "Nullable(" + inner + ")";
  }

  lemma LowCardinalityIsInside(inner: string)
    ensures InnerType("LowCardinality(" + inner + ")", "LowCardinality") == Some(inner)
    ensures InnerType("LowCardinality(" + inner + ")", "Nullable") == None
  {
    InnerOfWrapped("LowCardinality", inner);
    assert "LowCardinality" + "(" == "LowCardinality(";
    var s := "LowCardinality(" + inner + ")";
    NotNullable(s);
    hide InnerType;
  }

  lemma NotNullable(s: string)
    requires s != "" && s[0] == 'L'
    ensures InnerType(s, "Nullable") == None
  {
    assert "Nullable"[0] == 'N';
  }

  lemma {:induction false} UnwrappedIsCore(t: ChType)
    requires WellFormed(t)
    ensures Unwrapped(Print(t)) == Print(Core(t)) && WellFormed(Core(t))
  {
    hide InnerType;
    match t
    case Nullable(inner) =>
      NullableIsInside(Print(inner));
      UnwrappedIsCore(inner);
    case LowCardinality(inner) =>
      LowCardinalityIsInside(Print(inner));
      UnwrappedIsCore(inner);
    case Base(name, args) =>
      BaseIsUnwrapped(t);
  }

  /** A printed type is nullable exactly when `Nullable` is among its wrappers. */
  lemma {:induction false} NullableIffWrapped(t: ChType)
    requires WellFormed(t)
    ensures IsNullable(Print(t)) <==> HasNullable(t)
  {
    PrintIsTight(t);
    TightIsTrimmed(Print(t));
    hide InnerType, Trim, IsTight;
    match t
    case Nullable(inner) => NullableIsInside(Print(inner));
    case LowCardinality(inner) =>
      LowCardinalityIsInside(Print(inner));
      NullableIffWrapped(inner);
    case Base(name, args) =>
      BaseIsUnwrapped(t);
  }

  // ----- Map arguments

  lemma StepOver(c: char, rest: string, nesting: nat)
    requires c != ',' || nesting > 0
    ensures SeparatorAt([c] + rest, nesting) == Shifted(1, SeparatorAt(rest, NextNesting(c, nesting)))
  {
    assert ([c] + rest)[1..] == rest;
  }

  lemma {:induction false} StepOverPlain(s: string, rest: string, nesting: nat)
    requires '(' !in s && ')' !in s && (',' !in s || nesting > 0)
    ensures SeparatorAt(s + rest, nesting) == Shifted(|s|, SeparatorAt(rest, nesting))
  {
    if s == "" {
      assert s + rest == rest;
    } else {
      assert s + rest == [s[0]] + (s[1..] + rest);
      StepOver(s[0], s[1..] + rest, nesting);
      StepOverPlain(s[1..], rest, nesting);
    }
  }

  /** `name(body)` has no separator of its own when `body` has none inside the parentheses. */
  lemma StepOverCall(name: string, body: string, rest: string, nesting: nat)
    requires '(' !in name && ')' !in name && ',' !in name
    requires SeparatorAt(body + (")" + rest), nesting + 1) == Shifted(|body|, SeparatorAt(")" + rest, nesting + 1))
    ensures SeparatorAt(name + "(" + body + ")" + rest, nesting)
         == Shifted(|name + "(" + body + ")"|, SeparatorAt(rest, nesting))
  {
    hide SeparatorAt;
    var closed := ")" + rest;
    var enclosed := "(" + (body + closed);
    assert name + "(" + body + ")" + rest == name + enclosed;
    StepOverPlain(name, enclosed, nesting);
    StepOver('(', body + closed, nesting);
    StepOver(')', rest, nesting + 1);
  }

  lemma WrappedPrints(inner: ChType)
    ensures "Nullable" + "(" + Print(inner) + ")" == Print(Nullable(inner))
    ensures "LowCardinality" + "(" + Print(inner) + ")" == Print(LowCardinality(inner))
  {
    assert "Nullable" + "(" == "Nullable(" && "LowCardinality" + "(" == "LowCardinality(";
  }

  lemma {:induction false} StepOverType(t: ChType, rest: string, nesting: nat)
    requires WellFormed(t)
    ensures SeparatorAt(Print(t) + rest, nesting) == Shifted(|Print(t)|, SeparatorAt(rest, nesting))
    decreases t, 2
  {
    hide SeparatorAt;
    match t
    case Nullable(inner) =>
      StepOverType(inner, ")" + rest, nesting + 1);
      StepOverCall("Nullable", Print(inner), rest, nesting);
      WrappedPrints(inner);
    case LowCardinality(inner) =>
      StepOverType(inner, ")" + rest, nesting + 1);
      StepOverCall("LowCardinality", Print(inner), rest, nesting);
      WrappedPrints(inner);
    case Base(name, args) =>
      NameIsTight(name);
      if args == [] {
        StepOverPlain(name, rest, nesting);
      } else {
        StepOverArgs(t, args, ")" + rest, nesting + 1);
        StepOverCall(name, PrintArgs(args), rest, nesting);
      }
  }

  lemma {:induction false} StepOverArgs(t: ChType, args: seq<ChType>, rest: string, nesting: nat)
    requires nesting > 0
    requires forall a | a in args :: WellFormed(a) && a < t
    ensures SeparatorAt(PrintArgs(args) + rest, nesting) == Shifted(|PrintArgs(args)|, SeparatorAt(rest, nesting))
    decreases t, 1, |args|
  {
    hide SeparatorAt, Print;
    if args == [] {
      assert PrintArgs(args) + rest == rest;
    } else if |args| == 1 {
      assert args[0] in args;
      StepOverType(args[0], rest, nesting);
    } else {
      var tail := PrintArgs(args[1..]);
      assert args[0] in args;
      PrintArgsOfMany(args);
      hide PrintArgs, WellFormed;
      assert PrintArgs(args) + rest == Print(args[0]) + (", " + (tail + rest));
      StepOverType(args[0], ", " + (tail + rest), nesting);
      StepOverPlain(", ", tail + rest, nesting);
      StepOverArgs(t, args[1..], rest, nesting);
    }
  }

  /** The separator of printed arguments stands right after the first one. */
  lemma SeparatorFollowsFirst(args: seq<ChType>)
    requires args != [] && forall a | a in args :: WellFormed(a)
    ensures |args| == 1 ==> SeparatorAt(PrintArgs(args), 0) == None
    ensures |args| > 1 ==> SeparatorAt(PrintArgs(args), 0) == Some(|Print(args[0])|)
  {
    if |args| == 1 {
      StepOverType(args[0], "", 0);
      hide Print;
      assert Print(args[0]) + "" == Print(args[0]) == PrintArgs(args);
    } else {
      var tail := ", " + PrintArgs(args[1..]);
      StepOverType(args[0], tail, 0);
      PrintArgsOfMany(args);
      SeparatorIsHere(tail);
      hide Print, PrintArgs, SeparatorAt, WellFormed;
    }
  }

  lemma SeparatorIsHere(tail: string)
    requires tail != "" && tail[0] == ','
    ensures SeparatorAt(tail, 0) == Some(0)
  {
  }

  lemma PrintArgsOfMany(args: seq<ChType>)
    requires |args| > 1
    ensures PrintArgs(args) == Print(args[0]) + (", " + PrintArgs(args[1..]))
  {
    hide Print;
    assert PrintArgs(args) == Print(args[0]) + ", " + PrintArgs(args[1..]);
  }

  predicate IsMap(t: ChType) { Core(t).args != [] && Lower(Core(t).name) == "map" }

  /** `Map(K, V)` under any wrappers gives back `K` and `V` as printed; anything else gives nothing. */
  lemma MapTypesOfPrinted(t: ChType)
    requires WellFormed(t)
    ensures MapTypes(Print(t)) ==
      if IsMap(t) && |Core(t).args| > 1 then Some((Print(Core(t).args[0]), PrintArgs(Core(t).args[1..]))) else None
  {
    PrintIsTight(t);
    TightIsTrimmed(Print(t));
    UnwrappedIsCore(t);
    MapTypesOfCore(Core(t), Print(t));
  }

  lemma MapTypesOfCore(core: ChType, native: string)
    requires core.Base? && WellFormed(core) && Unwrapped(Trim(native)) == Print(core)
    ensures MapTypes(native) ==
      if core.args != [] && Lower(core.name) == "map" && |core.args| > 1
      then Some((Print(core.args[0]), PrintArgs(core.args[1..]))) else None
  {
    BaseSplits(core);
    if core.args == [] {
      hide Print, Unwrapped, Trim, SplitOnce, SeparatorAt, WellFormed, Lower;
    } else {
      var args := PrintArgs(core.args);
      NameIsTight(core.name);
      TightIsTrimmed(core.name);
      MapTypesOfCall(native, core.name, args);
      SeparatorFollowsFirst(core.args);
      if |core.args| > 1 {
        MapArgumentsAreTrimmed(core.args);
      }
      hide Print, PrintArgs, Unwrapped, Trim, SplitOnce, Lower, WellFormed, SeparatorAt, IsTight, IsName, MapTypes;
    }
  }

  lemma MapTypesOfCall(native: string, name: string, args: string)
    requires SplitOnce(Unwrapped(Trim(native)), '(') == Some((name, args + ")")) && Trim(name) == name
    ensures Lower(name) != "map" || SeparatorAt(args, 0).None? ==> MapTypes(native) == None
    ensures Lower(name) == "map" && SeparatorAt(args, 0).Some? ==>
      var at := SeparatorAt(args, 0).value;
      MapTypes(native) == if Trim(args[..at]) == "" || Trim(args[at + 1..]) == "" then None
        else Some((Trim(args[..at]), Trim(args[at + 1..])))
  {
    hide Unwrapped, Trim, SplitOnce, Lower, SeparatorAt;
    assert (args + ")")[..|args|] == args;
  }

  lemma MapArgumentsAreTrimmed(args: seq<ChType>)
    requires |args| > 1 && forall a | a in args :: WellFormed(a)
    ensures var at := |Print(args[0])|;
      && at < |PrintArgs(args)|
      && Trim(PrintArgs(args)[..at]) == Print(args[0]) != ""
      && Trim(PrintArgs(args)[at + 1..]) == PrintArgs(args[1..]) != ""
  {
    PrintArgsOfMany(args);
    PrintIsTight(args[0]);
    PrintArgsIsTight(args[1..]);
    hide Print, PrintArgs, WellFormed;
    TrimmedAround(Print(args[0]), PrintArgs(args[1..]));
  }

  lemma TrimmedAround(first: string, tail: string)
    requires IsTight(first) && IsTight(tail)
    ensures var all, at := first + (", " + tail), |first|;
      at < |all| && Trim(all[..at]) == first != "" && Trim(all[at + 1..]) == tail != ""
  {
    TightIsTrimmed(first);
    TightIsTrimmed(tail);
    hide Trim;
    var all := first + (", " + tail);
    assert all[..|first|] == first;
    assert all[|first| + 1..] == " " + tail;
  }

  // ----- The two scalar tables

  lemma {:induction false} ScalarOfPrinted(t: ChType)
    requires WellFormed(t)
    ensures ClickHouseScalar(Print(t)) == FamilyScalar(Lower(Core(t).name), Print(Core(t)))
  {
    PrintIsTight(t);
    TightIsTrimmed(Print(t));
    hide InnerType, Trim, IsTight, FamilyScalar, Lower;
    match t
    case Nullable(inner) =>
      NullableIsInside(Print(inner));
      ScalarOfPrinted(inner);
    case LowCardinality(inner) =>
      LowCardinalityIsInside(Print(inner));
      ScalarOfPrinted(inner);
    case Base(name, args) =>
      BaseIsUnwrapped(t);
      BaseSplits(t);
  }

  lemma PgOfPrinted(t: ChType)
    requires WellFormed(t)
    ensures TypeToPg(Print(t)) == FamilyToPg(Lower(Core(t).name))
  {
    PrintIsTight(t);
    TightIsTrimmed(Print(t));
    UnwrappedIsCore(t);
    BaseSplits(Core(t));
    hide Unwrapped, Trim, IsTight, FamilyToPg, Lower, SplitOnce, PrintArgs;
  }

  lemma PostgresNumberNames()
    ensures PostgresScalar("int2") == SmallInt && PostgresScalar("int4") == Int && PostgresScalar("int8") == BigInt
    ensures PostgresScalar("float4") == Float && PostgresScalar("float8") == Double
    ensures PostgresScalar("numeric") == Numeric
  {
  }

  lemma PostgresOtherNames()
    ensures PostgresScalar("bool") == Bool && PostgresScalar("uuid") == Uuid && PostgresScalar("json") == JsonType
    ensures PostgresScalar("timestamp") == Timestamp && PostgresScalar("date") == Date
    ensures PostgresScalar("text") == TextType
  {
  }

  lemma TablesAgree(family: string, native: string)
    ensures PostgresScalar(FamilyToPg(family)) == FamilyScalar(family, native) <==> family in SHARED_FAMILIES
  {
    PostgresNumberNames();
    PostgresOtherNames();
    hide PostgresScalar;
    if family in SHARED_FAMILIES {
      SharedTablesAgree(family, native);
    } else {
      hide FamilyToPg;
      assert FamilyScalar(family, native) == Other(native);
      UnsharedHasAScalar(family);
    }
  }

  lemma UnsharedHasAScalar(family: string)
    ensures !PostgresScalar(FamilyToPg(family)).Other?
  {
    PostgresNumberNames();
    PostgresOtherNames();
    hide PostgresScalar;
  }

  lemma SharedTablesAgree(family: string, native: string)
    requires family in SHARED_FAMILIES
    ensures PostgresScalar(FamilyToPg(family)) == FamilyScalar(family, native)
  {
    PostgresNumberNames();
    PostgresOtherNames();
    hide PostgresScalar;
  }

  /** Through the Postgres name or directly: the same scalar exactly on the families both tables know alike. */
  lemma ScalarTablesAgreeIffShared(t: ChType)
    requires WellFormed(t)
    ensures PostgresScalar(TypeToPg(Print(t))) == ClickHouseScalar(Print(t))
      <==> Lower(Core(t).name) in SHARED_FAMILIES
  {
    ScalarOfPrinted(t);
    PgOfPrinted(t);
    TablesAgree(Lower(Core(t).name), Print(Core(t)));
  }

  // ----- The two tables on any text

  /** Unwrapped with white space trimmed before every wrapper, not only before the first. */
  function Stripped(native: string): string
    decreases |native|
  {
    var trimmed := Trim(native);
    TrimShortens(native);
    if InnerType(trimmed, "Nullable").Some? then Stripped(InnerType(trimmed, "Nullable").value)
    else if InnerType(trimmed, "LowCardinality").Some? then Stripped(InnerType(trimmed, "LowCardinality").value)
    else trimmed
  }

  lemma {:induction false} ScalarOfStripped(native: string)
    ensures ClickHouseScalar(native) == FamilyScalar(Family(Stripped(native)), Stripped(native))
    decreases |native|
  {
    var trimmed := Trim(native);
    TrimShortens(native);
    hide InnerType, Trim, FamilyScalar, Family;
    if InnerType(trimmed, "Nullable").Some? {
      ScalarOfStripped(InnerType(trimmed, "Nullable").value);
    } else if InnerType(trimmed, "LowCardinality").Some? {
      ScalarOfStripped(InnerType(trimmed, "LowCardinality").value);
    }
  }

  predicate IsPgName(name: string) {
    name in {"int2", "int4", "int8", "float4", "float8", "numeric", "bool", "uuid", "json", "timestamp", "date", "text"}
  }

  lemma FamilyNamesPg(family: string)
    ensures IsPgName(FamilyToPg(family))
  {
  }

  lemma PgNamesDiffer(a: string, b: string)
    requires IsPgName(a) && IsPgName(b) && PostgresScalar(a) == PostgresScalar(b)
    ensures a == b
  {
    PostgresNumberNames();
    PostgresOtherNames();
    hide PostgresScalar;
  }

  /**
   * Whatever the text: the two tables agree exactly when the family inside all wrappers is one both know alike, and
   * the family left by trimming once only has the same Postgres name.
   */
  lemma ScalarTablesAgreeIff(native: string)
    ensures PostgresScalar(TypeToPg(native)) == ClickHouseScalar(native) <==>
      && Family(Stripped(native)) in SHARED_FAMILIES
      && FamilyToPg(Family(Unwrapped(Trim(native)))) == FamilyToPg(Family(Stripped(native)))
  {
    var once, always := Family(Unwrapped(Trim(native))), Family(Stripped(native));
    ScalarOfStripped(native);
    TablesAgree(always, Stripped(native));
    UnsharedHasAScalar(once);
    FamilyNamesPg(once);
    FamilyNamesPg(always);
    if always !in SHARED_FAMILIES {
      UnknownIsOther(always, Stripped(native));
    }
    hide *;
    if PostgresScalar(FamilyToPg(once)) == PostgresScalar(FamilyToPg(always)) {
      PgNamesDiffer(FamilyToPg(once), FamilyToPg(always));
    }
    TypeToPgUnfolds(native);
  }

  lemma TypeToPgUnfolds(native: string)
    ensures TypeToPg(native) == FamilyToPg(Family(Unwrapped(Trim(native))))
  {
    hide FamilyToPg, Family, Unwrapped, Trim;
  }

  lemma UnknownIsOther(family: string, native: string)
    requires family !in SHARED_FAMILIES
    ensures FamilyScalar(family, native) == Other(native)
  {
  }

  lemma NoWrapperWithoutParenthesis(s: string)
    requires '(' !in s
    ensures InnerType(s, "Nullable") == None && InnerType(s, "LowCardinality") == None && Family(s) == Lower(s)
  {
    SplitNowhere(s);
    WrapperNamesArePlain();
    hide InnerType, Lower, SplitOnce;
    OnlyNamedInner(s, "Nullable");
    OnlyNamedInner(s, "LowCardinality");
  }

  lemma WrapperNamesArePlain()
    ensures '(' !in "Nullable" && '(' !in "LowCardinality"
  {
  }

  lemma {:induction false} LowerKeepsPadding(s: string, i: nat)
    requires i < |s| && IsWhitespace(s[i])
    ensures Lower(s)[i] == s[i]
  {
    if i > 0 {
      LowerKeepsPadding(s[1..], i - 1);
    }
  }

  lemma PaddedIsUnknown(family: string)
    requires family != "" && (IsWhitespace(family[0]) || IsWhitespace(family[|family| - 1]))
    ensures FamilyToPg(family) == "text"
  {
  }

  /** Padding between a wrapper's parentheses goes unnoticed exactly by the types that are text anyway. */
  lemma PaddedWrapperAgreesIff(name: string, before: string, after: string)
    requires IsName(name) && Lower(name) in SHARED_FAMILIES && IsPadding(before) && IsPadding(after)
    ensures var native := "Nullable(" + (before + name + after) + ")";
      PostgresScalar(TypeToPg(native)) == ClickHouseScalar(native)
      <==> (before == "" && after == "") || FamilyToPg(Lower(name)) == "text"
  {
    var padded := before + name + after;
    var native := "Nullable(" + padded + ")";
    PaddedUnwraps(name, before, after);
    ScalarTablesAgreeIff(native);
    hide *;
    if before == "" && after == "" {
      assert padded == name;
    } else {
      PaddedFamily(name, before, after);
    }
  }

  lemma PaddedUnwraps(name: string, before: string, after: string)
    requires IsName(name) && IsPadding(before) && IsPadding(after)
    ensures var padded := before + name + after;
      var native := "Nullable(" + padded + ")";
      && Unwrapped(Trim(native)) == padded && Family(padded) == Lower(padded)
      && Stripped(native) == name && Family(name) == Lower(name)
  {
    var padded := before + name + after;
    var native := "Nullable(" + padded + ")";
    NameIsTight(name);
    PaddedHasNoParenthesis(name, before, after);
    WrappedIsTight(padded);
    hide IsTight;
    TightIsTrimmed(native);
    hide *;
    NullableIsInside(padded);
    TrimmedPadding(name, before, after);
    NoWrapperWithoutParenthesis(padded);
    NoWrapperWithoutParenthesis(name);
    UnwrapsOnce(native, padded, name);
  }

  lemma TrimmedPadding(name: string, before: string, after: string)
    requires IsTight(name) && IsPadding(before) && IsPadding(after)
    ensures Trim(before + name + after) == name
  {
    hide Trim, IsTight;
    TrimUnpads(before, name, after);
  }

  lemma PaddedHasNoParenthesis(name: string, before: string, after: string)
    requires '(' !in name && IsPadding(before) && IsPadding(after)
    ensures '(' !in before + name + after
  {
    assert !IsWhitespace('(');
    var padded := before + name + after;
    assert forall c | c in padded :: c in before || c in name || c in after;
  }

  lemma WrappedIsTight(inner: string)
    ensures IsTight("Nullable(" + inner + ")")
  {
    assert "Nullable("[0] == 'N';
  }

  lemma UnwrapsOnce(native: string, padded: string, name: string)
    requires Trim(native) == native && InnerType(native, "Nullable") == Some(padded) && Trim(padded) == name
    requires InnerType(padded, "Nullable") == None && InnerType(padded, "LowCardinality") == None
    requires InnerType(name, "Nullable") == None && InnerType(name, "LowCardinality") == None
    ensures Unwrapped(Trim(native)) == padded && Stripped(native) == name
  {
    hide Trim, InnerType;
    assert Stripped(padded) == name;
  }

  lemma PaddedFamily(name: string, before: string, after: string)
    requires IsPadding(before) && IsPadding(after) && !(before == "" && after == "")
    ensures FamilyToPg(Lower(before + name + after)) == "text"
  {
    var padded := before + name + after;
    if before != "" {
      assert before[0] in before;
      LowerKeepsPadding(padded, 0);
    } else {
      assert after[|after| - 1] in after;
      LowerKeepsPadding(padded, |padded| - 1);
    }
    hide Lower, FamilyToPg;
    PaddedIsUnknown(Lower(padded));
  }
}
