/** The Postgres names ClickHouse columns are catalogued under, and which of them hold every value. */
module ClickHouseNames {
  import opened Wrappers
  import opened Text
  import opened ClickHouseTypes

  /** A family outside the shared ones is a wide integer, a container, or catalogued as text. */
  lemma UnsharedNames(t: ChType)
    requires WellFormed(t) && Lower(Core(t).name) !in SHARED_FAMILIES
    ensures var family := Lower(Core(t).name);
      var name := TypeToPg(Print(t));
      && (name == "int8" <==> family in {"int128", "uint128", "int256", "uint256"})
      && (name == "json" <==> family in {"object", "map", "tuple", "array"})
      && (name == "text" || name == "int8" || name == "json")
  {
    PgOfPrinted(t);
    hide *;
    UnsharedFamilyNames(Lower(Core(t).name));
  }

  lemma UnsharedFamilyNames(family: string)
    requires family !in SHARED_FAMILIES
    ensures FamilyToPg(family) == "int8" <==> family in {"int128", "uint128", "int256", "uint256"}
    ensures FamilyToPg(family) == "json" <==> family in {"object", "map", "tuple", "array"}
    ensures FamilyToPg(family) in {"int8", "json", "text"}
  {
  }

  /** The name a scalar is written back under. */
  function CanonicalName(t: ScalarType): string {
    match t
    case SmallInt => "int2"
    case Int => "int4"
    case BigInt => "int8"
    case Float => "float4"
    case Double => "float8"
    case Numeric => "numeric"
    case Bool => "bool"
    case TextType => "text"
    case Uuid => "uuid"
    case JsonType => "json"
    case Jsonb => "jsonb"
    case Timestamp => "timestamp"
    case TimestampTz => "timestamptz"
    case Date => "date"
    case Time => "time"
    case BytesType => "bytea"
    case Geometry => "geometry"
    case Geography => "geography"
    case Other(native) => native
  }

  /** Reading a Postgres name loses nothing but the spelling of the text types. */
  lemma PostgresNameIsKept(name: string)
    ensures CanonicalName(PostgresScalar(name)) == if name in {"varchar", "bpchar"} then "text" else name
  {
  }

  // ----- Letter case

  predicate SameLetter(a: char, b: char) {
    || a == b
    || ('A' <= a <= 'Z' && b as int - 'a' as int == a as int - 'A' as int)
    || ('A' <= b <= 'Z' && a as int - 'a' as int == b as int - 'A' as int)
  }

  /** Two texts differ in nothing but the case of ASCII letters. */
  predicate SameButCase(a: string, b: string) { |a| == |b| && forall i | 0 <= i < |a| :: SameLetter(a[i], b[i]) }

  lemma {:induction false} LowerIff(a: string, b: string)
    ensures Lower(a) == Lower(b) <==> SameButCase(a, b)
  {
    if a != "" && b != "" {
      LowerIff(a[1..], b[1..]);
      assert Lower(a) == Lower(b) ==> Lower(a)[1..] == Lower(b)[1..];
      assert SameLetter(a[0], b[0]) <==> LowerChar(a[0]) == LowerChar(b[0]);
      assert forall i | 0 < i < |a| :: a[i] == a[1..][i - 1];
      assert forall i | 0 < i < |b| :: b[i] == b[1..][i - 1];
      assert forall j | 0 <= j < |a[1..]| :: a[1..][j] == a[j + 1];
      assert forall j | 0 <= j < |b[1..]| :: b[1..][j] == b[j + 1];
    }
  }

  /** The case of a type's name is never seen, whatever the wrappers and the arguments. */
  lemma CaseIsIgnored(t: ChType, u: ChType)
    requires WellFormed(t) && WellFormed(u) && SameButCase(Core(t).name, Core(u).name)
    ensures TypeToPg(Print(t)) == TypeToPg(Print(u))
    ensures ClickHouseScalar(Print(t)) == ClickHouseScalar(Print(u)) || ClickHouseScalar(Print(t)).Other?
  {
    PgOfPrinted(t);
    PgOfPrinted(u);
    ScalarOfPrinted(t);
    ScalarOfPrinted(u);
    LowerIff(Core(t).name, Core(u).name);
    hide Core, Print, TypeToPg, ClickHouseScalar, Lower, SameButCase, WellFormed;
    UnknownIsItself(Lower(Core(t).name), Print(Core(t)), Print(Core(u)));
  }

  lemma UnknownIsItself(family: string, a: string, b: string)
    ensures FamilyScalar(family, a) == FamilyScalar(family, b) || FamilyScalar(family, a) == Other(a)
  {
  }

  // ----- Integers

  datatype Width = Width(signed: bool, bits: nat)

  /** The integer families, named after their width. */
  function IntegerWidth(family: string): Option<Width> {
    match family
    case "int8" => Some(Width(true, 8))
    case "int16" => Some(Width(true, 16))
    case "int32" => Some(Width(true, 32))
    case "int64" => Some(Width(true, 64))
    case "int128" => Some(Width(true, 128))
    case "int256" => Some(Width(true, 256))
    case "uint8" => Some(Width(false, 8))
    case "uint16" => Some(Width(false, 16))
    case "uint32" => Some(Width(false, 32))
    case "uint64" => Some(Width(false, 64))
    case "uint128" => Some(Width(false, 128))
    case "uint256" => Some(Width(false, 256))
    case _ => None
  }

  /** The integers of Postgres are signed and named after their width in bytes. */
  function PostgresBits(name: string): Option<nat> {
    match name
    case "int2" => Some(16)
    case "int4" => Some(32)
    case "int8" => Some(64)
    case _ => None
  }

  function PowerOfTwo(n: nat): (r: nat)
    ensures r > 0
  {
    if n == 0 then 1 else 2 * PowerOfTwo(n - 1)
  }

  predicate IsValueOf(v: int, width: Width)
    requires width.bits > 0
  {
    if width.signed then 0 - PowerOfTwo(width.bits - 1) <= v < PowerOfTwo(width.bits - 1)
    else 0 <= v < PowerOfTwo(width.bits)
  }

  lemma {:induction false} PowersGrow(m: nat, n: nat)
    requires m < n
    ensures PowerOfTwo(m) < PowerOfTwo(n)
  {
    if m < n - 1 {
      PowersGrow(m, n - 1);
    }
  }

  lemma WidthFitsIff(width: Width, bits: nat)
    requires width.bits > 0 && bits > 0
    ensures (forall v | IsValueOf(v, width) :: IsValueOf(v, Width(true, bits)))
      <==> (if width.signed then width.bits <= bits else width.bits < bits)
  {
    var m, n := if width.signed then width.bits - 1 else width.bits, bits - 1;
    if m < n {
      PowersGrow(m, n);
    } else if n < m {
      PowersGrow(n, m);
      assert IsValueOf(PowerOfTwo(n), width) && !IsValueOf(PowerOfTwo(n), Width(true, bits));
    }
    if m <= n {
      forall v | IsValueOf(v, width) ensures IsValueOf(v, Width(true, bits)) {}
    }
  }

  lemma NarrowIntegers(family: string)
    requires family in {"int8", "int16", "uint8", "uint16", "int32", "uint32"}
    ensures FamilyToPg(family) == if family in {"int32", "uint32"} then "int4" else "int2"
  {
  }

  lemma WideIntegers(family: string)
    requires family in {"int64", "uint64", "int128", "uint128", "int256", "uint256"}
    ensures FamilyToPg(family) == "int8"
  {
  }

  lemma Widths(family: string)
    requires IntegerWidth(family).Some?
    ensures IntegerWidth(family).value.bits <= 32
      <==> family in {"int8", "int16", "uint8", "uint16", "int32", "uint32"}
    ensures IntegerWidth(family).value.bits > 32
      <==> family in {"int64", "uint64", "int128", "uint128", "int256", "uint256"}
    ensures IntegerWidth(family).value.bits == 32 <==> family in {"int32", "uint32"}
    ensures IntegerWidth(family).value.bits in {8, 16, 32, 64, 128, 256}
  {
  }

  lemma PostgresWidths()
    ensures PostgresBits("int2") == Some(16) && PostgresBits("int4") == Some(32) && PostgresBits("int8") == Some(64)
  {
  }

  lemma CataloguedBits(family: string)
    requires IntegerWidth(family).Some?
    ensures var width := IntegerWidth(family).value;
      && width.bits >= 8
      && PostgresBits(FamilyToPg(family)) == Some(if width.bits <= 16 then 16 else if width.bits <= 32 then 32 else 64)
  {
    hide *;
    Widths(family);
    PostgresWidths();
    if IntegerWidth(family).value.bits <= 32 {
      NarrowIntegers(family);
    } else {
      WideIntegers(family);
    }
  }

  lemma FittingWidths(family: string)
    requires IntegerWidth(family).Some?
    ensures var width := IntegerWidth(family).value;
      var bits := if width.bits <= 16 then 16 else if width.bits <= 32 then 32 else 64;
      (if width.signed then width.bits <= bits else width.bits < bits)
      <==> family in {"int8", "int16", "int32", "int64", "uint8"}
  {
  }

  lemma FamilyFitsIff(family: string)
    requires IntegerWidth(family).Some?
    ensures var width := IntegerWidth(family).value;
      var bits := PostgresBits(FamilyToPg(family));
      && width.bits > 0 && bits.Some? && bits.value > 0
      && ((forall v | IsValueOf(v, width) :: IsValueOf(v, Width(true, bits.value)))
          <==> family in {"int8", "int16", "int32", "int64", "uint8"})
  {
    CataloguedBits(family);
    FittingWidths(family);
    hide *;
    var width := IntegerWidth(family).value;
    WidthFitsIff(width, if width.bits <= 16 then 16 else if width.bits <= 32 then 32 else 64);
  }

  /** An integer column is catalogued as an integer, which holds all its values except for seven families. */
  lemma IntegersFitIff(t: ChType)
    requires WellFormed(t) && IntegerWidth(Lower(Core(t).name)).Some?
    ensures var width := IntegerWidth(Lower(Core(t).name)).value;
      var bits := PostgresBits(TypeToPg(Print(t)));
      && width.bits > 0 && bits.Some? && bits.value > 0
      && ((forall v | IsValueOf(v, width) :: IsValueOf(v, Width(true, bits.value)))
          <==> Lower(Core(t).name) in {"int8", "int16", "int32", "int64", "uint8"})
  {
    hide *;
    PgOfPrinted(t);
    FamilyFitsIff(Lower(Core(t).name));
  }
}
