/** Bytes, Unicode scalar values and the UTF-8 encoding form (section 3 of RFC 3629). */
module Utf8 {
  import opened Wrappers

  type byte = b: int | 0 <= b < 256
  type Bytes = seq<byte>

  /** The one to four octets that encode one Unicode scalar value. */
  function EncodeChar(c: char): (b: Bytes)
    ensures 1 <= |b| <= 4
  {
    EncodeCodePoint(c as int)
  }

  function EncodeCodePoint(v: int): (b: Bytes)
    requires 0 <= v < 0x11_0000
    ensures 1 <= |b| <= 4
  {
    var v1 := v / 0x40;
    var v2 := v1 / 0x40;
    var v3 := v2 / 0x40;
    if v < 0x80 then [v]
    else if v < 0x800 then [0xC0 + v1, 0x80 + v % 0x40]
    else if v < 0x10000 then [0xE0 + v2, 0x80 + v1 % 0x40, 0x80 + v % 0x40]
    else [0xF0 + v3, 0x80 + v2 % 0x40, 0x80 + v1 % 0x40, 0x80 + v % 0x40]
  }

  function Encode(s: string): (b: Bytes)
  {
    if s == [] then [] else EncodeChar(s[0]) + Encode(s[1..])
  }

  /** `str::len`: the number of octets a text occupies. */
  function Length(s: string): nat { |Encode(s)| }

  predicate IsTail(b: byte) { 0x80 <= b <= 0xBF }

  /** Two to four octets read as base-64 digits below their marker bits. */
  function CodePoint2(b0: int, b1: int): int { (b0 - 0xC0) * 0x40 + (b1 - 0x80) }
  function CodePoint3(b0: int, b1: int, b2: int): int {
    CodePoint2(b0 - 0x20, b1) * 0x40 + (b2 - 0x80)
  }
  function CodePoint4(b0: int, b1: int, b2: int, b3: int): int {
    CodePoint3(b0 - 0x10, b1, b2) * 0x40 + (b3 - 0x80)
  }

  /** The code point spelled by the first octets of `b`, with the number of octets it takes. */
  function LeadingCodePoint(b: Bytes): (r: Option<(int, nat)>)
    ensures r.Some? ==> 1 <= r.value.1 <= 4 && r.value.1 <= |b|
  {
    if |b| == 0 then None
    else if b[0] < 0x80 then Some((b[0], 1))
    else if 0xC2 <= b[0] <= 0xDF && |b| >= 2 && IsTail(b[1]) then
      Some((CodePoint2(b[0], b[1]), 2))
    else if 0xE0 <= b[0] <= 0xEF && |b| >= 3 && IsTail(b[1]) && IsTail(b[2]) then
      Some((CodePoint3(b[0], b[1], b[2]), 3))
    else if 0xF0 <= b[0] <= 0xF4 && |b| >= 4 && IsTail(b[1]) && IsTail(b[2]) && IsTail(b[3]) then
      Some((CodePoint4(b[0], b[1], b[2], b[3]), 4))
    else None
  }

  /** Shortest form only, no surrogates, nothing above U+10FFFF. */
  predicate IsShortestScalar(v: int, width: nat) {
    && (0 <= v < 0xD800 || 0xE000 <= v < 0x11_0000)
    && (width == 2 ==> v >= 0x80)
    && (width == 3 ==> v >= 0x800)
    && (width == 4 ==> v >= 0x10000)
  }

  /** Strict decoding of the first character. */
  function DecodeOne(b: Bytes): (r: Option<(char, nat)>)
    ensures r.Some? ==> 1 <= r.value.1 <= 4 && r.value.1 <= |b|
  {
    match LeadingCodePoint(b)
    case None => None
    case Some((v, width)) => if IsShortestScalar(v, width) then Some((v as char, width)) else None
  }

  /** Strict decoding of a whole byte string. */
  function Decode(b: Bytes): (r: Option<string>)
  {
    if |b| == 0 then Some("")
    else match DecodeOne(b)
      case None => None
      case Some((c, width)) =>
        match Decode(b[width..])
        case None => None
        case Some(rest) => Some([c] + rest)
  }

  predicate Valid(b: Bytes) { Decode(b).Some? }

  lemma CodePointOfEncoding(v: int)
    requires 0 <= v < 0xD800 || 0xE000 <= v < 0x11_0000
    ensures var e := EncodeCodePoint(v);
      && LeadingCodePoint(e) == Some((v, |e|))
      && IsShortestScalar(v, |e|)
  {
    var v1 := v / 0x40;
    var v2 := v1 / 0x40;
    assert v == v1 * 0x40 + v % 0x40 && v1 == v2 * 0x40 + v1 % 0x40;
    assert v2 == v2 / 0x40 * 0x40 + v2 % 0x40;
  }

  lemma LeadingIgnoresRest(e: Bytes, rest: Bytes)
    requires LeadingCodePoint(e).Some? && |e| == LeadingCodePoint(e).value.1
    ensures LeadingCodePoint(e + rest) == LeadingCodePoint(e)
  {
    assert forall i | 0 <= i < |e| :: (e + rest)[i] == e[i];
  }

  lemma DecodeOneInvertsEncodeChar(c: char, rest: Bytes)
    ensures DecodeOne(EncodeChar(c) + rest) == Some((c, |EncodeChar(c)|))
  {
    CodePointOfEncoding(c as int);
    LeadingIgnoresRest(EncodeChar(c), rest);
  }

  /** Base-64 digits are determined by their value. */
  lemma DigitsOf(v: int, high: int, low: int)
    requires 0 <= low < 0x40 && v == high * 0x40 + low
    ensures v / 0x40 == high && v % 0x40 == low
  {
  }

  lemma EncodeInverts2(b0: int, b1: int)
    requires 0xC2 <= b0 <= 0xDF && 0x80 <= b1 <= 0xBF
    ensures var v := CodePoint2(b0, b1);
      0x80 <= v < 0x800 && EncodeCodePoint(v) == [b0, b1]
  {
    DigitsOf(CodePoint2(b0, b1), b0 - 0xC0, b1 - 0x80);
  }

  lemma EncodeInverts3(b0: int, b1: int, b2: int)
    requires 0xE0 <= b0 <= 0xEF && 0x80 <= b1 <= 0xBF && 0x80 <= b2 <= 0xBF
    requires CodePoint3(b0, b1, b2) >= 0x800
    ensures CodePoint3(b0, b1, b2) < 0x10000 && EncodeCodePoint(CodePoint3(b0, b1, b2)) == [b0, b1, b2]
  {
    var v, v1 := CodePoint3(b0, b1, b2), CodePoint2(b0 - 0x20, b1);
    assert v < 0x10000;
    assert v / 0x40 == v1 && v % 0x40 == b2 - 0x80 by {
      DigitsOf(v, v1, b2 - 0x80);
    }
    assert v1 / 0x40 == b0 - 0xE0 && v1 % 0x40 == b1 - 0x80 by {
      DigitsOf(v1, b0 - 0xE0, b1 - 0x80);
    }
  }

  lemma EncodeInverts4(b0: int, b1: int, b2: int, b3: int)
    requires 0xF0 <= b0 <= 0xF4 && 0x80 <= b1 <= 0xBF && 0x80 <= b2 <= 0xBF && 0x80 <= b3 <= 0xBF
    requires 0x10000 <= CodePoint4(b0, b1, b2, b3) < 0x11_0000
    ensures EncodeCodePoint(CodePoint4(b0, b1, b2, b3)) == [b0, b1, b2, b3]
  {
    var v, v1, v2 := CodePoint4(b0, b1, b2, b3), CodePoint3(b0 - 0x10, b1, b2), CodePoint2(b0 - 0x30, b1);
    assert v / 0x40 == v1 && v % 0x40 == b3 - 0x80 by {
      DigitsOf(v, v1, b3 - 0x80);
    }
    assert v1 / 0x40 == v2 && v1 % 0x40 == b2 - 0x80 by {
      DigitsOf(v1, v2, b2 - 0x80);
    }
    assert v2 / 0x40 == b0 - 0xF0 && v2 % 0x40 == b1 - 0x80 by {
      DigitsOf(v2, b0 - 0xF0, b1 - 0x80);
    }
  }

  lemma EncodeCharInvertsDecodeOne(b: Bytes)
    requires DecodeOne(b).Some?
    ensures var (c, width) := DecodeOne(b).value; EncodeChar(c) == b[..width]
  {
    var (v, width) := LeadingCodePoint(b).value;
    if width == 2 {
      EncodeInverts2(b[0], b[1]);
    } else if width == 3 {
      EncodeInverts3(b[0], b[1], b[2]);
    } else if width == 4 {
      EncodeInverts4(b[0], b[1], b[2], b[3]);
    }
  }

  lemma {:induction false} DecodeInvertsEncode(s: string)
    ensures Decode(Encode(s)) == Some(s)
  {
    if s != [] {
      DecodeOneInvertsEncodeChar(s[0], Encode(s[1..]));
      assert Encode(s)[|EncodeChar(s[0])|..] == Encode(s[1..]);
      DecodeInvertsEncode(s[1..]);
      assert [s[0]] + s[1..] == s;
    }
  }

  /** A byte string is valid UTF-8 exactly when it is the encoding of some text, and of only one. */
  lemma {:induction false} ValidIffEncoding(b: Bytes)
    ensures Valid(b) ==> Encode(Decode(b).value) == b
    ensures (exists s: string :: Encode(s) == b) ==> Valid(b)
  {
    forall s: string | Encode(s) == b ensures Valid(b) {
      DecodeInvertsEncode(s);
    }
    if Valid(b) && |b| > 0 {
      var (c, width) := DecodeOne(b).value;
      EncodeCharInvertsDecodeOne(b);
      ValidIffEncoding(b[width..]);
      var text := Decode(b).value;
      assert text[0] == c && text[1..] == Decode(b[width..]).value;
      assert b == b[..width] + b[width..];
    }
  }

  lemma {:induction false} EncodeConcat(s: string, t: string)
    ensures Encode(s + t) == Encode(s) + Encode(t)
  {
    if s == [] {
      assert s + t == t;
    } else {
      assert (s + t)[1..] == s[1..] + t;
      EncodeConcat(s[1..], t);
    }
  }

  lemma HighCharactersAreHigh(c: char)
    ensures if c as int < 0x80 then EncodeChar(c) == [c as int] else forall b | b in EncodeChar(c) :: b >= 0x80
  {
  }

  predicate IsAscii(s: string) { forall c | c in s :: c as int < 0x80 }

  /** Octets below 0x80 are the characters themselves, and nothing else is encoded with them. */
  lemma {:induction false} AsciiIff(s: string)
    ensures IsAscii(s) <==> forall b | b in Encode(s) :: b < 0x80
    ensures IsAscii(s) ==> |Encode(s)| == |s| && forall i | 0 <= i < |s| :: Encode(s)[i] == s[i] as int
  {
    if s != [] {
      AsciiIff(s[1..]);
      HighCharactersAreHigh(s[0]);
      assert s == [s[0]] + s[1..];
      var first := EncodeChar(s[0]);
      assert first[0] in first && first[0] in Encode(s);
      assert s[0] in s && forall c | c in s[1..] :: c in s;
      if IsAscii(s) {
        assert Encode(s) == [s[0] as int] + Encode(s[1..]);
      } else if s[0] as int < 0x80 {
        var b :| b in Encode(s[1..]) && b >= 0x80;
        assert b in Encode(s);
      }
    }
  }
}
