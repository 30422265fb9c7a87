/** Connector ABI identifiers: validated ASCII text in a 96-octet buffer. */
module Ids {
  import opened Wrappers
  import opened Utf8
  import opened Abi
  import opened FixedText

  const ABI_ID_CAPACITY: nat := 96

  type InlineId = Buffer

  predicate IsAlphanumeric(b: byte) {
    'a' as int <= b <= 'z' as int || '0' as int <= b <= '9' as int
  }

  predicate IsSeparator(b: byte) {
    b == '.' as int || b == '-' as int || b == '_' as int
  }

  /** The declarative form of the identifier rule, as the catalog spells it. */
  predicate ValidCatalogId(value: Bytes) {
    && 1 <= |value| <= 96
    && (forall b | b in value :: b < 0x80)
    && (forall b | b in value :: IsAlphanumeric(b) || IsSeparator(b))
    && IsAlphanumeric(value[0])
    && IsAlphanumeric(value[|value| - 1])
  }

  /** The looping form used for ABI literals decides the same rule. */
  method ValidId(value: Bytes) returns (valid: bool)
    ensures valid <==> ValidCatalogId(value)
  {
    if |value| == 0 || |value| > ABI_ID_CAPACITY {
      return false;
    }
    var index := 0;
    while index < |value|
      invariant index <= |value|
      invariant forall i | 0 <= i < index :: IsAlphanumeric(value[i]) || IsSeparator(value[i])
      invariant index > 0 ==> IsAlphanumeric(value[0])
      invariant index == |value| ==> IsAlphanumeric(value[|value| - 1])
    {
      var octet := value[index];
      if !IsAlphanumeric(octet) && !IsSeparator(octet) {
        return false;
      }
      if (index == 0 || index + 1 == |value|) && !IsAlphanumeric(octet) {
        return false;
      }
      index := index + 1;
    }
    return true;
  }

  method CopyBytes(source: Bytes) returns (id: InlineId)
    requires |source| <= ABI_ID_CAPACITY
    ensures Holds(id, source, ABI_ID_CAPACITY)
  {
    var bytes := new byte[ABI_ID_CAPACITY](_ => 0);
    var index := 0;
    while index < |source|
      invariant index <= |source|
      invariant bytes[..index] == source[..index]
      invariant forall i | index <= i < ABI_ID_CAPACITY :: bytes[i] == 0
    {
      bytes[index] := source[index];
      index := index + 1;
    }
    assert bytes[..][..|source|] == source;
    id := Buffer(|source| % 0x100, bytes[..]);
  }

  method Parse(value: string) returns (r: Result<InlineId, AbiError>)
    ensures r.Ok? <==> ValidCatalogId(Encode(value))
    ensures r.Ok? ==> Holds(r.value, Encode(value), ABI_ID_CAPACITY)
    ensures r.Err? ==> r.error == InvalidId
  {
    var bytes := Encode(value);
    var valid := ValidId(bytes);
    if valid {
      var id := CopyBytes(bytes);
      r := Ok(id);
    } else {
      r := Err(InvalidId);
    }
  }

  /** The text of an identifier; the unwrapping of the UTF-8 check in the source is `None` here. */
  function AsText(id: Buffer): (r: Option<string>)
  {
    if id.len > |id.bytes| then None else Decode(id.bytes[..id.len])
  }

  lemma HeldTextReadsBack(id: Buffer, value: string, capacity: nat)
    requires Holds(id, Encode(value), capacity)
    ensures AsText(id) == Some(value)
  {
    DecodeInvertsEncode(value);
  }

  /** What every identifier in the model is: the buffer of some valid text. */
  ghost predicate IsId(id: InlineId) {
    exists text: string :: ValidCatalogId(Encode(text)) && Holds(id, Encode(text), ABI_ID_CAPACITY)
  }

  /** Comparing identifiers and comparing their texts is the same test. */
  lemma SameIdIffSameText(a: InlineId, b: InlineId)
    requires IsId(a) && IsId(b)
    ensures AsText(a).Some? && AsText(b).Some?
    ensures a == b <==> AsText(a) == AsText(b)
    ensures Compare(a, b) == ShortLex(Encode(AsText(a).value), Encode(AsText(b).value))
    ensures Compare(a, b) == Less <==> ComesBefore(Encode(AsText(a).value), Encode(AsText(b).value))
  {
    var s: string :| ValidCatalogId(Encode(s)) && Holds(a, Encode(s), ABI_ID_CAPACITY);
    var t: string :| ValidCatalogId(Encode(t)) && Holds(b, Encode(t), ABI_ID_CAPACITY);
    HeldTextReadsBack(a, s, ABI_ID_CAPACITY);
    HeldTextReadsBack(b, t, ABI_ID_CAPACITY);
    BuffersCompareAsTexts(a, b, Encode(s), Encode(t), ABI_ID_CAPACITY);
  }
}
