/** Failure messages and bounded strings: text with no control character. */
module SafeMessage {
  import opened Wrappers
  import opened Utf8
  import opened Abi
  import opened FixedText
  import Ids

  const MAXIMUM_SAFE_MESSAGE_BYTES: nat := 1024

  /** General category Cc, the characters `char::is_control` reports. */
  predicate IsControl(c: char) {
    c as int <= 0x1F || 0x7F <= c as int <= 0x9F
  }

  ghost predicate HasControl(text: string) {
    exists c | c in text :: IsControl(c)
  }

  /** The octet test of the byte scan, with its one octet of lookahead. */
  predicate ControlAt(source: Bytes, index: nat)
    requires index < |source|
  {
    || source[index] <= 0x1F
    || source[index] == 0x7F
    || (source[index] == 0xC2 && index + 1 < |source| && 0x80 <= source[index + 1] <= 0x9F)
  }

  ghost predicate HasControlOctets(source: Bytes) {
    exists index | 0 <= index < |source| :: ControlAt(source, index)
  }

  method ValidateSafeMessageBytes(source: Bytes) returns (r: Verdict<AbiError>)
    ensures r.Accept? <==> 1 <= |source| <= MAXIMUM_SAFE_MESSAGE_BYTES && !HasControlOctets(source)
    ensures |source| > MAXIMUM_SAFE_MESSAGE_BYTES ==> r == Reject(LimitExceeded)
  {
    if |source| == 0 {
      return Reject(InvalidValue);
    }
    if |source| > MAXIMUM_SAFE_MESSAGE_BYTES {
      return Reject(LimitExceeded);
    }
    var index := 0;
    while index < |source|
      invariant index <= |source|
      invariant forall i | 0 <= i < index :: !ControlAt(source, i)
    {
      if ControlAt(source, index) {
        return Reject(InvalidValue);
      }
      index := index + 1;
    }
    return Accept;
  }

  /** The octets of one character trip the scan exactly when it is a control, whatever follows. */
  lemma ControlAtInsideCharacter(c: char, rest: Bytes)
    ensures (exists i | 0 <= i < |EncodeChar(c)| :: ControlAt(EncodeChar(c) + rest, i)) <==> IsControl(c)
  {
    var b := EncodeChar(c) + rest;
    assert forall i | 0 <= i < |EncodeChar(c)| :: b[i] == EncodeChar(c)[i];
    if IsControl(c) {
      assert ControlAt(b, 0);
    }
  }

  /** The byte scan of valid UTF-8 agrees with the scan of its characters. */
  lemma {:induction false} ByteScanAgreesWithCharacters(text: string)
    ensures HasControlOctets(Encode(text)) <==> HasControl(text)
  {
    if text != [] {
      var head, rest := EncodeChar(text[0]), Encode(text[1..]);
      var all := Encode(text);
      ControlAtInsideCharacter(text[0], rest);
      ByteScanAgreesWithCharacters(text[1..]);
      assert text == [text[0]] + text[1..];
      assert forall i | 0 <= i < |rest| :: ControlAt(all, |head| + i) <==> ControlAt(rest, i);
      if HasControlOctets(rest) {
        var i :| 0 <= i < |rest| && ControlAt(rest, i);
        assert ControlAt(all, |head| + i);
      }
      if HasControlOctets(all) {
        var i :| 0 <= i < |all| && ControlAt(all, i);
        if i >= |head| {
          assert ControlAt(rest, i - |head|);
        }
      }
    }
  }

  type StaticSafeMessage = Buffer

  method TryCopy(value: string) returns (r: Result<StaticSafeMessage, AbiError>)
    ensures r.Ok? <==> 1 <= Length(value) <= MAXIMUM_SAFE_MESSAGE_BYTES && !HasControl(value)
    ensures r.Ok? ==> Holds(r.value, Encode(value), MAXIMUM_SAFE_MESSAGE_BYTES)
    ensures r.Ok? ==> Ids.AsText(r.value) == Some(value)
  {
    var source := Encode(value);
    ByteScanAgreesWithCharacters(value);
    var verdict := ValidateSafeMessageBytes(source);
    if verdict.Reject? {
      return Err(verdict.error);
    }
    var bytes := new byte[MAXIMUM_SAFE_MESSAGE_BYTES](_ => 0);
    var index := 0;
    while index < |source|
      invariant index <= |source|
      invariant bytes[..index] == source[..index]
      invariant forall i | index <= i < MAXIMUM_SAFE_MESSAGE_BYTES :: bytes[i] == 0
    {
      bytes[index] := source[index];
      index := index + 1;
    }
    assert bytes[..][..|source|] == source;
    var message := Buffer(|source| % 0x1_0000, bytes[..]);
    Ids.HeldTextReadsBack(message, value, MAXIMUM_SAFE_MESSAGE_BYTES);
    r := Ok(message);
  }

  /** A text known to fit its declared bound and to hold no control character. */
  datatype BoundedString = BoundedString(text: string)

  method TryNewBoundedString(value: string, maximumBytes: nat) returns (r: Result<BoundedString, AbiError>)
    ensures r.Ok? <==> Length(value) <= maximumBytes <= MAXIMUM_SAFE_STRING_BYTES && !HasControl(value)
    ensures r.Ok? ==> r.value.text == value
  {
    if maximumBytes > MAXIMUM_SAFE_STRING_BYTES {
      return Err(LimitExceeded);
    }
    if Length(value) > maximumBytes {
      return Err(LimitExceeded);
    }
    if exists i | 0 <= i < |value| :: IsControl(value[i]) {
      return Err(InvalidValue);
    }
    return Ok(BoundedString(value));
  }
}
