/** Headers, bindings, responses and failures crossing the connector boundary. */
module Envelope {
  import opened Wrappers
  import opened Collections
  import opened Utf8
  import opened Abi
  import opened SafeMessage
  import opened TypedValues

  const MAXIMUM_BINDING_SLOTS: nat := 64
  const MAXIMUM_SELECTED_HEADERS: nat := 64
  const MAXIMUM_HEADER_VALUE_BYTES: nat := 8192
  const MAXIMUM_RETAINED_HEADER_BYTES: nat := 32768
  const MAXIMUM_TRANSPORT_RESPONSE_BYTES: nat := 1048576
  const MAXIMUM_CANONICAL_OUTPUT_BYTES: nat := 262144
  const MAXIMUM_RETRY_AFTER_SECONDS: nat := 86400
  const MAXIMUM_CORRELATION_IDS: nat := 64

  /** Capability and slot identifiers are known here by their text; module `Ids` relates the two. */
  type Id = string

  /** An ordered map, listed in key order. */
  datatype Entry<V> = Entry(key: Id, value: V)

  function KeysOf<V>(entries: seq<Entry<V>>): (r: seq<Id>)
    ensures |r| == |entries|
  {
    seq(|entries|, i requires 0 <= i < |entries| => entries[i].key)
  }

  function Lookup<V>(entries: seq<Entry<V>>, key: Id): (r: Option<V>)
    ensures r.Some? ==> Entry(key, r.value) in entries
    ensures r.None? ==> forall e | e in entries :: e.key != key
  {
    if entries == [] then None
    else if entries[0].key == key then Some(entries[0].value)
    else Lookup(entries[1..], key)
  }

  function Sum(weights: seq<nat>): nat {
    if weights == [] then 0 else weights[0] + Sum(weights[1..])
  }

  lemma {:induction false} SumPrefix(weights: seq<nat>, i: nat)
    requires i < |weights|
    ensures Sum(weights[..i + 1]) == Sum(weights[..i]) + weights[i]
    ensures Sum(weights[..i]) + weights[i] <= Sum(weights)
  {
    if i > 0 {
      SumPrefix(weights[1..], i - 1);
      assert weights[1..][..i - 1] == weights[..i][1..] && weights[1..][..i] == weights[..i + 1][1..];
    } else {
      assert weights[..1][1..] == [];
    }
  }

  // ----- Headers

  type Headers = seq<Entry<BoundedString>>

  function HeaderWeights(headers: Headers): seq<nat> {
    seq(|headers|, i requires 0 <= i < |headers| => Length(headers[i].key) + Length(headers[i].value.text))
  }

  ghost predicate HeadersFit(headers: Headers, maximumEntries: nat) {
    && |headers| <= maximumEntries
    && (forall h | h in headers :: Length(h.value.text) <= MAXIMUM_HEADER_VALUE_BYTES)
    && Sum(HeaderWeights(headers)) <= MAXIMUM_RETAINED_HEADER_BYTES
  }

  /** What the identifier and bounded-string constructors have already ensured of each entry. */
  ghost predicate Constructed(headers: Headers) {
    forall h | h in headers ::
      Length(h.key) <= 96 && Length(h.value.text) <= MAXIMUM_SAFE_STRING_BYTES
  }

  method ValidateHeaders(headers: Headers, maximumEntries: nat) returns (r: Verdict<AbiError>)
    requires Constructed(headers)
    ensures r.Accept? <==> HeadersFit(headers, maximumEntries)
    ensures r.Reject? ==> r.error == LimitExceeded
  {
    if |headers| > maximumEntries {
      return Reject(LimitExceeded);
    }
    var aggregate: nat := 0;
    ghost var weights := HeaderWeights(headers);
    for i := 0 to |headers|
      invariant aggregate == Sum(weights[..i]) <= MAXIMUM_RETAINED_HEADER_BYTES
      invariant forall k | 0 <= k < i :: Length(headers[k].value.text) <= MAXIMUM_HEADER_VALUE_BYTES
    {
      var Entry(name, value) := headers[i];
      assert headers[i] in headers;
      if Length(value.text) > MAXIMUM_HEADER_VALUE_BYTES {
        return Reject(LimitExceeded);
      }
      SumPrefix(weights, i);
      var withName := CheckedAdd(aggregate, Length(name));
      if withName.None? {
        return Reject(SizeOverflow);
      }
      var withValue := CheckedAdd(withName.value, Length(value.text));
      if withValue.None? {
        return Reject(SizeOverflow);
      }
      aggregate := withValue.value;
      if aggregate > MAXIMUM_RETAINED_HEADER_BYTES {
        return Reject(LimitExceeded);
      }
    }
    assert weights[..|headers|] == weights;
    return Accept;
  }

  // ----- Bindings

  /** The canonical size of a value, where it has one; its computation is not part of this model. */
  type Sizing = TypedValue -> Option<nat>

  type Slots = seq<Entry<TypedValue>>

  function SlotValues(slots: Slots): seq<TypedValue> {
    seq(|slots|, i requires 0 <= i < |slots| => slots[i].value)
  }

  function SizeOrZero(size: Sizing, value: TypedValue): nat {
    match size(value)
    case Some(bytes) => bytes
    case None => 0
  }

  function SlotSizes(slots: Slots, size: Sizing): seq<nat> {
    seq(|slots|, i requires 0 <= i < |slots| => SizeOrZero(size, slots[i].value))
  }

  ghost predicate BindingsFit(slots: Slots, size: Sizing) {
    && |slots| <= MAXIMUM_BINDING_SLOTS
    && RootsConform(SlotValues(slots))
    && (forall i | 0 <= i < |slots| :: size(slots[i].value).Some?)
    && Sum(SlotSizes(slots, size)) <= MAXIMUM_CANONICAL_OUTPUT_BYTES
  }

  method TryNewTypedBindings(slots: Slots, size: Sizing) returns (r: Result<Slots, AbiError>)
    ensures r.Ok? <==> BindingsFit(slots, size)
    ensures r.Ok? ==> r.value == slots
  {
    if |slots| > MAXIMUM_BINDING_SLOTS {
      return Err(LimitExceeded);
    }
    var roots := ValidateTypedValueRoots(SlotValues(slots));
    if roots.Reject? {
      return Err(roots.error);
    }
    var canonicalBytes: nat := 0;
    ghost var sizes := SlotSizes(slots, size);
    for i := 0 to |slots|
      invariant canonicalBytes == Sum(sizes[..i]) <= MAXIMUM_CANONICAL_OUTPUT_BYTES
      invariant forall k | 0 <= k < i :: size(slots[k].value).Some?
    {
      var valueBytes := size(slots[i].value);
      if valueBytes.None? {
        return Err(LimitExceeded);
      }
      SumPrefix(sizes, i);
      var sum := CheckedAdd(canonicalBytes, valueBytes.value);
      if sum.None? {
        return Err(SizeOverflow);
      }
      canonicalBytes := sum.value;
      if canonicalBytes > MAXIMUM_CANONICAL_OUTPUT_BYTES {
        return Err(LimitExceeded);
      }
    }
    assert sizes[..|slots|] == sizes;
    return Ok(slots);
  }

  // ----- Responses and the correlations they authorize

  type Correlations = map<Id, BoundedString>

  ghost predicate MayAuthorize(headers: Headers, allowed: seq<Id>) {
    HeadersFit(headers, MAXIMUM_SELECTED_HEADERS) && |allowed| <= MAXIMUM_CORRELATION_IDS && Distinct(allowed)
  }

  /** Exactly the selected headers, under exactly the allowed names. */
  ghost predicate AreSelectedAndAllowed(values: Correlations, headers: Headers, allowed: seq<Id>) {
    && (forall id | id in values :: id in allowed && Entry(id, values[id]) in headers)
    && (forall h | h in headers && h.key in allowed :: h.key in values && values[h.key] == h.value)
  }

  lemma LookupFindsMember(headers: Headers, h: Entry<BoundedString>)
    requires Distinct(KeysOf(headers)) && h in headers
    ensures Lookup(headers, h.key) == Some(h.value)
  {
    var i :| 0 <= i < |headers| && headers[i] == h;
    var found := Entry(h.key, Lookup(headers, h.key).value);
    var j :| 0 <= j < |headers| && headers[j] == found;
    assert KeysOf(headers)[i] == KeysOf(headers)[j];
  }

  method AuthorizeCorrelations(headers: Headers, allowed: seq<Id>) returns (r: Result<Correlations, AbiError>)
    requires Constructed(headers) && Distinct(KeysOf(headers))
    ensures r.Ok? <==> MayAuthorize(headers, allowed)
    ensures r.Ok? ==> AreSelectedAndAllowed(r.value, headers, allowed)
  {
    var verdict := ValidateHeaders(headers, MAXIMUM_SELECTED_HEADERS);
    if verdict.Reject? {
      return Err(verdict.error);
    }
    if |allowed| > MAXIMUM_CORRELATION_IDS {
      return Err(LimitExceeded);
    }
    var seen: set<Id> := {};
    var values: Correlations := map[];
    for i := 0 to |allowed|
      invariant Collected(allowed, i, seen)
      invariant AreSelectedAndAllowed(values, headers, allowed[..i])
    {
      var id := allowed[i];
      assert allowed[..i + 1] == allowed[..i] + [id];
      CollectOne(allowed, i, seen);
      if id in seen {
        return Err(InvalidValue);
      }
      seen := seen + {id};
      var value := Lookup(headers, id);
      forall h | h in headers && h.key == id ensures value == Some(h.value) {
        LookupFindsMember(headers, h);
      }
      if value.Some? {
        values := values[id := value.value];
      }
    }
    CollectAll(allowed, seen);
    assert allowed[..|allowed|] == allowed;
    return Ok(values);
  }

  ghost predicate ResponseFits(headers: Headers, decoded: TypedValue, responseBytes: nat, size: Sizing) {
    && HeadersFit(headers, MAXIMUM_SELECTED_HEADERS)
    && responseBytes <= MAXIMUM_TRANSPORT_RESPONSE_BYTES
    && RootsConform([decoded])
    && size(decoded).Some?
    && size(decoded).value <= MAXIMUM_CANONICAL_OUTPUT_BYTES
  }

  method ValidateResponse(headers: Headers, decoded: TypedValue, responseBytes: nat, size: Sizing)
    returns (r: Verdict<AbiError>)
    requires Constructed(headers)
    ensures r.Accept? <==> ResponseFits(headers, decoded, responseBytes, size)
  {
    var verdict := ValidateHeaders(headers, MAXIMUM_SELECTED_HEADERS);
    if verdict.Reject? {
      return verdict;
    }
    if responseBytes > MAXIMUM_TRANSPORT_RESPONSE_BYTES {
      return Reject(LimitExceeded);
    }
    var roots := ValidateTypedValueRoots([decoded]);
    if roots.Reject? {
      return roots;
    }
    var outputBytes := size(decoded);
    if outputBytes.None? || outputBytes.value > MAXIMUM_CANONICAL_OUTPUT_BYTES {
      return Reject(LimitExceeded);
    }
    return Accept;
  }

  datatype TransportResponse = TransportResponse(
    status: nat,
    selectedHeaders: Headers,
    decoded: TypedValue,
    responseBytes: nat,
    authorizedCorrelations: Correlations)

  method HostTransportResponse(
    status: nat, headers: Headers, decoded: TypedValue, responseBytes: nat, allowed: seq<Id>, size: Sizing)
    returns (r: Result<TransportResponse, AbiError>)
    requires Constructed(headers) && Distinct(KeysOf(headers))
    ensures r.Ok? <==> ResponseFits(headers, decoded, responseBytes, size) && MayAuthorize(headers, allowed)
    ensures r.Ok? ==> r.value.(authorizedCorrelations := map[])
                      == TransportResponse(status, headers, decoded, responseBytes, map[])
    ensures r.Ok? ==> AreSelectedAndAllowed(r.value.authorizedCorrelations, headers, allowed)
  {
    var verdict := ValidateResponse(headers, decoded, responseBytes, size);
    if verdict.Reject? {
      return Err(verdict.error);
    }
    var correlations := AuthorizeCorrelations(headers, allowed);
    if correlations.Err? {
      return Err(correlations.error);
    }
    return Ok(TransportResponse(status, headers, decoded, responseBytes, correlations.value));
  }

  // ----- Failures

  datatype ErrorClass =
    Transport | Timeout | Http429 | Http5xx | Authentication | Validation | Permanent | Invariant

  datatype ConnectorFailure = ConnectorFailure(
    class_: ErrorClass,
    code: string,
    safeMessage: string,
    retryAfterSeconds: Option<nat>,
    correlationIds: Correlations)

  function NewFailure(
    class_: ErrorClass, code: string, safeMessage: string,
    retryAfterSeconds: Option<nat>, correlations: Option<Correlations>): ConnectorFailure
  {
    var ids := match correlations case Some(values) => values case None => map[];
    var seconds := match retryAfterSeconds
      case Some(s) => Some(if s < MAXIMUM_RETRY_AFTER_SECONDS then s else MAXIMUM_RETRY_AFTER_SECONDS)
      case None => None;
    ConnectorFailure(class_, code, safeMessage, seconds, ids)
  }

  /**
   * A failure reports nothing beyond what a response authorized: its correlations are the response's selected
   * headers under allowed names, at most 64 of them, or none without them, and its delay is the requested one
   * capped at a day. Its class, code and message are those given.
   */
  lemma FailureCarriesAuthorizedCorrelations(
    response: TransportResponse, allowed: seq<Id>, class_: ErrorClass, code: string, message: string,
    delay: Option<nat>)
    requires MayAuthorize(response.selectedHeaders, allowed)
    requires AreSelectedAndAllowed(response.authorizedCorrelations, response.selectedHeaders, allowed)
    ensures var failure := NewFailure(class_, code, message, delay, Some(response.authorizedCorrelations));
      && AreSelectedAndAllowed(failure.correlationIds, response.selectedHeaders, allowed)
      && |failure.correlationIds| <= MAXIMUM_CORRELATION_IDS
      && (failure.retryAfterSeconds.Some? <==> delay.Some?)
      && (delay.Some? && delay.value <= 86400 ==> failure.retryAfterSeconds == delay)
      && (delay.Some? && delay.value > 86400 ==> failure.retryAfterSeconds == Some(86400))
      && failure.class_ == class_ && failure.code == code && failure.safeMessage == message
      && NewFailure(class_, code, message, delay, None) == failure.(correlationIds := map[])
  {
    var values := response.authorizedCorrelations;
    KeysAmong(values.Keys, allowed);
  }

  lemma {:induction false} KeysAmong(keys: set<Id>, ids: seq<Id>)
    requires forall k | k in keys :: k in ids
    ensures |keys| <= |ids|
  {
    if ids == [] {
      assert keys == {};
    } else {
      KeysAmong(keys - {ids[0]}, ids[1..]);
      assert |keys| <= |keys - {ids[0]}| + 1;
    }
  }
}
