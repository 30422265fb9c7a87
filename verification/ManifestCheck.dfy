/** The older, independently written validator: it compares identifiers by their text. */
module ManifestCheck {
  import opened Wrappers
  import opened Collections
  import opened Manifest
  import opened CatalogText
  import opened CatalogRules
  import opened CatalogPasses

  // ----- Names instead of identifiers

  function StepNames(steps: seq<Step>): (r: seq<string>)
    ensures |r| == |steps|
  {
    seq(|steps|, i requires 0 <= i < |steps| => Name(steps[i].step))
  }

  function EvidenceNames(evidence: seq<Evidence>): (r: seq<string>)
    ensures |r| == |evidence|
  {
    seq(|evidence|, i requires 0 <= i < |evidence| => Name(evidence[i].step))
  }

  function CapabilityNames(headers: seq<SelectedHeader>): (r: seq<string>)
    ensures |r| == |headers|
  {
    seq(|headers|, i requires 0 <= i < |headers| => Name(headers[i].capability))
  }

  // ----- Its rules

  predicate HeadersAreUnambiguous(step: Step) {
    && |step.selectedHeaders| <= 64
    && (forall selected | selected in step.selectedHeaders :: IsLowercase(selected.name))
    && Distinct(HeaderNames(step.selectedHeaders))
    && Distinct(CapabilityNames(step.selectedHeaders))
  }

  predicate StepIsValid(operation: Operation, step: Step) {
    && (exists origin | origin in operation.origins :: origin.origin == step.origin)
    && step.successStatuses != []
    && (forall range | range in step.successStatuses :: Ordered(range))
    && HeadersAreUnambiguous(step)
  }

  predicate EvidenceIsValid(stepNames: set<string>, e: Evidence) {
    Name(e.step) in stepNames && e.clockSafetyMarginMs < e.minimumRetentionMs
  }

  predicate EffectIsValid(operation: Operation) {
    match operation.effect
    case ReadOnly => true
    case AtMostOnce => |operation.steps| == 1
    case ProviderIdempotent(evidence) =>
      && |evidence| == |operation.steps|
      && Distinct(EvidenceNames(evidence))
      && forall e | e in evidence :: EvidenceIsValid(ToSet(StepNames(operation.steps)), e)
  }

  predicate OperationIsValid(operation: Operation) {
    && operation.steps != [] && operation.origins != []
    && (|operation.steps| != 1 ==> operation.processor.Some?)
    && Distinct(StepNames(operation.steps))
    && (forall step | step in operation.steps :: StepIsValid(operation, step))
    && EffectIsValid(operation)
    && ErrorMapResolves(operation.errorMap, operation.steps)
  }

  predicate CredentialIsValid(m: Manifest, c: Credential) {
    c.fields != [] && c.allowedOrigins != [] && ToSet(c.allowedOrigins) <= ToSet(OriginIds(m.origins))
  }

  predicate OperationIsOfManifest(m: Manifest, operation: Operation) {
    && operation.connector == m.connector && operation.connectorVersion == m.connectorVersion
    && OperationIsValid(operation)
  }

  predicate IsValid(m: Manifest) {
    && IsComplete(m)
    && Distinct(OriginIds(m.origins))
    && (forall c | c in m.credentials :: CredentialIsValid(m, c))
    && (forall operation | operation in m.operations :: OperationIsOfManifest(m, operation))
    && FactSitesHold(m)
  }

  // ----- Its loops

  lemma HeaderKeys(headers: seq<SelectedHeader>, i: nat)
    requires i < |headers|
    ensures HeaderNames(headers)[i] == headers[i].name
    ensures CapabilityNames(headers)[i] == Name(headers[i].capability)
    ensures HeaderCapabilities(headers)[i] == headers[i].capability
  {
  }

  predicate LowercaseUpTo(headers: seq<SelectedHeader>, i: nat)
    requires i <= |headers|
  {
    forall k | 0 <= k < i :: IsLowercase(headers[k].name)
  }

  lemma LowercaseStep(headers: seq<SelectedHeader>, i: nat)
    requires i < |headers|
    ensures LowercaseUpTo(headers, i + 1) <==> LowercaseUpTo(headers, i) && IsLowercase(headers[i].name)
    ensures !IsLowercase(headers[i].name) ==> !LowercaseUpTo(headers, |headers|)
    ensures LowercaseUpTo(headers, 0)
  {
    hide IsLowercase;
  }

  lemma UnambiguousByPosition(step: Step)
    ensures HeadersAreUnambiguous(step) <==>
      && |step.selectedHeaders| <= 64
      && LowercaseUpTo(step.selectedHeaders, |step.selectedHeaders|)
      && Distinct(HeaderNames(step.selectedHeaders))
      && Distinct(CapabilityNames(step.selectedHeaders))
  {
    hide Distinct, IsLowercase, Name;
  }

  method CheckSelectedHeaders(step: Step) returns (v: Verdict<CatalogError>)
    ensures v.Accept? <==> HeadersAreUnambiguous(step)
  {
    if |step.selectedHeaders| > 64 {
      return Reject(SelectedHeaderLimit);
    }
    ghost var allNames := HeaderNames(step.selectedHeaders);
    ghost var allCapabilities := CapabilityNames(step.selectedHeaders);
    CollectNone(allNames);
    CollectNone(allCapabilities);
    UnambiguousByPosition(step);
    assert LowercaseUpTo(step.selectedHeaders, 0);
    hide Collected, Distinct, IsLowercase, HeaderNames, CapabilityNames, Name, HeadersAreUnambiguous,
      LowercaseUpTo;
    var names: set<string>, capabilities: set<string> := {}, {};
    for i := 0 to |step.selectedHeaders|
      invariant Collected(allNames, i, names)
      invariant Collected(allCapabilities, i, capabilities)
      invariant LowercaseUpTo(step.selectedHeaders, i)
    {
      var selected := step.selectedHeaders[i];
      HeaderKeys(step.selectedHeaders, i);
      LowercaseStep(step.selectedHeaders, i);
      CollectOne(allNames, i, names);
      CollectOne(allCapabilities, i, capabilities);
      if !IsLowercase(selected.name) {
        return Reject(SelectedHeaderAmbiguous);
      }
      var capability := Name(selected.capability);
      if selected.name in names {
        return Reject(SelectedHeaderAmbiguous);
      }
      if capability in capabilities {
        return Reject(SelectedHeaderAmbiguous);
      }
      names := names + {selected.name};
      capabilities := capabilities + {capability};
    }
    CollectAll(allNames, names);
    CollectAll(allCapabilities, capabilities);
    return Accept;
  }

  method CheckSteps(operation: Operation) returns (r: Result<set<string>, CatalogError>)
    ensures r.Ok? <==>
      && Distinct(StepNames(operation.steps))
      && forall step | step in operation.steps :: StepIsValid(operation, step)
    ensures r.Ok? ==> r.value == ToSet(StepNames(operation.steps))
  {
    ghost var names := StepNames(operation.steps);
    CollectNone(names);
    hide Collected, Distinct, HeadersAreUnambiguous, ToSet, Ordered, Name;
    var seen: set<string> := {};
    for i := 0 to |operation.steps|
      invariant Collected(names, i, seen)
      invariant forall k | 0 <= k < i :: StepIsValid(operation, operation.steps[k])
    {
      var step := operation.steps[i];
      CollectOne(names, i, seen);
      if Name(step.step) in seen {
        return Err(DuplicateStep);
      }
      seen := seen + {Name(step.step)};
      if !exists origin | origin in operation.origins :: origin.origin == step.origin {
        assert !StepIsValid(operation, step);
        return Err(MissingOrigin);
      }
      if step.successStatuses == [] || exists range | range in step.successStatuses :: !Ordered(range) {
        assert !StepIsValid(operation, step);
        return Err(InvalidStatus);
      }
      var headers := CheckSelectedHeaders(step);
      if headers.Reject? {
        assert !StepIsValid(operation, step);
        return Err(headers.error);
      }
      assert StepIsValid(operation, step);
    }
    CollectAll(names, seen);
    return Ok(seen);
  }

  method CheckEvidence(stepNames: set<string>, evidence: seq<Evidence>) returns (ok: bool)
    ensures ok <==> Distinct(EvidenceNames(evidence)) && forall e | e in evidence :: EvidenceIsValid(stepNames, e)
  {
    ghost var names := EvidenceNames(evidence);
    CollectNone(names);
    hide Collected, Distinct, Name;
    var covered: set<string> := {};
    for i := 0 to |evidence|
      invariant Collected(names, i, covered)
      invariant forall k | 0 <= k < i :: EvidenceIsValid(stepNames, evidence[k])
    {
      var e := evidence[i];
      CollectOne(names, i, covered);
      if !EvidenceIsValid(stepNames, e) || Name(e.step) in covered {
        return false;
      }
      covered := covered + {Name(e.step)};
    }
    CollectAll(names, covered);
    return true;
  }

  method CheckOperation(operation: Operation) returns (v: Verdict<CatalogError>)
    ensures v.Accept? <==> OperationIsValid(operation)
  {
    hide StepIsValid, EvidenceIsValid, Distinct, ErrorMapResolves;
    if operation.steps == [] || operation.origins == [] {
      return Reject(OperationIncomplete);
    }
    if |operation.steps| != 1 && operation.processor.None? {
      return Reject(ProcessorRequired);
    }
    var names := CheckSteps(operation);
    if names.Err? {
      return Reject(names.error);
    }
    match operation.effect {
      case ReadOnly =>
      case AtMostOnce =>
        if |operation.steps| != 1 {
          assert !EffectIsValid(operation);
          return Reject(EffectIncomplete);
        }
      case ProviderIdempotent(evidence) =>
        if |evidence| != |operation.steps| {
          assert !EffectIsValid(operation);
          return Reject(EffectIncomplete);
        }
        var ok := CheckEvidence(names.value, evidence);
        if !ok {
          assert !EffectIsValid(operation);
          return Reject(EffectIncomplete);
        }
    }
    assert EffectIsValid(operation);
    var resolved := CheckErrorMap(operation.errorMap, operation.steps);
    return if resolved then Accept else Reject(SelectedHeaderAmbiguous);
  }

  method CheckManifest(m: Manifest) returns (v: Verdict<CatalogError>)
    ensures v.Accept? <==> IsValid(m)
  {
    hide CredentialIsValid, OperationIsValid, FactSitesHold;
    if !IsComplete(m) {
      return Reject(ManifestIncomplete);
    }
    DistinctIffFullCount(OriginIds(m.origins));
    hide Distinct, ToSet;
    if |ToSet(OriginIds(m.origins))| != |m.origins| {
      return Reject(ManifestDuplicate);
    }
    if exists c | c in m.credentials :: !CredentialIsValid(m, c) {
      return Reject(CredentialIncomplete);
    }
    for i := 0 to |m.operations|
      invariant forall k | 0 <= k < i :: OperationIsOfManifest(m, m.operations[k])
    {
      var operation := m.operations[i];
      if operation.connector != m.connector || operation.connectorVersion != m.connectorVersion {
        assert !OperationIsOfManifest(m, operation);
        return Reject(ReferenceMismatch);
      }
      var checked := CheckOperation(operation);
      if checked.Reject? {
        assert !OperationIsOfManifest(m, operation);
        return Reject(checked.error);
      }
    }
    v := ValidateFactUseSites(m);
  }
}
