/** The passes of the catalog compiler, each deciding its rule. */
module CatalogPasses {
  import opened Wrappers
  import opened Collections
  import opened Manifest
  import opened CatalogText
  import opened FactDomains
  import opened CatalogRules

  // ----- Step identity

  method StepsAreDistinct(steps: seq<Step>) returns (distinct: bool)
    ensures distinct <==> Distinct(StepIds(steps))
  {
    ghost var ids := StepIds(steps);
    CollectNone(ids);
    hide Collected, Distinct;
    var seen: set<Id> := {};
    for i := 0 to |steps|
      invariant Collected(ids, i, seen)
    {
      CollectOne(ids, i, seen);
      if steps[i].step in seen {
        return false;
      }
      seen := seen + {steps[i].step};
    }
    CollectAll(ids, seen);
    return true;
  }

  lemma RepeatsStay<T>(keys: seq<T>, n: nat)
    requires n <= |keys| && !Distinct(keys[..n])
    ensures !Distinct(keys)
  {
    var i, j :| 0 <= i < j < n && keys[..n][i] == keys[..n][j];
    assert keys[i] == keys[j];
  }

  method ValidateStepIdentity(m: Manifest) returns (v: Verdict<CatalogError>)
    ensures v.Accept? <==> StepIdentityHolds(m)
  {
    for i := 0 to |m.operations|
      invariant forall k | 0 <= k < i :: Distinct(StepIds(m.operations[k].steps))
    {
      var distinct := StepsAreDistinct(m.operations[i].steps);
      if !distinct {
        return Reject(DuplicateStep);
      }
    }
    return Accept;
  }

  // ----- Credentials

  method OriginsById(origins: seq<FixedOrigin>) returns (byId: map<Id, FixedOrigin>)
    ensures byId.Keys == ToSet(OriginIds(origins))
    ensures forall id | id in byId :: byId[id] in origins && byId[id].origin == id
  {
    ghost var ids := OriginIds(origins);
    NoKeys(ids);
    hide ToSet, Distinct;
    byId := map[];
    for i := 0 to |origins|
      invariant byId.Keys == ToSet(ids[..i])
      invariant forall id | id in byId :: byId[id] in origins && byId[id].origin == id
    {
      AddKey(ids, i);
      byId := byId[origins[i].origin := origins[i]];
    }
  }

  lemma OneOriginPerId(origins: seq<FixedOrigin>, a: FixedOrigin, b: FixedOrigin)
    requires Distinct(OriginIds(origins)) && a in origins && b in origins && a.origin == b.origin
    ensures a == b
  {
    var i :| 0 <= i < |origins| && origins[i] == a;
    var j :| 0 <= j < |origins| && origins[j] == b;
    assert OriginIds(origins)[i] == OriginIds(origins)[j];
  }

  lemma OneCredentialPerId(credentials: seq<Credential>, a: Credential, b: Credential)
    requires Distinct(CredentialIds(credentials)) && a in credentials && b in credentials && a.identity == b.identity
    ensures a == b
  {
    var i :| 0 <= i < |credentials| && credentials[i] == a;
    var j :| 0 <= j < |credentials| && credentials[j] == b;
    assert CredentialIds(credentials)[i] == CredentialIds(credentials)[j];
  }

  /** The query and header bindings first, then the body, into one set of fields already bound. */
  method BindFields(declared: set<string>, bound: set<string>, fields: seq<string>)
    returns (r: Option<set<string>>)
    ensures r.Some? <==> Distinct(fields) && ToSet(fields) !! bound && ToSet(fields) <= declared
    ensures r.Some? ==> r.value == bound + ToSet(fields)
  {
    var compiled := bound;
    for i := 0 to |fields|
      invariant Distinct(fields[..i]) && ToSet(fields[..i]) !! bound && ToSet(fields[..i]) <= declared
      invariant compiled == bound + ToSet(fields[..i])
    {
      AddKey(fields, i);
      if fields[i] !in declared || fields[i] in compiled {
        if fields[i] in ToSet(fields[..i]) {
          RepeatsStay(fields, i + 1);
        }
        assert fields[i] in ToSet(fields);
        return None;
      }
      compiled := compiled + {fields[i]};
    }
    assert fields[..|fields|] == fields;
    return Some(compiled);
  }

  method ValidateRequestBindings(operation: Operation, step: Step) returns (closed: bool)
    ensures closed <==> BindingsAreClosed(operation, step)
  {
    var sent, body := BoundBy(step.query) + BoundBy(step.headers), BodyFields(step.request);
    DistinctConcat(sent, body);
    assert ToSet(sent + body) == ToSet(sent) + ToSet(body);
    var bound := BindFields(operation.inputRoots, {}, sent);
    if bound.None? {
      return false;
    }
    var all := BindFields(operation.inputRoots, bound.value, body);
    return all.Some?;
  }

  method ValidateOperationSteps(operation: Operation, credential: Option<Credential>) returns (ok: bool)
    ensures ok <==> forall step | step in operation.steps :: StepResolves(operation, step, credential)
  {
    var origins := ToSet(OriginIds(operation.origins));
    for i := 0 to |operation.steps|
      invariant forall k | 0 <= k < i :: StepResolves(operation, operation.steps[k], credential)
    {
      var step := operation.steps[i];
      if step.origin !in origins || !CredentialActionHolds(step, credential) {
        assert !StepResolves(operation, step, credential);
        return false;
      }
      var closed := ValidateRequestBindings(operation, step);
      if !closed {
        assert !StepResolves(operation, step, credential);
        return false;
      }
    }
    return true;
  }

  method ValidateOperationOrigins(m: Manifest, operation: Operation, origins: map<Id, FixedOrigin>) returns (ok: bool)
    requires Distinct(OriginIds(m.origins)) && origins.Keys == ToSet(OriginIds(m.origins))
    requires forall id | id in origins :: origins[id] in m.origins && origins[id].origin == id
    ensures ok <==> OriginsAreDeclared(m, operation)
  {
    DistinctIffFullCount(OriginIds(operation.origins));
    if |ToSet(OriginIds(operation.origins))| != |operation.origins| {
      return false;
    }
    ok := forall origin | origin in operation.origins ::
      origin.origin in origins && SameOrigin(origin, origins[origin.origin]);
    forall origin | origin in operation.origins
      ensures (origin.origin in origins && SameOrigin(origin, origins[origin.origin]))
        <==> exists declared | declared in m.origins :: SameOrigin(origin, declared)
    {
      DeclaredIffLookedUp(m.origins, origins, origin);
    }
  }

  lemma DeclaredIffLookedUp(declared: seq<FixedOrigin>, byId: map<Id, FixedOrigin>, origin: FixedOrigin)
    requires Distinct(OriginIds(declared)) && byId.Keys == ToSet(OriginIds(declared))
    requires forall id | id in byId :: byId[id] in declared && byId[id].origin == id
    ensures (origin.origin in byId && SameOrigin(origin, byId[origin.origin]))
      <==> exists d | d in declared :: SameOrigin(origin, d)
  {
    if d :| d in declared && SameOrigin(origin, d) {
      var i :| 0 <= i < |declared| && declared[i] == d;
      assert OriginIds(declared)[i] in ToSet(OriginIds(declared));
      OneOriginPerId(declared, d, byId[origin.origin]);
    }
  }

  method ValidateOperationCredentials(m: Manifest, operation: Operation, origins: map<Id, FixedOrigin>,
    credentials: map<Reference, Credential>) returns (ok: bool)
    requires Distinct(OriginIds(m.origins)) && origins.Keys == ToSet(OriginIds(m.origins))
    requires forall id | id in origins :: origins[id] in m.origins && origins[id].origin == id
    requires Distinct(CredentialIds(m.credentials)) && credentials.Keys == ToSet(CredentialIds(m.credentials))
    requires forall r | r in credentials :: credentials[r] in m.credentials && credentials[r].identity == r
    ensures ok <==> OperationResolves(m, operation)
  {
    hide OriginsAreDeclared, StepResolves;
    var credential: Option<Credential> := None;
    if operation.credential.Some? {
      if operation.credential.value !in credentials {
        assert !OperationResolves(m, operation) by {
          UnresolvedIsAbsent(m.credentials, operation.credential.value);
        }
        return false;
      }
      credential := Some(credentials[operation.credential.value]);
    }
    assert ResolvesTo(m.credentials, operation.credential, credential);
    forall other | ResolvesTo(m.credentials, operation.credential, other) ensures other == credential {
      if other.Some? {
        OneCredentialPerId(m.credentials, other.value, credential.value);
      }
    }
    var declared := ValidateOperationOrigins(m, operation, origins);
    if !declared {
      return false;
    }
    ok := ValidateOperationSteps(operation, credential);
  }

  lemma UnresolvedIsAbsent(credentials: seq<Credential>, reference: Reference)
    requires reference !in ToSet(CredentialIds(credentials))
    ensures forall c | c in credentials :: c.identity != reference
  {
    forall c | c in credentials ensures c.identity != reference {
      var i :| 0 <= i < |credentials| && credentials[i] == c;
      assert CredentialIds(credentials)[i] in ToSet(CredentialIds(credentials));
    }
  }

  method ValidateCredential(m: Manifest, origins: set<Id>, operations: set<Reference>, c: Credential) returns (ok: bool)
    requires origins == ToSet(OriginIds(m.origins)) && operations == ToSet(OperationIds(m.operations))
    ensures ok <==> CredentialHolds(m, c)
  {
    hide AuthPlanResolves;
    DistinctIffFullCount(c.fields);
    var fields := ToSet(c.fields);
    if |fields| != |c.fields| || !(ToSet(c.allowedOrigins) <= origins) {
      return false;
    }
    if c.testOperation.Some? && c.testOperation.value !in operations {
      return false;
    }
    return AuthPlanResolves(m, c);
  }

  method CredentialsById(m: Manifest, origins: map<Id, FixedOrigin>) returns (r: Option<map<Reference, Credential>>)
    requires origins.Keys == ToSet(OriginIds(m.origins))
    ensures r.Some? <==>
      Distinct(CredentialIds(m.credentials)) && forall c | c in m.credentials :: CredentialHolds(m, c)
    ensures r.Some? ==> r.value.Keys == ToSet(CredentialIds(m.credentials))
    ensures r.Some? ==> forall k | k in r.value :: r.value[k] in m.credentials && r.value[k].identity == k
  {
    ghost var ids := CredentialIds(m.credentials);
    CollectNone(ids);
    hide CredentialHolds, Distinct, Collected;
    var operations := ToSet(OperationIds(m.operations));
    var byId: map<Reference, Credential> := map[];
    assert byId.Keys == {};
    for i := 0 to |m.credentials|
      invariant Collected(ids, i, byId.Keys)
      invariant forall k | 0 <= k < i :: CredentialHolds(m, m.credentials[k])
      invariant forall k | k in byId :: byId[k] in m.credentials && byId[k].identity == k
    {
      var c := m.credentials[i];
      CollectOne(ids, i, byId.Keys);
      if c.identity in byId {
        return None;
      }
      assert byId[c.identity := c].Keys == byId.Keys + {ids[i]};
      byId := byId[c.identity := c];
      var ok := ValidateCredential(m, origins.Keys, operations, c);
      if !ok {
        return None;
      }
    }
    CollectAll(ids, byId.Keys);
    return Some(byId);
  }

  method ValidateCredentials(m: Manifest) returns (v: Verdict<CatalogError>)
    ensures v.Accept? <==> CredentialsHold(m)
  {
    hide CredentialHolds, OperationResolves;
    var origins := OriginsById(m.origins);
    DistinctIffFullCount(OriginIds(m.origins));
    if |origins.Keys| != |m.origins| {
      return Reject(CredentialIncomplete);
    }
    var credentials := CredentialsById(m, origins);
    if credentials.None? {
      return Reject(CredentialIncomplete);
    }
    for i := 0 to |m.operations|
      invariant forall k | 0 <= k < i :: OperationResolves(m, m.operations[k])
    {
      var ok := ValidateOperationCredentials(m, m.operations[i], origins, credentials.value);
      if !ok {
        return Reject(CredentialIncomplete);
      }
    }
    return Accept;
  }

  // ----- Selected headers

  method ValidateStepHeaders(env: Environment, operation: Operation, step: Step) returns (ok: bool)
    ensures ok <==> StepHeadersHold(env, operation, step)
  {
    if |step.selectedHeaders| > 64 {
      return false;
    }
    ghost var allNames, allCapabilities := HeaderNames(step.selectedHeaders), HeaderCapabilities(step.selectedHeaders);
    CollectNone(allNames);
    CollectNone(allCapabilities);
    hide Collected, Distinct, HeaderIsDerived;
    var names: set<string>, capabilities: set<Id> := {}, {};
    for i := 0 to |step.selectedHeaders|
      invariant Collected(allNames, i, names)
      invariant Collected(allCapabilities, i, capabilities)
      invariant forall k | 0 <= k < i :: HeaderIsDerived(env, operation, step, step.selectedHeaders[k])
    {
      var selected := step.selectedHeaders[i];
      CollectOne(allNames, i, names);
      CollectOne(allCapabilities, i, capabilities);
      if !HeaderIsDerived(env, operation, step, selected) {
        return false;
      }
      if selected.name in names {
        return false;
      }
      if selected.capability in capabilities {
        return false;
      }
      names, capabilities := names + {selected.name}, capabilities + {selected.capability};
    }
    CollectAll(allNames, names);
    CollectAll(allCapabilities, capabilities);
    return true;
  }

  method ValidateSelectedHeaders(env: Environment, m: Manifest) returns (v: Verdict<CatalogError>)
    ensures v.Accept? <==> SelectedHeadersHold(env, m)
  {
    hide StepHeadersHold;
    for i := 0 to |m.operations|
      invariant forall k | 0 <= k < i :: forall step | step in m.operations[k].steps ::
        StepHeadersHold(env, m.operations[k], step)
    {
      var operation := m.operations[i];
      for j := 0 to |operation.steps|
        invariant forall k | 0 <= k < j :: StepHeadersHold(env, operation, operation.steps[k])
      {
        var ok := ValidateStepHeaders(env, operation, operation.steps[j]);
        if !ok {
          return Reject(SelectedHeaderInvalid);
        }
      }
    }
    return Accept;
  }

  // ----- Error maps

  /** One action: every correlation, and its Retry-After header, counts exactly once. */
  method CheckAction(action: ErrorAction, steps: seq<Step>) returns (ok: bool)
    ensures ok <==> ActionResolves(action, steps)
  {
    hide CountMatches;
    for i := 0 to |action.correlations|
      invariant forall k | 0 <= k < i :: var c := action.correlations[k];
        CountMatches(steps, c.step, Some(c.name), c.capability) == 1
    {
      var c := action.correlations[i];
      if CountMatches(steps, c.step, Some(c.name), c.capability) != 1 {
        return false;
      }
    }
    return match action.retryAfter
      case Never => true
      case RetryAfterHeader(step, capability, _) => CountMatches(steps, step, None, capability) == 1;
  }

  method CheckErrorMap(errorMap: ErrorMap, steps: seq<Step>) returns (ok: bool)
    ensures ok <==> ErrorMapResolves(errorMap, steps)
  {
    var actions := Actions(errorMap);
    hide ActionResolves, Actions;
    for i := 0 to |actions|
      invariant forall k | 0 <= k < i :: ActionResolves(actions[k], steps)
    {
      ok := CheckAction(actions[i], steps);
      if !ok {
        return false;
      }
    }
    return true;
  }

  method ValidateErrorMaps(m: Manifest) returns (v: Verdict<CatalogError>)
    ensures v.Accept? <==> ErrorMapsHold(m)
  {
    hide ErrorMapResolves;
    for i := 0 to |m.operations|
      invariant forall k | 0 <= k < i :: ErrorMapResolves(m.operations[k].errorMap, m.operations[k].steps)
    {
      var ok := CheckErrorMap(m.operations[i].errorMap, m.operations[i].steps);
      if !ok {
        return Reject(ErrorMapInvalid);
      }
    }
    return Accept;
  }

  // ----- Effects

  method ValidateEvidence(operation: Operation, evidence: seq<Evidence>) returns (ok: bool)
    ensures ok <==> Distinct(EvidenceSteps(evidence)) && forall e | e in evidence :: EvidenceHolds(operation, e)
  {
    ghost var ids := EvidenceSteps(evidence);
    CollectNone(ids);
    hide EvidenceHolds, Collected, Distinct;
    var steps: set<Id> := {};
    for i := 0 to |evidence|
      invariant Collected(ids, i, steps)
      invariant forall k | 0 <= k < i :: EvidenceHolds(operation, evidence[k])
    {
      var e := evidence[i];
      CollectOne(ids, i, steps);
      if e.step in steps {
        return false;
      }
      steps := steps + {e.step};
      if !EvidenceHolds(operation, e) {
        return false;
      }
    }
    CollectAll(ids, steps);
    return true;
  }

  method ValidateEffects(m: Manifest) returns (v: Verdict<CatalogError>)
    ensures v.Accept? <==> EffectsHold(m)
  {
    hide EvidenceHolds;
    for i := 0 to |m.operations|
      invariant forall k | 0 <= k < i :: EffectHolds(m.operations[k])
    {
      var operation := m.operations[i];
      match operation.effect {
        case ReadOnly =>
        case AtMostOnce =>
          if |operation.steps| != 1 {
            return Reject(EffectIncomplete);
          }
        case ProviderIdempotent(evidence) =>
          if |evidence| != |operation.steps| {
            assert !EffectHolds(operation);
            return Reject(EffectIncomplete);
          }
          var ok := ValidateEvidence(operation, evidence);
          if !ok {
            assert !EffectHolds(operation);
            return Reject(EffectIncomplete);
          }
      }
      assert EffectHolds(operation);
    }
    return Accept;
  }

  // ----- Fact use sites and identities

  method ValidateFactUseSites(m: Manifest) returns (v: Verdict<CatalogError>)
    ensures v.Accept? <==> FactSitesHold(m)
  {
    var semantic, origin := AllUseSites(m.operations), AllFactSites(m.provenance);
    DistinctIffFullCount(semantic);
    DistinctIffFullCount(origin);
    if |ToSet(semantic)| != |semantic| || |ToSet(origin)| != |origin| || ToSet(semantic) != ToSet(origin) {
      return Reject(FactUseSiteMismatch);
    }
    return Accept;
  }

  method ValidateOperationIdentities(m: Manifest) returns (ok: bool)
    ensures ok <==>
      && (forall operation | operation in m.operations :: OperationBelongs(m, operation))
      && Distinct(OperationIds(m.operations))
  {
    ghost var ids := OperationIds(m.operations);
    CollectNone(ids);
    hide Collected, Distinct;
    var seen: set<Reference> := {};
    for i := 0 to |m.operations|
      invariant Collected(ids, i, seen)
      invariant forall k | 0 <= k < i :: OperationBelongs(m, m.operations[k])
    {
      var operation := m.operations[i];
      CollectOne(ids, i, seen);
      if !OperationBelongs(m, operation) {
        return false;
      }
      if operation.identity in seen {
        return false;
      }
      seen := seen + {operation.identity};
    }
    CollectAll(ids, seen);
    return true;
  }

  method ValidateTriggerIdentities(m: Manifest) returns (ok: bool)
    ensures ok <==>
      && (forall trigger | trigger in m.triggers :: TriggerBelongs(m, trigger))
      && Distinct(TriggerIds(m.triggers))
  {
    ghost var ids := TriggerIds(m.triggers);
    CollectNone(ids);
    hide Collected, Distinct;
    var seen: set<Reference> := {};
    for i := 0 to |m.triggers|
      invariant Collected(ids, i, seen)
      invariant forall k | 0 <= k < i :: TriggerBelongs(m, m.triggers[k])
    {
      var trigger := m.triggers[i];
      CollectOne(ids, i, seen);
      if !TriggerBelongs(m, trigger) {
        return false;
      }
      if trigger.identity in seen {
        return false;
      }
      seen := seen + {trigger.identity};
    }
    CollectAll(ids, seen);
    return true;
  }

  method ValidateIdentity(m: Manifest) returns (v: Verdict<CatalogError>)
    ensures v.Accept? <==> IdentityHolds(m)
  {
    var operations := ValidateOperationIdentities(m);
    if !operations {
      return Reject(IdentityMismatch);
    }
    var triggers := ValidateTriggerIdentities(m);
    return if triggers then Accept else Reject(IdentityMismatch);
  }

  // ----- The pipeline

  datatype Checked = Checked(manifest: Manifest, domains: Domains)

  /** Every rule at once. */
  ghost predicate Compiles(env: Environment, m: Manifest) {
    && StructureHolds(m)
    && ManifestTexts(m)
    && StepIdentityHolds(m)
    && CredentialsHold(m)
    && (forall operation | operation in m.operations :: env.contractsAgree(operation))
    && SelectedHeadersHold(env, m)
    && ErrorMapsHold(m)
    && EffectsHold(m)
    && FactSitesHold(m)
    && IdentityHolds(m)
    && RequiredDomains(m.operations).Some?
    && env.provenanceAdmitted(m, RequiredDomains(m.operations).value)
  }

  method CompileConnectorManifest(env: Environment, m: Manifest) returns (r: Result<Checked, CatalogError>)
    ensures r.Ok? <==> Compiles(env, m)
    ensures r.Ok? ==> r.value == Checked(m, RequiredDomains(m.operations).value)
  {
    hide StructureHolds, ManifestTexts, StepIdentityHolds, CredentialsHold, SelectedHeadersHold, ErrorMapsHold,
      EffectsHold, FactSitesHold, IdentityHolds, RequiredDomains;
    if !StructureHolds(m) {
      return Err(ManifestIncomplete);
    }
    if !ManifestTexts(m) {
      return Err(InvalidPrimitive);
    }
    var v := ValidateStepIdentity(m);
    if v.Reject? {
      return Err(v.error);
    }
    v := ValidateCredentials(m);
    if v.Reject? {
      return Err(v.error);
    }
    if exists operation | operation in m.operations :: !env.contractsAgree(operation) {
      return Err(ContractHashMismatch);
    }
    v := ValidateSelectedHeaders(env, m);
    if v.Reject? {
      return Err(v.error);
    }
    v := ValidateErrorMaps(m);
    if v.Reject? {
      return Err(v.error);
    }
    v := ValidateEffects(m);
    if v.Reject? {
      return Err(v.error);
    }
    v := ValidateFactUseSites(m);
    if v.Reject? {
      return Err(v.error);
    }
    var domains := CheckFactRequirements(m.operations);
    if domains.Err? {
      return Err(domains.error);
    }
    v := ValidateIdentity(m);
    if v.Reject? {
      return Err(v.error);
    }
    if !env.provenanceAdmitted(m, domains.value) {
      return Err(ReferenceMismatch);
    }
    return Ok(Checked(m, domains.value));
  }
}
