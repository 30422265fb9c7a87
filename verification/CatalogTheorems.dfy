/** What holds of every manifest the catalog compiler accepts. */
module CatalogTheorems {
  import opened Wrappers
  import opened Collections
  import opened Manifest
  import opened CatalogText
  import opened FactDomains
  import opened CatalogRules
  import opened CatalogPasses
  import opened ManifestCheck
  import Ids

  // ----- The older validator accepts it too

  /** What construction ensures of every identifier; the ones compared by text are those of steps and capabilities. */
  ghost predicate IdsAreMade(operation: Operation) {
    forall step | step in operation.steps ::
      && Ids.IsId(step.step)
      && forall selected | selected in step.selectedHeaders :: Ids.IsId(selected.capability)
  }

  lemma DistinctNames(ids: seq<Id>, names: seq<string>)
    requires forall i | 0 <= i < |ids| :: Ids.IsId(ids[i])
    requires |names| == |ids| && forall i | 0 <= i < |ids| :: names[i] == Name(ids[i])
    ensures Distinct(ids) <==> Distinct(names)
  {
    forall i, j | 0 <= i < j < |ids| ensures ids[i] != ids[j] <==> names[i] != names[j] {
      SameIdIffSameName(ids[i], ids[j]);
    }
  }

  lemma HeadersStayValid(env: Environment, operation: Operation, step: Step)
    requires StepTexts(step) && StepHeadersHold(env, operation, step)
    requires forall selected | selected in step.selectedHeaders :: Ids.IsId(selected.capability)
    ensures HeadersAreUnambiguous(step)
  {
    hide IsHeaderName, BindingTexts, ResponseTexts, IsPathTemplate, HeaderIsDerived;
    DistinctNames(HeaderCapabilities(step.selectedHeaders), CapabilityNames(step.selectedHeaders));
    forall selected | selected in step.selectedHeaders ensures IsLowercase(selected.name) {
      HeaderNamesAreLowercase(selected.name);
    }
  }

  lemma HeaderNamesAreLowercase(name: string)
    ensures IsHeaderName(name) ==> IsLowercase(name)
  {
  }

  lemma StepStaysValid(env: Environment, m: Manifest, operation: Operation, step: Step)
    requires operation in m.operations && step in operation.steps
    requires StructureHolds(m) && OperationTexts(operation) && StepHeadersHold(env, operation, step)
    requires step.origin in OriginIds(operation.origins) && IdsAreMade(operation)
    ensures StepIsValid(operation, step)
  {
    HeadersStayValid(env, operation, step);
    var i :| 0 <= i < |operation.origins| && OriginIds(operation.origins)[i] == step.origin;
    assert operation.origins[i].origin == step.origin;
    StepRangesAreOrdered(step);
    hide HeadersAreUnambiguous, StepHeadersHold, StepTexts, Ordered;
  }

  lemma StepRangesAreOrdered(step: Step)
    ensures StepTexts(step) ==> forall range | range in step.successStatuses :: Ordered(range)
  {
  }

  lemma EffectStaysValid(operation: Operation)
    requires EffectHolds(operation) && IdsAreMade(operation)
    ensures EffectIsValid(operation)
  {
    if operation.effect.ProviderIdempotent? {
      var evidence, steps := operation.effect.evidence, operation.steps;
      forall i | 0 <= i < |evidence| ensures Ids.IsId(EvidenceSteps(evidence)[i]) {
        assert EvidenceHolds(operation, evidence[i]);
        assert FindStep(steps, evidence[i].step).value in steps;
      }
      DistinctNames(EvidenceSteps(evidence), EvidenceNames(evidence));
      forall e | e in evidence ensures EvidenceIsValid(ToSet(StepNames(steps)), e) {
        assert EvidenceHolds(operation, e);
        EvidenceStaysValid(operation, e);
      }
    }
  }

  lemma EvidenceStaysValid(operation: Operation, e: Evidence)
    requires EvidenceHolds(operation, e)
    ensures EvidenceIsValid(ToSet(StepNames(operation.steps)), e)
  {
    var steps := operation.steps;
    var found := FindStep(steps, e.step).value;
    hide Name, FindStep, EvidenceFactsHold, IdempotencyBindingExists;
    var i :| 0 <= i < |steps| && steps[i] == found;
    assert StepNames(steps)[i] == Name(e.step);
  }

  lemma OperationStaysValid(env: Environment, m: Manifest, operation: Operation)
    requires Compiles(env, m) && operation in m.operations && IdsAreMade(operation)
    ensures OperationIsOfManifest(m, operation)
  {
    DistinctNames(StepIds(operation.steps), StepNames(operation.steps));
    assert EffectHolds(operation) && ErrorMapResolves(operation.errorMap, operation.steps);
    EffectStaysValid(operation);
    assert OperationBelongs(m, operation) && OperationTexts(operation);
    forall step | step in operation.steps ensures StepIsValid(operation, step) {
      assert OperationResolves(m, operation) && StepHeadersHold(env, operation, step);
      StepStaysValid(env, m, operation, step);
    }
  }

  /** Every manifest the compiler accepts, the older validator accepts. */
  lemma CompilerRefinesValidator(env: Environment, m: Manifest)
    requires Compiles(env, m) && forall operation | operation in m.operations :: IdsAreMade(operation)
    ensures IsValid(m)
  {
    forall operation | operation in m.operations ensures OperationIsOfManifest(m, operation) {
      OperationStaysValid(env, m, operation);
    }
    forall c | c in m.credentials ensures CredentialIsValid(m, c) {
      assert CredentialHolds(m, c);
    }
  }

  // ----- Origins and credentials

  /** Origins that agree field by field are one origin, so an operation cannot redefine what its manifest declares. */
  lemma SameOriginIffEqual(left: FixedOrigin, right: FixedOrigin)
    ensures SameOrigin(left, right) <==> left == right
  {
  }

  /** After the credentials pass every step goes to an origin exactly as the manifest declares it, and to only one. */
  lemma StepsReachDeclaredOrigins(m: Manifest, operation: Operation, step: Step) returns (origin: FixedOrigin)
    requires CredentialsHold(m) && operation in m.operations && step in operation.steps
    ensures origin in m.origins && origin in operation.origins && origin.origin == step.origin
    ensures forall other | other in m.origins + operation.origins && other.origin == step.origin :: other == origin
  {
    assert OperationResolves(m, operation);
    var credential :| ResolvesTo(m.credentials, operation.credential, credential)
      && forall s | s in operation.steps :: StepResolves(operation, s, credential);
    assert StepResolves(operation, step, credential);
    hide CredentialsHold, StepResolves, OperationResolves, ResolvesTo;
    var i :| 0 <= i < |operation.origins| && OriginIds(operation.origins)[i] == step.origin;
    origin := operation.origins[i];
    forall o | o in operation.origins ensures o in m.origins {
      var declared :| declared in m.origins && SameOrigin(o, declared);
      SameOriginIffEqual(o, declared);
    }
    forall other | other in m.origins + operation.origins && other.origin == step.origin ensures other == origin {
      OneOriginPerId(m.origins, other, origin);
    }
  }

  /** After it a step carries a credential exactly when its operation names one, and only where that may go. */
  lemma CredentialsStayAtAllowedOrigins(m: Manifest, operation: Operation, step: Step)
    requires CredentialsHold(m) && operation in m.operations && step in operation.steps
    ensures step.credentialAction.Some? <==> operation.credential.Some?
    ensures operation.credential.Some? ==> exists c | c in m.credentials ::
      && c.identity == operation.credential.value && step.credentialAction == Some(c.identity.id)
      && step.origin in c.allowedOrigins
    ensures forall c, d | c in m.credentials && d in m.credentials && c.identity == d.identity :: c == d
  {
    assert OperationResolves(m, operation);
    var credential :| ResolvesTo(m.credentials, operation.credential, credential)
      && forall s | s in operation.steps :: StepResolves(operation, s, credential);
    assert StepResolves(operation, step, credential);
    assert CredentialActionHolds(step, credential);
    hide CredentialsHold, StepResolves, OperationResolves;
    forall c, d | c in m.credentials && d in m.credentials && c.identity == d.identity ensures c == d {
      OneCredentialPerId(m.credentials, c, d);
    }
  }

  // ----- Idempotency evidence

  ghost predicate IsEvidenceFor(operation: Operation, k: nat, step: Step) {
    && operation.effect.ProviderIdempotent? && k < |operation.effect.evidence|
    && operation.effect.evidence[k].step == step.step
  }

  lemma EvidenceNamesItsSteps(operation: Operation, evidence: seq<Evidence>)
    requires operation.effect == ProviderIdempotent(evidence) && EffectHolds(operation)
    ensures ToSet(EvidenceSteps(evidence)) <= ToSet(StepIds(operation.steps))
  {
    var steps := operation.steps;
    forall k | 0 <= k < |evidence| ensures evidence[k].step in StepIds(steps) {
      assert EvidenceHolds(operation, evidence[k]);
      var found := FindStep(steps, evidence[k].step).value;
      var i :| 0 <= i < |steps| && steps[i] == found;
      assert StepIds(steps)[i] == evidence[k].step;
      hide FindStep, EvidenceFactsHold, IdempotencyBindingExists;
    }
  }

  lemma KeyIsThere(keys: seq<Id>, slots: seq<Id>, i: nat) returns (k: nat)
    requires i < |slots| && ToSet(keys) == ToSet(slots)
    ensures k < |keys| && keys[k] == slots[i]
  {
    assert slots[i] in ToSet(slots);
    k :| 0 <= k < |keys| && keys[k] == slots[i];
  }

  lemma OnePositionPerKey(keys: seq<Id>, j: nat, k: nat)
    requires Distinct(keys) && j < |keys| && k < |keys| && keys[j] == keys[k]
    ensures j == k
  {
  }

  /** Equal counts, distinct records and known steps: each step has one evidence record, and only one. */
  lemma EvidenceCoversEveryStep(operation: Operation, step: Step) returns (k: nat)
    requires operation.effect.ProviderIdempotent? && EffectHolds(operation) && step in operation.steps
    ensures IsEvidenceFor(operation, k, step)
    ensures forall j: nat | IsEvidenceFor(operation, j, step) :: j == k
    ensures Distinct(StepIds(operation.steps))
  {
    var evidence := operation.effect.evidence;
    var keys, slots := EvidenceSteps(evidence), StepIds(operation.steps);
    EvidenceNamesItsSteps(operation, evidence);
    assert Distinct(keys);
    hide EffectHolds, EvidenceHolds, ToSet;
    Pigeonhole(keys, slots);
    var i :| 0 <= i < |operation.steps| && operation.steps[i] == step;
    k := KeyIsThere(keys, slots, i);
    forall j: nat | IsEvidenceFor(operation, j, step) ensures j == k {
      OnePositionPerKey(keys, j, k);
    }
  }

  lemma OneStepPerId(steps: seq<Step>, a: Step, b: Step)
    requires Distinct(StepIds(steps)) && a in steps && b in steps && a.step == b.step
    ensures a == b
  {
    var i :| 0 <= i < |steps| && steps[i] == a;
    var j :| 0 <= j < |steps| && steps[j] == b;
    hide Distinct;
    assert StepIds(steps)[i] == StepIds(steps)[j];
    OnePositionPerKey(StepIds(steps), i, j);
  }

  lemma {:induction false} FactIsFound(facts: seq<Fact>, fact: Fact)
    requires Distinct(UseSites(facts)) && fact in facts
    ensures FactsAt(facts, fact.useSite) == [fact.value]
  {
    var rest := facts[1..];
    assert UseSites(facts) == [facts[0].useSite] + UseSites(rest);
    DistinctCons(facts[0].useSite, UseSites(rest));
    if fact in rest {
      var i :| 0 <= i < |rest| && rest[i] == fact;
      assert UseSites(rest)[i] == fact.useSite;
      FactIsFound(rest, fact);
    } else {
      assert facts[0] == fact;
      NoFactIsFound(rest, fact.useSite);
    }
  }

  lemma {:induction false} NoFactIsFound(facts: seq<Fact>, site: string)
    requires site !in UseSites(facts)
    ensures FactsAt(facts, site) == []
  {
    if facts != [] {
      assert UseSites(facts) == [facts[0].useSite] + UseSites(facts[1..]);
      NoFactIsFound(facts[1..], site);
    }
  }

  lemma {:induction false} DistinctWithin(operations: seq<Operation>, n: nat, i: nat)
    requires i < n <= |operations| && Distinct(UseSitesUpTo(operations, n))
    ensures Distinct(UseSites(operations[i].facts))
  {
    DistinctConcat(UseSitesUpTo(operations, n - 1), UseSites(operations[n - 1].facts));
    hide Distinct, UseSites;
    if i < n - 1 {
      DistinctWithin(operations, n - 1, i);
    }
  }

  /** Whatever facts the operation declares about the evidence say what the evidence says. */
  ghost predicate FactsAgree(operation: Operation, e: Evidence) {
    var id, step := Name(operation.identity.id), Name(e.step);
    forall fact | fact in operation.facts ::
      && (fact.useSite == ScopeSite(id, step) ==> fact.value == TextContent(e.scope))
      && (fact.useSite == RetentionSite(id, step) ==> fact.value == U64Content(e.minimumRetentionMs))
      && (fact.useSite == MarginSite(id, step) ==> fact.value == U64Content(e.clockSafetyMarginMs))
  }

  lemma DeclaredFactsAgree(operation: Operation, e: Evidence)
    requires EvidenceFactsHold(operation, e) && Distinct(UseSites(operation.facts))
    ensures FactsAgree(operation, e)
  {
    forall fact | fact in operation.facts ensures FactsAt(operation.facts, fact.useSite) == [fact.value] {
      FactIsFound(operation.facts, fact);
    }
    hide Name, ScopeSite, RetentionSite, MarginSite, FactsAt, Distinct, UseSites;
  }

  /** After the effects pass: one record per step, bound to something the step sends, lasting longer than its margin. */
  lemma AcceptedEvidenceIsComplete(m: Manifest, operation: Operation, step: Step) returns (k: nat)
    requires EffectsHold(m) && FactSitesHold(m) && operation in m.operations && step in operation.steps
    requires operation.effect.ProviderIdempotent?
    ensures IsEvidenceFor(operation, k, step)
    ensures forall j: nat | IsEvidenceFor(operation, j, step) :: j == k
    ensures var e := operation.effect.evidence[k];
      && IdempotencyBindingExists(step, e.binding)
      && e.clockSafetyMarginMs < e.minimumRetentionMs
      && FactsAgree(operation, e)
  {
    assert EffectHolds(operation);
    k := EvidenceCoversEveryStep(operation, step);
    var e := operation.effect.evidence[k];
    assert EvidenceHolds(operation, e);
    OneStepPerId(operation.steps, FindStep(operation.steps, e.step).value, step);
    var i :| 0 <= i < |m.operations| && m.operations[i] == operation;
    DistinctWithin(m.operations, |m.operations|, i);
    DeclaredFactsAgree(operation, e);
  }

  // ----- Fact domains

  lemma {:induction false} FactSitesAreNamed(provenance: seq<Provenance>, n: nat)
    requires n <= |provenance| && forall reference | reference in provenance :: ProvenanceTexts(reference)
    ensures "" !in FactSitesUpTo(provenance, n)
  {
    if n > 0 {
      FactSitesAreNamed(provenance, n - 1);
      assert ProvenanceTexts(provenance[n - 1]);
    }
  }

  /** After the passes before it, the fact-domain derivation cannot fail. */
  lemma FactCheckCannotFail(m: Manifest)
    requires ManifestTexts(m) && FactSitesHold(m)
    ensures RequiredDomains(m.operations).Some?
  {
    FailsIffEmptyOrRepeated(m.operations);
    FactSitesAreNamed(m.provenance, |m.provenance|);
    hide AllUseSites, AllFactSites, ManifestTexts;
    assert "" !in ToSet(AllFactSites(m.provenance));
    assert "" !in ToSet(AllUseSites(m.operations));
  }

  lemma SitesAreSpelled(operation: string, step: string)
    ensures var prefix := "operation." + operation + ".step." + step;
      && MarginSite(operation, step) == prefix + ".idempotency.clock_safety_margin_ms"
      && ScopeSite(operation, step) == prefix + ".idempotency.scope"
      && RetentionSite(operation, step) == prefix + ".idempotency.minimum_retention_ms"
  {
    hide *;
    SiteIsSpelled(operation, step, "clock_safety_margin_ms");
    SiteIsSpelled(operation, step, "scope");
    SiteIsSpelled(operation, step, "minimum_retention_ms");
    MarginEnds();
    ScopeEnds();
    RetentionEnds();
    SitesAre(operation, step);
  }

  lemma SitesAre(operation: string, step: string)
    ensures MarginSite(operation, step) == Site(operation, step, "clock_safety_margin_ms")
    ensures ScopeSite(operation, step) == Site(operation, step, "scope")
    ensures RetentionSite(operation, step) == Site(operation, step, "minimum_retention_ms")
  {
    hide Site;
  }

  lemma SiteIsSpelled(operation: string, step: string, fact: string)
    ensures Site(operation, step, fact) == "operation." + operation + ".step." + step + (".idempotency." + fact)
  {
  }

  lemma MarginEnds()
    ensures ".idempotency." + "clock_safety_margin_ms" == ".idempotency.clock_safety_margin_ms"
  {
  }

  lemma ScopeEnds()
    ensures ".idempotency." + "scope" == ".idempotency.scope"
  {
  }

  lemma RetentionEnds()
    ensures ".idempotency." + "minimum_retention_ms" == ".idempotency.minimum_retention_ms"
  {
  }

  /** Coinciding names never take an operation's own margin from it, nor its scope and retention from the provider. */
  lemma OwnSitesKeepTheirDomain(operations: seq<Operation>, i: nat, e: Evidence, site: string)
    requires RequiredDomains(operations).Some? && i < |operations|
    requires e in EvidenceOf(operations[i]) && site in UseSites(operations[i].facts)
    ensures site in RequiredDomains(operations).value
    ensures var id, step := Name(operations[i].identity.id), Name(e.step);
      var domain := RequiredDomains(operations).value[site];
      var prefix := "operation." + id + ".step." + step;
      && (site == prefix + ".idempotency.clock_safety_margin_ms" ==> domain == DonatPolicy)
      && (site == prefix + ".idempotency.scope" ==> domain == ProviderEvidence)
      && (site == prefix + ".idempotency.minimum_retention_ms" ==> domain == ProviderEvidence)
  {
    SitesAreSpelled(Name(operations[i].identity.id), Name(e.step));
    var id, step := Name(operations[i].identity.id), Name(e.step);
    if site == MarginSite(id, step) {
      assert IsMargin(operations[i], site);
      OwnMarginIsPolicy(operations, i, site);
    }
    DeclaredUpTo(operations, |operations|, site);
    hide RequiredDomains, HasMarginShape, MarginSite, ScopeSite, RetentionSite, IsMargin, UseSitesUpTo, UseSites;
    FailsIffEmptyOrRepeated(operations);
    PolicyIffOwnedByMargin(operations, site);
    MarginShape(id, step);
  }

  // ----- Error correlations

  lemma {:induction false} CountsOneHeader(headers: seq<SelectedHeader>, name: Option<string>, capability: Id)
    requires Distinct(HeaderCapabilities(headers))
    ensures CountHeaders(headers, name, capability) <= 1
    ensures CountHeaders(headers, name, capability) == 1
      <==> exists selected | selected in headers :: Selects(selected, name, capability)
  {
    if headers != [] {
      var first, rest := headers[0], headers[1..];
      assert HeaderCapabilities(headers) == [first.capability] + HeaderCapabilities(rest);
      DistinctCons(first.capability, HeaderCapabilities(rest));
      CountsOneHeader(rest, name, capability);
      CapabilityListed(rest, name, capability);
      assert headers == [first] + rest;
      hide Distinct, HeaderCapabilities;
    }
  }

  lemma CapabilityListed(headers: seq<SelectedHeader>, name: Option<string>, capability: Id)
    ensures (exists selected | selected in headers :: Selects(selected, name, capability))
      ==> capability in HeaderCapabilities(headers)
  {
    if selected :| selected in headers && Selects(selected, name, capability) {
      var i :| 0 <= i < |headers| && headers[i] == selected;
      assert HeaderCapabilities(headers)[i] == capability;
    }
  }

  lemma {:induction false} NoOtherStepCounts(steps: seq<Step>, step: Id, name: Option<string>, capability: Id)
    requires step !in StepIds(steps)
    ensures CountMatches(steps, step, name, capability) == 0
  {
    if steps != [] {
      assert StepIds(steps) == [steps[0].step] + StepIds(steps[1..]);
      NoOtherStepCounts(steps[1..], step, name, capability);
    }
  }

  lemma {:induction false} CountsInItsStep(steps: seq<Step>, step: Id, name: Option<string>, capability: Id)
    requires Distinct(StepIds(steps))
    ensures CountMatches(steps, step, name, capability)
      == match FindStep(steps, step) {
           case None => 0
           case Some(s) => CountHeaders(s.selectedHeaders, name, capability)
         }
  {
    if steps != [] {
      var first, rest := steps[0], steps[1..];
      assert StepIds(steps) == [first.step] + StepIds(rest);
      DistinctCons(first.step, StepIds(rest));
      hide Distinct, CountHeaders;
      if first.step == step {
        NoOtherStepCounts(rest, step, name, capability);
      } else {
        CountsInItsStep(rest, step, name, capability);
      }
    }
  }

  /** Where steps and capabilities do not repeat, a reference counts once exactly when its step selects the header. */
  lemma CountsOnceIffSelected(steps: seq<Step>, step: Id, name: Option<string>, capability: Id)
    requires Distinct(StepIds(steps))
    requires forall s | s in steps :: Distinct(HeaderCapabilities(s.selectedHeaders))
    ensures CountMatches(steps, step, name, capability) <= 1
    ensures CountMatches(steps, step, name, capability) == 1 <==>
      exists s, selected | s in steps && selected in s.selectedHeaders ::
        s.step == step && Selects(selected, name, capability)
  {
    hide Distinct, Selects;
    CountsInItsStep(steps, step, name, capability);
    match FindStep(steps, step)
    case Some(found) =>
      CountsOneHeader(found.selectedHeaders, name, capability);
      OnlyStep(steps, found);
      hide CountMatches, CountHeaders, FindStep, StepIds;
    case None => NoSuchStep(steps, step);
  }

  /** After both passes a reference to a selected header counts once exactly when its step selects it at all. */
  lemma MatchesOnceIffSelected(env: Environment, m: Manifest, operation: Operation, step: Id, name: Option<string>,
    capability: Id)
    requires StepIdentityHolds(m) && SelectedHeadersHold(env, m) && operation in m.operations
    ensures CountMatches(operation.steps, step, name, capability) <= 1
    ensures CountMatches(operation.steps, step, name, capability) == 1 <==>
      exists s, selected | s in operation.steps && selected in s.selectedHeaders ::
        s.step == step && Selects(selected, name, capability)
  {
    forall s | s in operation.steps ensures Distinct(HeaderCapabilities(s.selectedHeaders)) {
      assert StepHeadersHold(env, operation, s);
    }
    CountsOnceIffSelected(operation.steps, step, name, capability);
  }

  lemma OnlyStep(steps: seq<Step>, found: Step)
    requires Distinct(StepIds(steps)) && found in steps
    ensures forall s | s in steps && s.step == found.step :: s == found
  {
    forall s | s in steps && s.step == found.step ensures s == found {
      OneStepPerId(steps, s, found);
    }
  }

  lemma NoSuchStep(steps: seq<Step>, step: Id)
    requires step !in StepIds(steps)
    ensures forall s | s in steps :: s.step != step
  {
    forall s | s in steps ensures s.step != step {
      var i :| 0 <= i < |steps| && steps[i] == s;
      assert StepIds(steps)[i] == s.step;
    }
  }

  // ----- References that are counted

  predicate IsOnlyAt(operations: seq<Operation>, id: Id, i: nat) {
    && i < |operations| && operations[i].identity.id == id
    && forall j | 0 <= j < |operations| && operations[j].identity.id == id :: j == i
  }

  lemma {:induction false} CountsNoOperation(operations: seq<Operation>, id: Id)
    ensures CountOperations(operations, id) == 0
      <==> forall j | 0 <= j < |operations| :: operations[j].identity.id != id
  {
    if operations != [] {
      CountsNoOperation(operations[1..], id);
      assert forall j | 1 <= j < |operations| :: operations[j] == operations[1..][j - 1];
    }
  }

  /** The count a webhook subscription is checked by is one exactly when one operation, at one version, has the name. */
  lemma {:induction false} CountsOneIffOnlyOperation(operations: seq<Operation>, id: Id)
    ensures CountOperations(operations, id) == 1 <==> exists i: nat :: IsOnlyAt(operations, id, i)
  {
    if operations != [] {
      var rest := operations[1..];
      CountsOneIffOnlyOperation(rest, id);
      CountsNoOperation(rest, id);
      assert forall j | 1 <= j < |operations| :: operations[j] == rest[j - 1];
      if operations[0].identity.id == id {
        if CountOperations(rest, id) == 0 {
          assert IsOnlyAt(operations, id, 0);
        }
      } else if i: nat :| IsOnlyAt(rest, id, i) {
        assert IsOnlyAt(operations, id, i + 1);
      } else if i: nat :| IsOnlyAt(operations, id, i) {
        assert IsOnlyAt(rest, id, i - 1);
      }
    }
  }

  predicate IsOnlyTokenStep(steps: seq<Step>, step: Id, origin: Id, i: nat) {
    && i < |steps| && steps[i].step == step && steps[i].origin == origin
    && forall j | 0 <= j < |steps| && steps[j].step == step && steps[j].origin == origin :: j == i
  }

  lemma {:induction false} CountsNoTokenStep(steps: seq<Step>, step: Id, origin: Id)
    ensures CountTokenSteps(steps, step, origin) == 0
      <==> forall j | 0 <= j < |steps| :: steps[j].step != step || steps[j].origin != origin
  {
    if steps != [] {
      CountsNoTokenStep(steps[1..], step, origin);
      assert forall j | 1 <= j < |steps| :: steps[j] == steps[1..][j - 1];
    }
  }

  /** An OAuth token step is found exactly when one step of all operations has its name and origin. */
  lemma {:induction false} CountsOneIffOnlyTokenStep(steps: seq<Step>, step: Id, origin: Id)
    ensures CountTokenSteps(steps, step, origin) == 1 <==> exists i: nat :: IsOnlyTokenStep(steps, step, origin, i)
  {
    if steps != [] {
      var rest := steps[1..];
      CountsOneIffOnlyTokenStep(rest, step, origin);
      CountsNoTokenStep(rest, step, origin);
      assert forall j | 1 <= j < |steps| :: steps[j] == rest[j - 1];
      if steps[0].step == step && steps[0].origin == origin {
        if CountTokenSteps(rest, step, origin) == 0 {
          assert IsOnlyTokenStep(steps, step, origin, 0);
        }
      } else if i: nat :| IsOnlyTokenStep(rest, step, origin, i) {
        assert IsOnlyTokenStep(steps, step, origin, i + 1);
      } else if i: nat :| IsOnlyTokenStep(steps, step, origin, i) {
        assert IsOnlyTokenStep(rest, step, origin, i - 1);
      }
    }
  }

  // ----- The compiler is stricter

  /** The same operations with no input declared. */
  function Undeclared(operations: seq<Operation>): (r: seq<Operation>)
    ensures |r| == |operations|
  {
    seq(|operations|, i requires 0 <= i < |operations| => operations[i].(inputRoots := {}))
  }

  lemma {:induction false} UndeclaredKeepsSites(operations: seq<Operation>, n: nat)
    requires n <= |operations|
    ensures UseSitesUpTo(Undeclared(operations), n) == UseSitesUpTo(operations, n)
  {
    if n > 0 {
      UndeclaredKeepsSites(operations, n - 1);
    }
  }

  lemma UndeclaredStaysOfManifest(m: Manifest, other: Manifest, operation: Operation)
    requires OperationIsOfManifest(m, operation)
    requires other.connector == m.connector && other.connectorVersion == m.connectorVersion
    ensures OperationIsOfManifest(other, operation.(inputRoots := {}))
  {
    var bare := operation.(inputRoots := {});
    hide ErrorMapResolves, HeadersAreUnambiguous, Ordered, EvidenceIsValid, Distinct;
    forall step | step in bare.steps ensures StepIsValid(bare, step) {
      assert StepIsValid(operation, step);
    }
    assert EffectIsValid(bare) <==> EffectIsValid(operation);
  }

  /**
   * The older validator never looks at what a step sends: it accepts any manifest it accepts with every input
   * declaration taken away. The compiler then accepts only one whose steps send nothing.
   */
  lemma CompilerIsStricter(env: Environment, m: Manifest)
    requires IsValid(m)
    ensures var bare := m.(operations := Undeclared(m.operations));
      && IsValid(bare)
      && (Compiles(env, bare) ==>
          forall operation | operation in m.operations ::
            forall step | step in operation.steps :: BoundFields(step) == [])
  {
    var bare := m.(operations := Undeclared(m.operations));
    UndeclaredStaysValid(m);
    if Compiles(env, bare) {
      forall operation | operation in m.operations
        ensures forall step | step in operation.steps :: BoundFields(step) == []
      {
        UndeclaredSendsNothing(bare, m.operations, operation);
      }
    }
  }

  lemma UndeclaredStaysValid(m: Manifest)
    requires IsValid(m)
    ensures IsValid(m.(operations := Undeclared(m.operations)))
  {
    var bare := m.(operations := Undeclared(m.operations));
    UndeclaredKeepsSites(m.operations, |m.operations|);
    hide OperationIsOfManifest, Distinct;
    forall operation | operation in bare.operations ensures OperationIsOfManifest(bare, operation) {
      var i :| 0 <= i < |m.operations| && bare.operations[i] == operation;
      assert m.operations[i] in m.operations;
      UndeclaredStaysOfManifest(m, bare, m.operations[i]);
    }
    forall c | c in m.credentials ensures CredentialIsValid(bare, c) {
      assert CredentialIsValid(m, c);
    }
  }

  lemma UndeclaredSendsNothing(bare: Manifest, operations: seq<Operation>, operation: Operation)
    requires bare.operations == Undeclared(operations) && operation in operations && CredentialsHold(bare)
    ensures forall step | step in operation.steps :: BoundFields(step) == []
  {
    var i :| 0 <= i < |operations| && operations[i] == operation;
    var other := bare.operations[i];
    assert other in bare.operations && OperationResolves(bare, other);
    var credential :| ResolvesTo(bare.credentials, other.credential, credential)
      && forall step | step in other.steps :: StepResolves(other, step, credential);
    forall step | step in operation.steps ensures BoundFields(step) == [] {
      assert StepResolves(other, step, credential) && BindingsAreClosed(other, step);
      SomeKeyIsThere(BoundFields(step));
    }
  }
}
