/** The compiler's text rules again, not place by place but by what kind of text stands where. */
module TextKinds {
  import opened Wrappers
  import opened Collections
  import opened Manifest
  import opened CatalogText
  import opened JsonPointer
  import opened AcceptedManifests

  // ----- Identifiers

  ghost predicate StepIdentifiers(step: Step) {
    && (forall q | q in step.query :: IsCatalogId(q.binding.field))
    && (forall h | h in step.headers :: IsCatalogId(h.binding.field))
    && (forall field | IsInBody(step.request, field) :: IsCatalogId(field))
    && match step.response {
         case JsonMappings(mappings) => forall r | r in mappings :: IsCatalogId(r.target)
         case RawTarget(target) => IsCatalogId(target)
       }
  }

  ghost predicate OperationIdentifiers(o: Operation) {
    && (forall step | step in o.steps :: StepIdentifiers(step))
    && match o.pagination {
         case Cursor(binding, _) => IsCatalogId(binding)
         case OffsetLimit(offset, limit) => IsCatalogId(offset) && IsCatalogId(limit)
         case PageNumber(page, size) => IsCatalogId(page) && IsCatalogId(size)
         case _ => true
       }
  }

  ghost predicate Identifiers(m: Manifest) {
    && IsCatalogId(m.provider) && IsCatalogId(m.apiIdentity)
    && (forall o | o in m.origins && o.networkPolicy.PrivateAllowed? :: IsCatalogId(o.networkPolicy.policy))
    && (forall o | o in m.operations :: OperationIdentifiers(o))
    && (forall r | r in m.provenance :: forall site | site in r.factSites :: IsCatalogId(site))
  }

  // ----- Names of headers and of query parameters

  predicate StepNames(step: Step) {
    && (forall q | q in step.query :: IsQueryKey(q.name))
    && (forall h | h in step.headers :: IsHeaderName(h.name))
    && (forall selected | selected in step.selectedHeaders :: IsHeaderName(selected.name))
  }

  predicate OperationNames(o: Operation) {
    && (forall step | step in o.steps :: StepNames(step))
    && (forall rule | rule in o.errorMap.rules && rule.matcher.HeaderMatch? :: IsHeaderName(rule.matcher.name))
  }

  predicate Names(m: Manifest) {
    && (forall c | c in m.credentials && c.authPlan.FixedHeaderApiKey? :: IsHeaderName(c.authPlan.header))
    && (forall c | c in m.credentials && c.authPlan.FixedQueryApiKey? :: IsQueryKey(c.authPlan.query))
    && (forall o | o in m.operations :: OperationNames(o))
    && (forall t | t in m.triggers && t.source.Webhook? ::
          forall header | header in t.source.selectedHeaders :: IsHeaderName(header))
  }

  // ----- JSON pointers

  predicate OperationPointers(o: Operation) {
    && (forall step | step in o.steps && step.response.JsonMappings? ::
          forall r | r in step.response.mappings :: ValidJsonPointer(r.pointer))
    && (o.pagination.Cursor? ==> ValidJsonPointer(o.pagination.responsePointer))
    && (forall rule | rule in o.errorMap.rules && rule.matcher.ProviderCode? :: ValidJsonPointer(rule.matcher.pointer))
  }

  predicate Pointers(m: Manifest) {
    && (forall c | c in m.credentials && c.authPlan.OAuth2ClientCredentials? ::
          ValidJsonPointer(c.authPlan.tokenPointer))
    && (forall o | o in m.operations :: OperationPointers(o))
  }

  // ----- Tokens and values

  predicate StepTokens(step: Step) {
    && (forall q | q in step.query && q.binding.mapping.Some? :: IsCatalogToken(q.binding.mapping.value))
    && (forall h | h in step.headers && h.binding.mapping.Some? :: IsCatalogToken(h.binding.mapping.value))
  }

  predicate MatcherTokens(matcher: Matcher) {
    match matcher
    case ProviderCode(_, codes) => codes != [] && forall code | code in codes :: IsCatalogToken(code)
    case HeaderMatch(_, values) => values != [] && forall value | value in values :: IsHeaderValue(value)
    case _ => true
  }

  predicate OperationTokens(o: Operation) {
    && (forall step | step in o.steps :: StepTokens(step))
    && (o.pagination.LinkRelation? ==> IsCatalogToken(o.pagination.relation))
    && (forall rule | rule in o.errorMap.rules :: MatcherTokens(rule.matcher))
  }

  predicate Tokens(m: Manifest) {
    && (forall c | c in m.credentials :: forall scope | scope in c.scopes :: IsCatalogToken(scope))
    && (forall c | c in m.credentials && c.authPlan.OAuth2ClientCredentials? ::
          forall scope | scope in c.authPlan.scopes :: IsCatalogToken(scope))
    && (forall o | o in m.operations :: OperationTokens(o))
    && (forall r | r in m.provenance :: IsLicenseIdentity(r.licenseId))
  }

  // ----- Hosts, requests and status ranges

  predicate IsRequest(step: Step) {
    && step.httpMethod in {"DELETE", "GET", "HEAD", "OPTIONS", "PATCH", "POST", "PUT"}
    && IsPathTemplate(step.path)
    && forall range | range in step.successStatuses :: range.minimum <= range.maximum
  }

  predicate OperationRequests(o: Operation) {
    && (forall origin | origin in o.origins :: IsDnsName(origin.host))
    && (forall step | step in o.steps :: IsRequest(step))
    && (forall rule | rule in o.errorMap.rules && rule.matcher.Status? ::
          rule.matcher.range.minimum <= rule.matcher.range.maximum)
  }

  predicate Requests(m: Manifest) {
    && (forall o | o in m.origins :: IsDnsName(o.host))
    && (forall o | o in m.operations :: OperationRequests(o))
  }

  // ----- Processors

  predicate IsRevised(p: Processor) { p.revision > 0 }

  predicate OperationProcessors(o: Operation) {
    && (forall p | p in o.preRequestTransforms :: IsRevised(p))
    && (forall p | p in o.postResponseTransforms :: IsRevised(p))
    && (o.processor.Some? ==> IsRevised(o.processor.value))
    && (o.pagination.ByProcessor? ==> IsRevised(o.pagination.processor))
  }

  predicate Processors(m: Manifest) {
    && (forall c | c in m.credentials && c.authProcessor.Some? :: IsRevised(c.authProcessor.value))
    && (forall o | o in m.operations :: OperationProcessors(o))
    && (forall t | t in m.triggers && t.source.Poll? :: IsRevised(t.source.processor))
    && (forall t | t in m.triggers && t.source.Webhook? ::
          IsRevised(t.source.authenticator) && IsRevised(t.source.codec) && IsRevised(t.source.normalizer))
  }

  // ----- Both readings

  ghost predicate StepKinds(step: Step) {
    && StepIdentifiers(step) && StepNames(step) && StepTokens(step) && IsRequest(step)
    && (step.response.JsonMappings? ==> forall r | r in step.response.mappings :: ValidJsonPointer(r.pointer))
  }

  lemma StepTextsIff(step: Step)
    ensures StepTexts(step) <==> StepKinds(step)
  {
    BodyFieldsAre(step.request);
    hide IsCatalogId, IsQueryKey, IsHeaderName, IsCatalogToken, ValidJsonPointer, IsPathTemplate, BodyFields, IsInBody;
    assert forall field :: field in BodyFields(step.request) <==> field in ToSet(BodyFields(step.request));
  }

  ghost predicate OperationKinds(o: Operation) {
    && OperationIdentifiers(o) && OperationNames(o) && OperationPointers(o) && OperationTokens(o)
    && OperationRequests(o) && OperationProcessors(o)
  }

  ghost predicate StepsKinds(o: Operation) { forall step | step in o.steps :: StepKinds(step) }

  lemma StepsIff(o: Operation)
    ensures (forall step | step in o.steps :: StepTexts(step)) <==> StepsKinds(o)
    ensures StepsKinds(o) <==>
      && (forall step | step in o.steps :: StepIdentifiers(step))
      && (forall step | step in o.steps :: StepNames(step))
      && (forall step | step in o.steps :: StepTokens(step))
      && (forall step | step in o.steps :: IsRequest(step))
      && (forall step | step in o.steps && step.response.JsonMappings? ::
            forall r | r in step.response.mappings :: ValidJsonPointer(r.pointer))
  {
    forall step ensures StepTexts(step) <==> StepKinds(step) {
      StepTextsIff(step);
    }
    hide StepTexts, StepIdentifiers, StepNames, StepTokens, IsRequest, ValidJsonPointer;
  }

  lemma OperationTextsIff(o: Operation)
    ensures OperationTexts(o) <==> OperationKinds(o)
  {
    hide StepTexts, StepsKinds, StepIdentifiers, StepNames, StepTokens, IsRequest;
    hide IsCatalogId, IsHeaderName, IsHeaderValue, IsCatalogToken, ValidJsonPointer, IsDnsName;
    StepsIff(o);
    TransformsIff(o.preRequestTransforms, o.postResponseTransforms);
  }

  lemma TransformsIff(before: seq<Processor>, after: seq<Processor>)
    ensures (forall p | p in before + after :: p.revision != 0)
      <==> (forall p | p in before :: IsRevised(p)) && (forall p | p in after :: IsRevised(p))
  {
    assert forall p | p in before :: p in before + after;
    assert forall p | p in after :: p in before + after;
  }

  predicate CredentialKinds(c: Credential) {
    && (c.authProcessor.Some? ==> IsRevised(c.authProcessor.value))
    && (forall scope | scope in c.scopes :: IsCatalogToken(scope))
    && (c.authPlan.FixedHeaderApiKey? ==> IsHeaderName(c.authPlan.header))
    && (c.authPlan.FixedQueryApiKey? ==> IsQueryKey(c.authPlan.query))
    && (c.authPlan.OAuth2ClientCredentials? ==> ValidJsonPointer(c.authPlan.tokenPointer))
    && (c.authPlan.OAuth2ClientCredentials? ==> forall scope | scope in c.authPlan.scopes :: IsCatalogToken(scope))
  }

  lemma CredentialTextsIff(c: Credential)
    ensures CredentialTexts(c) <==> CredentialKinds(c)
  {
    hide IsHeaderName, IsQueryKey, IsCatalogToken, ValidJsonPointer;
  }

  lemma TriggersAndSourcesIff(m: Manifest)
    ensures (forall t | t in m.triggers :: TriggerTexts(t)) <==>
      && (forall t | t in m.triggers && t.source.Webhook? ::
            forall header | header in t.source.selectedHeaders :: IsHeaderName(header))
      && (forall t | t in m.triggers && t.source.Poll? :: IsRevised(t.source.processor))
      && (forall t | t in m.triggers && t.source.Webhook? ::
            IsRevised(t.source.authenticator) && IsRevised(t.source.codec) && IsRevised(t.source.normalizer))
    ensures (forall r | r in m.provenance :: ProvenanceTexts(r)) <==>
      && (forall r | r in m.provenance :: forall site | site in r.factSites :: IsCatalogId(site))
      && (forall r | r in m.provenance :: IsLicenseIdentity(r.licenseId))
  {
    hide IsHeaderName, IsCatalogId, IsLicenseIdentity;
  }

  lemma CredentialsIff(m: Manifest)
    ensures (forall c | c in m.credentials :: CredentialTexts(c)) <==>
      && (forall c | c in m.credentials && c.authProcessor.Some? :: IsRevised(c.authProcessor.value))
      && (forall c | c in m.credentials :: forall scope | scope in c.scopes :: IsCatalogToken(scope))
      && (forall c | c in m.credentials && c.authPlan.FixedHeaderApiKey? :: IsHeaderName(c.authPlan.header))
      && (forall c | c in m.credentials && c.authPlan.FixedQueryApiKey? :: IsQueryKey(c.authPlan.query))
      && (forall c | c in m.credentials && c.authPlan.OAuth2ClientCredentials? ::
            ValidJsonPointer(c.authPlan.tokenPointer))
      && (forall c | c in m.credentials && c.authPlan.OAuth2ClientCredentials? ::
            forall scope | scope in c.authPlan.scopes :: IsCatalogToken(scope))
  {
    forall c | c in m.credentials ensures CredentialTexts(c) <==> CredentialKinds(c) {
      CredentialTextsIff(c);
    }
    hide CredentialTexts, IsHeaderName, IsQueryKey, IsCatalogToken, ValidJsonPointer;
  }

  lemma OperationsIff(m: Manifest)
    ensures (forall o | o in m.operations :: OperationTexts(o)) <==>
      && (forall o | o in m.operations :: OperationIdentifiers(o))
      && (forall o | o in m.operations :: OperationNames(o))
      && (forall o | o in m.operations :: OperationPointers(o))
      && (forall o | o in m.operations :: OperationTokens(o))
      && (forall o | o in m.operations :: OperationRequests(o))
      && (forall o | o in m.operations :: OperationProcessors(o))
  {
    forall o ensures OperationTexts(o) <==> OperationKinds(o) {
      OperationTextsIff(o);
    }
    hide OperationTexts, OperationIdentifiers, OperationNames, OperationPointers, OperationTokens, OperationRequests;
    hide OperationProcessors;
  }

  /** Every text of a manifest is checked, each for the kind of text it is. */
  lemma ManifestTextsIff(m: Manifest)
    ensures ManifestTexts(m) <==>
      Identifiers(m) && Names(m) && Pointers(m) && Tokens(m) && Requests(m) && Processors(m)
  {
    hide OperationTexts, CredentialTexts, TriggerTexts, ProvenanceTexts;
    hide IsCatalogId, IsHeaderName, IsQueryKey, IsCatalogToken, ValidJsonPointer, IsDnsName, IsLicenseIdentity;
    hide OperationIdentifiers, OperationNames, OperationPointers, OperationTokens, OperationRequests;
    hide OperationProcessors, IsRevised;
    OperationsIff(m);
    CredentialsIff(m);
    TriggersAndSourcesIff(m);
  }
}
