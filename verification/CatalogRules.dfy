/** What each pass of the catalog compiler requires of a manifest. */
module CatalogRules {
  import opened Wrappers
  import opened Collections
  import opened Manifest
  import opened FactDomains

  /** What the compiler calls and this model does not define. */
  datatype Environment = Environment(
    selectedHeader: (Id, Reference, Id, string) -> Option<SelectedHeader>,
    contractsAgree: Operation -> bool,
    provenanceAdmitted: (Manifest, Domains) -> bool)

  // ----- Structure

  predicate IsComplete(m: Manifest) {
    && m.manifestVersion != 0 && m.runtimeAbiEpoch != 0 && m.valueLanguageEpoch != 0
    && m.origins != [] && m.operations != [] && m.provenance != []
  }

  predicate StructureHolds(m: Manifest) {
    && IsComplete(m)
    && (forall c | c in m.credentials :: c.fields != [] && c.allowedOrigins != [])
    && forall operation | operation in m.operations ::
         && operation.origins != [] && operation.steps != []
         && forall step | step in operation.steps :: step.successStatuses != []
  }

  predicate StepIdentityHolds(m: Manifest) {
    forall operation | operation in m.operations :: Distinct(StepIds(operation.steps))
  }

  // ----- Credentials

  function CountTokenSteps(steps: seq<Step>, step: Id, origin: Id): nat {
    if steps == [] then 0
    else
      (if steps[0].step == step && steps[0].origin == origin then 1 else 0)
      + CountTokenSteps(steps[1..], step, origin)
  }

  function AllSteps(operations: seq<Operation>): seq<Step> {
    if operations == [] then [] else operations[0].steps + AllSteps(operations[1..])
  }

  predicate AuthPlanResolves(m: Manifest, c: Credential) {
    match c.authPlan
    case FixedHeaderApiKey(field, _) => field in c.fields
    case FixedQueryApiKey(field, _) => field in c.fields
    case Bearer(token) => token in c.fields
    case PreprovisionedOAuthAccessToken(token) => token in c.fields
    case HttpBasic(username, password) => username in c.fields && password in c.fields
    case OAuth2ClientCredentials(clientId, clientSecret, tokenOrigin, tokenStep, _, _) =>
      && clientId in c.fields && clientSecret in c.fields
      && tokenOrigin in c.allowedOrigins
      && CountTokenSteps(AllSteps(m.operations), tokenStep, tokenOrigin) == 1
  }

  predicate CredentialHolds(m: Manifest, c: Credential) {
    && Distinct(c.fields)
    && ToSet(c.allowedOrigins) <= ToSet(OriginIds(m.origins))
    && (c.testOperation.Some? ==> c.testOperation.value in OperationIds(m.operations))
    && AuthPlanResolves(m, c)
  }

  predicate SameOrigin(left: FixedOrigin, right: FixedOrigin) {
    && left.origin == right.origin && left.host == right.host && left.port == right.port
    && match (left.networkPolicy, right.networkPolicy) {
         case (PublicOnly, PublicOnly) => true
         case (PrivateAllowed(l), PrivateAllowed(r)) => l == r
         case _ => false
       }
  }

  function BoundBy(bindings: seq<NamedBinding>): (r: seq<string>)
    ensures |r| == |bindings|
  {
    seq(|bindings|, i requires 0 <= i < |bindings| => bindings[i].binding.field)
  }

  /** Every input field a step sends, in the query, the headers and the body. */
  function BoundFields(step: Step): seq<string> {
    BoundBy(step.query) + BoundBy(step.headers) + BodyFields(step.request)
  }

  predicate BindingsAreClosed(operation: Operation, step: Step) {
    Distinct(BoundFields(step)) && ToSet(BoundFields(step)) <= operation.inputRoots
  }

  predicate CredentialActionHolds(step: Step, credential: Option<Credential>) {
    match (step.credentialAction, credential)
    case (None, None) => true
    case (Some(action), Some(spec)) => action == spec.identity.id && step.origin in spec.allowedOrigins
    case _ => false
  }

  predicate StepResolves(operation: Operation, step: Step, credential: Option<Credential>) {
    && step.origin in OriginIds(operation.origins)
    && CredentialActionHolds(step, credential)
    && BindingsAreClosed(operation, step)
  }

  ghost predicate ResolvesTo(
    credentials: seq<Credential>, reference: Option<Reference>, credential: Option<Credential>)
  {
    match reference
    case None => credential.None?
    case Some(r) => credential.Some? && credential.value in credentials && credential.value.identity == r
  }

  predicate OriginsAreDeclared(m: Manifest, operation: Operation) {
    && Distinct(OriginIds(operation.origins))
    && forall origin | origin in operation.origins ::
         exists declared | declared in m.origins :: SameOrigin(origin, declared)
  }

  ghost predicate OperationResolves(m: Manifest, operation: Operation) {
    && OriginsAreDeclared(m, operation)
    && exists credential | ResolvesTo(m.credentials, operation.credential, credential) ::
         forall step | step in operation.steps :: StepResolves(operation, step, credential)
  }

  ghost predicate CredentialsHold(m: Manifest) {
    && Distinct(OriginIds(m.origins))
    && Distinct(CredentialIds(m.credentials))
    && (forall c | c in m.credentials :: CredentialHolds(m, c))
    && forall operation | operation in m.operations :: OperationResolves(m, operation)
  }

  // ----- Selected headers and error maps

  predicate HeaderIsDerived(env: Environment, operation: Operation, step: Step, selected: SelectedHeader) {
    env.selectedHeader(operation.connector, operation.identity, step.step, selected.name) == Some(selected)
  }

  predicate StepHeadersHold(env: Environment, operation: Operation, step: Step) {
    && |step.selectedHeaders| <= 64
    && (forall selected | selected in step.selectedHeaders :: HeaderIsDerived(env, operation, step, selected))
    && Distinct(HeaderNames(step.selectedHeaders))
    && Distinct(HeaderCapabilities(step.selectedHeaders))
  }

  predicate SelectedHeadersHold(env: Environment, m: Manifest) {
    forall operation | operation in m.operations :: forall step | step in operation.steps ::
      StepHeadersHold(env, operation, step)
  }

  predicate Selects(selected: SelectedHeader, name: Option<string>, capability: Id) {
    (name.Some? ==> selected.name == name.value) && selected.capability == capability
  }

  function CountHeaders(headers: seq<SelectedHeader>, name: Option<string>, capability: Id): nat {
    if headers == [] then 0
    else (if Selects(headers[0], name, capability) then 1 else 0) + CountHeaders(headers[1..], name, capability)
  }

  /** How many selected headers of the named step there are for a capability, and for a name when one is given. */
  function CountMatches(steps: seq<Step>, step: Id, name: Option<string>, capability: Id): nat {
    if steps == [] then 0
    else
      (if steps[0].step == step then CountHeaders(steps[0].selectedHeaders, name, capability) else 0)
      + CountMatches(steps[1..], step, name, capability)
  }

  predicate ActionResolves(action: ErrorAction, steps: seq<Step>) {
    && (forall c | c in action.correlations :: CountMatches(steps, c.step, Some(c.name), c.capability) == 1)
    && match action.retryAfter {
         case Never => true
         case RetryAfterHeader(step, capability, _) => CountMatches(steps, step, None, capability) == 1
       }
  }

  predicate ErrorMapResolves(errorMap: ErrorMap, steps: seq<Step>) {
    forall action | action in Actions(errorMap) :: ActionResolves(action, steps)
  }

  predicate ErrorMapsHold(m: Manifest) {
    forall operation | operation in m.operations :: ErrorMapResolves(operation.errorMap, operation.steps)
  }

  // ----- Effects

  function FindStep(steps: seq<Step>, step: Id): (r: Option<Step>)
    ensures r.Some? ==> r.value in steps && r.value.step == step
    ensures r.None? ==> step !in StepIds(steps)
  {
    if steps == [] then None
    else if steps[0].step == step then Some(steps[0])
    else
      assert StepIds(steps) == [steps[0].step] + StepIds(steps[1..]);
      FindStep(steps[1..], step)
  }

  predicate IdempotencyBindingExists(step: Step, binding: IdempotencyBinding) {
    match binding
    case HeaderBinding(name) => exists header | header in step.headers :: header.name == name
    case BodyField(pointer) => pointer in BodyFields(step.request)
  }

  /** The positions of the facts for a use site. */
  function FactsAt(facts: seq<Fact>, site: string): seq<FactContent> {
    if facts == [] then []
    else if facts[0].useSite == site then [facts[0].value] + FactsAt(facts[1..], site)
    else FactsAt(facts[1..], site)
  }

  /** A fact that is there exactly once agrees with the effect. */
  predicate OptionalFactHolds(facts: seq<Fact>, site: string, expected: FactContent) {
    var found := FactsAt(facts, site);
    |found| == 1 ==> found[0] == expected
  }

  predicate EvidenceFactsHold(operation: Operation, evidence: Evidence) {
    var id, step := Name(operation.identity.id), Name(evidence.step);
    && OptionalFactHolds(operation.facts, ScopeSite(id, step), TextContent(evidence.scope))
    && OptionalFactHolds(operation.facts, RetentionSite(id, step), U64Content(evidence.minimumRetentionMs))
    && OptionalFactHolds(operation.facts, MarginSite(id, step), U64Content(evidence.clockSafetyMarginMs))
  }

  predicate EvidenceHolds(operation: Operation, evidence: Evidence) {
    var step := FindStep(operation.steps, evidence.step);
    && step.Some?
    && evidence.clockSafetyMarginMs < evidence.minimumRetentionMs
    && IdempotencyBindingExists(step.value, evidence.binding)
    && EvidenceFactsHold(operation, evidence)
  }

  predicate EffectHolds(operation: Operation) {
    match operation.effect
    case ReadOnly => true
    case AtMostOnce => |operation.steps| == 1
    case ProviderIdempotent(evidence) =>
      && |evidence| == |operation.steps|
      && Distinct(EvidenceSteps(evidence))
      && forall e | e in evidence :: EvidenceHolds(operation, e)
  }

  predicate EffectsHold(m: Manifest) { forall operation | operation in m.operations :: EffectHolds(operation) }

  // ----- Facts and identities

  predicate FactSitesHold(m: Manifest) {
    && Distinct(AllUseSites(m.operations)) && Distinct(AllFactSites(m.provenance))
    && ToSet(AllUseSites(m.operations)) == ToSet(AllFactSites(m.provenance))
  }

  predicate OperationBelongs(m: Manifest, operation: Operation) {
    && operation.connector == m.connector && operation.connectorVersion == m.connectorVersion
    && operation.runtimeAbiEpoch == m.runtimeAbiEpoch && operation.valueLanguageEpoch == m.valueLanguageEpoch
    && (|operation.steps| != 1 ==> operation.processor.Some?)
  }

  function CountOperations(operations: seq<Operation>, id: Id): nat {
    if operations == [] then 0
    else (if operations[0].identity.id == id then 1 else 0) + CountOperations(operations[1..], id)
  }

  function SubscriptionIds(subscription: Subscription): seq<Id> {
    [subscription.create, subscription.delete] + match subscription.check case None => [] case Some(check) => [check]
  }

  predicate SubscriptionResolves(m: Manifest, trigger: Trigger) {
    match trigger.source
    case Webhook(_, _, _, _, Some(subscription)) =>
      var ids := SubscriptionIds(subscription);
      forall i | 0 <= i < |ids| :: CountOperations(m.operations, ids[i]) == 1
    case _ => true
  }

  predicate TriggerBelongs(m: Manifest, trigger: Trigger) {
    && trigger.connector == m.connector && trigger.connectorVersion == m.connectorVersion
    && trigger.runtimeAbiEpoch == m.runtimeAbiEpoch
    && SubscriptionResolves(m, trigger)
  }

  predicate IdentityHolds(m: Manifest) {
    && (forall operation | operation in m.operations :: OperationBelongs(m, operation))
    && Distinct(OperationIds(m.operations))
    && (forall trigger | trigger in m.triggers :: TriggerBelongs(m, trigger))
    && Distinct(TriggerIds(m.triggers))
  }
}
