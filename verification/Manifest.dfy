/** Connector manifests as the catalog compiler reads them. */
module Manifest {
  import opened Wrappers
  import Ids

  // ----- Identifiers

  type Id = Ids.InlineId

  /** `as_str`; construction leaves no buffer without a text. */
  function Name(id: Id): string {
    match Ids.AsText(id) case None => "" case Some(text) => text
  }

  /** Comparing buffers and comparing texts, as the two validators do, is the same test. */
  lemma SameIdIffSameName(a: Id, b: Id)
    requires Ids.IsId(a) && Ids.IsId(b)
    ensures a == b <==> Name(a) == Name(b)
  {
    Ids.SameIdIffSameText(a, b);
  }

  // ----- Entities

  datatype Semver = Semver(major: nat, minor: nat, patch: nat)

  /** An operation, credential or trigger at a version. */
  datatype Reference = Reference(id: Id, version: Semver)

  datatype Processor = Processor(id: Id, revision: nat)

  datatype NetworkPolicy = PublicOnly | PrivateAllowed(policy: string)

  datatype FixedOrigin = FixedOrigin(origin: Id, host: string, port: nat, networkPolicy: NetworkPolicy)

  datatype AuthPlan =
    | FixedHeaderApiKey(field: Id, header: string)
    | FixedQueryApiKey(field: Id, query: string)
    | Bearer(token: Id)
    | HttpBasic(username: Id, password: Id)
    | OAuth2ClientCredentials(
        clientId: Id, clientSecret: Id, tokenOrigin: Id, tokenStep: Id, scopes: seq<string>, tokenPointer: string)
    | PreprovisionedOAuthAccessToken(token: Id)

  datatype Credential = Credential(
    identity: Reference,
    fields: seq<Id>,
    authPlan: AuthPlan,
    allowedOrigins: seq<Id>,
    scopes: seq<string>,
    authProcessor: Option<Processor>,
    testOperation: Option<Reference>)

  datatype Binding = Binding(field: string, mapping: Option<string>)

  datatype NamedBinding = NamedBinding(name: string, binding: Binding)

  datatype Request =
    | NoBody
    | Json(bindings: seq<string>)
    | FormUrlencoded(bindings: seq<string>)
    | Multipart(bindings: seq<string>)
    | RawBytes(binding: string)

  datatype ResponseMapping = ResponseMapping(pointer: string, target: string)

  datatype Response = JsonMappings(mappings: seq<ResponseMapping>) | RawTarget(target: string)

  datatype StatusRange = StatusRange(minimum: nat, maximum: nat)

  datatype SelectedHeader = SelectedHeader(name: string, capability: Id)

  datatype Step = Step(
    step: Id,
    httpMethod: string,
    origin: Id,
    path: string,
    query: seq<NamedBinding>,
    headers: seq<NamedBinding>,
    credentialAction: Option<Id>,
    request: Request,
    successStatuses: seq<StatusRange>,
    response: Response,
    selectedHeaders: seq<SelectedHeader>)

  datatype IdempotencyBinding = HeaderBinding(name: string) | BodyField(pointer: string)

  datatype Evidence = Evidence(
    step: Id, binding: IdempotencyBinding, scope: string, minimumRetentionMs: nat, clockSafetyMarginMs: nat)

  datatype Effect = ReadOnly | ProviderIdempotent(evidence: seq<Evidence>) | AtMostOnce

  /** The forms of a value that an effect is compared with, and every other value. */
  datatype FactContent = TextContent(text: string) | U64Content(number: nat) | OtherContent(tag: nat)

  datatype Fact = Fact(useSite: string, value: FactContent)

  datatype Correlation = Correlation(name: string, capability: Id, step: Id)

  datatype RetryAfter = Never | RetryAfterHeader(step: Id, capability: Id, maximumSeconds: nat)

  datatype ErrorAction = ErrorAction(correlations: seq<Correlation>, retryAfter: RetryAfter)

  datatype Matcher =
    | Status(range: StatusRange)
    | ProviderCode(pointer: string, codes: seq<string>)
    | HeaderMatch(name: string, values: seq<string>)
    | MalformedDeclaredSuccess

  datatype ErrorRule = ErrorRule(matcher: Matcher, action: ErrorAction)

  datatype Fallback = Fallback(
    transport: ErrorAction,
    timeout: ErrorAction,
    http429: ErrorAction,
    http5xx: ErrorAction,
    authentication: ErrorAction,
    validation: ErrorAction,
    permanent: ErrorAction,
    invariantBroken: ErrorAction)

  datatype ErrorMap = ErrorMap(rules: seq<ErrorRule>, fallback: Fallback)

  datatype Pagination =
    | NoPagination
    | Cursor(requestBinding: string, responsePointer: string)
    | OffsetLimit(offsetBinding: string, limitBinding: string)
    | PageNumber(pageBinding: string, pageSizeBinding: string)
    | LinkRelation(relation: string)
    | ByProcessor(processor: Processor)

  datatype Operation = Operation(
    connector: Id,
    connectorVersion: Semver,
    identity: Reference,
    runtimeAbiEpoch: nat,
    valueLanguageEpoch: nat,
    inputRoots: set<string>,
    credential: Option<Reference>,
    origins: seq<FixedOrigin>,
    steps: seq<Step>,
    preRequestTransforms: seq<Processor>,
    postResponseTransforms: seq<Processor>,
    processor: Option<Processor>,
    effect: Effect,
    pagination: Pagination,
    errorMap: ErrorMap,
    facts: seq<Fact>)

  datatype Subscription = Subscription(create: Id, delete: Id, check: Option<Id>)

  datatype TriggerSource =
    | Webhook(
        authenticator: Processor,
        codec: Processor,
        normalizer: Processor,
        selectedHeaders: seq<string>,
        subscription: Option<Subscription>)
    | Poll(processor: Processor)

  datatype Trigger = Trigger(
    connector: Id, connectorVersion: Semver, identity: Reference, runtimeAbiEpoch: nat, source: TriggerSource)

  datatype Provenance = Provenance(sourceRecord: Id, licenseId: string, factSites: seq<string>)

  datatype Manifest = Manifest(
    connector: Id,
    connectorVersion: Semver,
    manifestVersion: nat,
    runtimeAbiEpoch: nat,
    valueLanguageEpoch: nat,
    provider: string,
    apiIdentity: string,
    credentials: seq<Credential>,
    origins: seq<FixedOrigin>,
    operations: seq<Operation>,
    triggers: seq<Trigger>,
    provenance: seq<Provenance>)

  datatype CatalogError =
    | ManifestIncomplete
    | InvalidPrimitive
    | DuplicateStep
    | CredentialIncomplete
    | ContractHashMismatch
    | SelectedHeaderInvalid
    | ErrorMapInvalid
    | EffectIncomplete
    | FactUseSiteMismatch
    | FactBindingMismatch
    | IdentityMismatch
    | ReferenceMismatch
    | OperationIncomplete
    | ProcessorRequired
    | MissingOrigin
    | InvalidStatus
    | ManifestDuplicate
    | SelectedHeaderAmbiguous
    | SelectedHeaderLimit

  // ----- Keys

  function StepIds(steps: seq<Step>): (r: seq<Id>)
    ensures |r| == |steps|
  {
    seq(|steps|, i requires 0 <= i < |steps| => steps[i].step)
  }

  function EvidenceSteps(evidence: seq<Evidence>): (r: seq<Id>)
    ensures |r| == |evidence|
  {
    seq(|evidence|, i requires 0 <= i < |evidence| => evidence[i].step)
  }

  function OriginIds(origins: seq<FixedOrigin>): (r: seq<Id>)
    ensures |r| == |origins|
  {
    seq(|origins|, i requires 0 <= i < |origins| => origins[i].origin)
  }

  function HeaderNames(headers: seq<SelectedHeader>): (r: seq<string>)
    ensures |r| == |headers|
  {
    seq(|headers|, i requires 0 <= i < |headers| => headers[i].name)
  }

  function HeaderCapabilities(headers: seq<SelectedHeader>): (r: seq<Id>)
    ensures |r| == |headers|
  {
    seq(|headers|, i requires 0 <= i < |headers| => headers[i].capability)
  }

  function CredentialIds(credentials: seq<Credential>): (r: seq<Reference>)
    ensures |r| == |credentials|
  {
    seq(|credentials|, i requires 0 <= i < |credentials| => credentials[i].identity)
  }

  function OperationIds(operations: seq<Operation>): (r: seq<Reference>)
    ensures |r| == |operations|
  {
    seq(|operations|, i requires 0 <= i < |operations| => operations[i].identity)
  }

  function TriggerIds(triggers: seq<Trigger>): (r: seq<Reference>)
    ensures |r| == |triggers|
  {
    seq(|triggers|, i requires 0 <= i < |triggers| => triggers[i].identity)
  }

  function UseSites(facts: seq<Fact>): (r: seq<string>)
    ensures |r| == |facts|
  {
    seq(|facts|, i requires 0 <= i < |facts| => facts[i].useSite)
  }

  /** The use sites of the first `n` operations, in order. */
  function UseSitesUpTo(operations: seq<Operation>, n: nat): seq<string>
    requires n <= |operations|
  {
    if n == 0 then [] else UseSitesUpTo(operations, n - 1) + UseSites(operations[n - 1].facts)
  }

  function AllUseSites(operations: seq<Operation>): seq<string> { UseSitesUpTo(operations, |operations|) }

  function FactSitesUpTo(provenance: seq<Provenance>, n: nat): seq<string>
    requires n <= |provenance|
  {
    if n == 0 then [] else FactSitesUpTo(provenance, n - 1) + provenance[n - 1].factSites
  }

  function AllFactSites(provenance: seq<Provenance>): seq<string> { FactSitesUpTo(provenance, |provenance|) }

  /** Every action of an error map, the fallbacks first. */
  function Actions(errorMap: ErrorMap): seq<ErrorAction> {
    var f := errorMap.fallback;
    [f.transport, f.timeout, f.http429, f.http5xx, f.authentication, f.validation, f.permanent, f.invariantBroken]
    + seq(|errorMap.rules|, i requires 0 <= i < |errorMap.rules| => errorMap.rules[i].action)
  }

  /** What a request carries in its body, by input field. */
  function BodyFields(request: Request): seq<string> {
    match request
    case NoBody => []
    case RawBytes(binding) => [binding]
    case Json(bindings) => bindings
    case FormUrlencoded(bindings) => bindings
    case Multipart(bindings) => bindings
  }
}
