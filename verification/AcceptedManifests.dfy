/** What a manifest that keeps the compiler's rules holds, in terms of its own parts. */
module AcceptedManifests {
  import opened Wrappers
  import opened Collections
  import opened Manifest
  import opened CatalogRules
  import opened CatalogPasses
  import opened ManifestCheck
  import opened CatalogTheorems

  // ----- Bindings

  predicate IsInBody(request: Request, field: string) {
    match request
    case NoBody => false
    case RawBytes(binding) => field == binding
    case Json(bindings) => field in bindings
    case FormUrlencoded(bindings) => field in bindings
    case Multipart(bindings) => field in bindings
  }

  predicate BodyRepeatsNothing(request: Request) {
    request.Json? || request.FormUrlencoded? || request.Multipart? ==> Distinct(request.bindings)
  }

  predicate RepeatsNothing(bindings: seq<NamedBinding>) {
    forall i, j | 0 <= i < j < |bindings| :: bindings[i].binding.field != bindings[j].binding.field
  }

  /** Everything a step sends is declared. */
  ghost predicate SendsOnlyDeclared(operation: Operation, step: Step) {
    && (forall q | q in step.query :: q.binding.field in operation.inputRoots)
    && (forall h | h in step.headers :: h.binding.field in operation.inputRoots)
    && (forall field | IsInBody(step.request, field) :: field in operation.inputRoots)
  }

  /** And nothing is sent twice, in one place or in two. */
  ghost predicate SendsOnce(step: Step) {
    && RepeatsNothing(step.query) && RepeatsNothing(step.headers) && BodyRepeatsNothing(step.request)
    && (forall q, h | q in step.query && h in step.headers :: q.binding.field != h.binding.field)
    && (forall q | q in step.query :: !IsInBody(step.request, q.binding.field))
    && (forall h | h in step.headers :: !IsInBody(step.request, h.binding.field))
  }

  /** The fields of some bindings, and those of a body, as sets. */
  ghost predicate AreFieldsOf(fields: set<string>, bindings: seq<NamedBinding>) {
    && (forall b | b in bindings :: b.binding.field in fields)
    && (forall field | field in fields :: exists b | b in bindings :: b.binding.field == field)
  }

  ghost predicate AreFieldsIn(fields: set<string>, request: Request) {
    forall field :: field in fields <==> IsInBody(request, field)
  }

  lemma BoundIffThere(bindings: seq<NamedBinding>)
    ensures AreFieldsOf(ToSet(BoundBy(bindings)), bindings)
    ensures Distinct(BoundBy(bindings)) <==> RepeatsNothing(bindings)
  {
    var fields := BoundBy(bindings);
    forall b | b in bindings ensures b.binding.field in ToSet(fields) {
      var i :| 0 <= i < |bindings| && bindings[i] == b;
      assert fields[i] == b.binding.field;
    }
    forall field | field in ToSet(fields) ensures exists b | b in bindings :: b.binding.field == field {
      var i :| 0 <= i < |fields| && fields[i] == field;
      assert bindings[i] in bindings;
    }
    forall i, j | 0 <= i < j < |fields|
      ensures fields[i] != fields[j] <==> bindings[i].binding.field != bindings[j].binding.field
    {}
  }

  lemma BodyFieldsAre(request: Request)
    ensures AreFieldsIn(ToSet(BodyFields(request)), request)
    ensures Distinct(BodyFields(request)) <==> BodyRepeatsNothing(request)
  {
  }

  lemma ApartIff(step: Step, query: set<string>, headers: set<string>, body: set<string>)
    requires AreFieldsOf(query, step.query) && AreFieldsOf(headers, step.headers) && AreFieldsIn(body, step.request)
    ensures query !! headers <==>
      forall q, h | q in step.query && h in step.headers :: q.binding.field != h.binding.field
    ensures query + headers !! body <==>
      && (forall q | q in step.query :: !IsInBody(step.request, q.binding.field))
      && (forall h | h in step.headers :: !IsInBody(step.request, h.binding.field))
  {
    hide IsInBody;
  }

  lemma DeclaredIff(operation: Operation, step: Step, query: set<string>, headers: set<string>, body: set<string>)
    requires AreFieldsOf(query, step.query) && AreFieldsOf(headers, step.headers) && AreFieldsIn(body, step.request)
    ensures query + headers + body <= operation.inputRoots <==> SendsOnlyDeclared(operation, step)
  {
    hide IsInBody;
    if SendsOnlyDeclared(operation, step) {
      forall field | field in query + headers + body ensures field in operation.inputRoots {}
    }
    if query + headers + body <= operation.inputRoots {
      forall field | IsInBody(step.request, field) ensures field in operation.inputRoots {
        assert field in query + headers + body;
      }
      assert forall q | q in step.query :: q.binding.field in query + headers + body;
      assert forall h | h in step.headers :: h.binding.field in query + headers + body;
    }
  }

  /** Among the three places the fields are collected from, none is shared exactly when nothing is sent twice. */
  lemma BindingsIff(operation: Operation, step: Step)
    ensures BindingsAreClosed(operation, step) <==> SendsOnlyDeclared(operation, step) && SendsOnce(step)
  {
    var query, headers, body := BoundBy(step.query), BoundBy(step.headers), BodyFields(step.request);
    BoundIffThere(step.query);
    BoundIffThere(step.headers);
    BodyFieldsAre(step.request);
    DistinctConcat(query + headers, body);
    DistinctConcat(query, headers);
    assert ToSet(query + headers) == ToSet(query) + ToSet(headers);
    assert ToSet(BoundFields(step)) == ToSet(query) + ToSet(headers) + ToSet(body);
    hide BoundBy, BodyFields, IsInBody, Distinct, ToSet, AreFieldsOf, AreFieldsIn, RepeatsNothing, BodyRepeatsNothing;
    ApartIff(step, ToSet(query), ToSet(headers), ToSet(body));
    DeclaredIff(operation, step, ToSet(query), ToSet(headers), ToSet(body));
  }

  /** Evidence is bound to a header the step sends or to a field of its body. */
  lemma EvidenceIsBoundIff(step: Step, binding: IdempotencyBinding)
    ensures IdempotencyBindingExists(step, binding) <==>
      match binding {
        case HeaderBinding(name) => exists h | h in step.headers :: h.name == name
        case BodyField(pointer) => IsInBody(step.request, pointer)
      }
  {
    BodyFieldsAre(step.request);
  }

  // ----- Credentials

  /** What the plan reads of a credential's fields is among them, and its token comes from a step it may reach. */
  ghost predicate PlanIsClosed(m: Manifest, c: Credential) {
    match c.authPlan
    case FixedHeaderApiKey(field, _) => field in c.fields
    case FixedQueryApiKey(field, _) => field in c.fields
    case Bearer(token) => token in c.fields
    case PreprovisionedOAuthAccessToken(token) => token in c.fields
    case HttpBasic(username, password) => username in c.fields && password in c.fields
    case OAuth2ClientCredentials(clientId, clientSecret, tokenOrigin, tokenStep, _, _) =>
      && clientId in c.fields && clientSecret in c.fields
      && IsReachable(m, c, tokenOrigin)
      && exists i: nat :: IsOnlyTokenStep(AllSteps(m.operations), tokenStep, tokenOrigin, i)
  }

  /** The credential may go to the origin, and the manifest declares it. */
  ghost predicate IsReachable(m: Manifest, c: Credential, origin: Id) {
    origin in c.allowedOrigins && exists o | o in m.origins :: o.origin == origin
  }

  lemma {:induction false} StepIsListed(operations: seq<Operation>, step: Step)
    ensures step in AllSteps(operations) <==> exists o | o in operations :: step in o.steps
  {
    if operations != [] {
      StepIsListed(operations[1..], step);
      assert forall o | o in operations :: o == operations[0] || o in operations[1..];
    }
  }

  lemma OnlyTokenStepIsDeclared(m: Manifest, step: Id, origin: Id)
    ensures (exists i: nat :: IsOnlyTokenStep(AllSteps(m.operations), step, origin, i)) ==>
      exists o, s | o in m.operations && s in o.steps :: s.step == step && s.origin == origin
  {
    if i: nat :| IsOnlyTokenStep(AllSteps(m.operations), step, origin, i) {
      StepIsListed(m.operations, AllSteps(m.operations)[i]);
    }
  }

  /** The rule for one credential, plan by plan. */
  lemma CredentialHoldsIff(m: Manifest, c: Credential)
    ensures CredentialHolds(m, c) <==>
      && Distinct(c.fields)
      && (forall origin | origin in c.allowedOrigins :: IsReachable(m, c, origin))
      && (c.testOperation.Some? ==> exists o | o in m.operations :: o.identity == c.testOperation.value)
      && PlanIsClosed(m, c)
    ensures CredentialHolds(m, c) && c.authPlan.OAuth2ClientCredentials? ==>
      exists o, s | o in m.operations && s in o.steps ::
        s.step == c.authPlan.tokenStep && s.origin == c.authPlan.tokenOrigin
  {
    forall origin ensures origin in ToSet(OriginIds(m.origins)) <==> exists o | o in m.origins :: o.origin == origin {
      OriginIsListed(m.origins, origin);
    }
    forall id ensures id in OperationIds(m.operations) <==> exists o | o in m.operations :: o.identity == id {
      OperationIsListed(m.operations, id);
    }
    forall origin | ToSet(c.allowedOrigins) <= ToSet(OriginIds(m.origins)) && origin in c.allowedOrigins
      ensures IsReachable(m, c, origin)
    {
      assert origin in ToSet(c.allowedOrigins);
    }
    if c.authPlan.OAuth2ClientCredentials? {
      CountsOneIffOnlyTokenStep(AllSteps(m.operations), c.authPlan.tokenStep, c.authPlan.tokenOrigin);
      OnlyTokenStepIsDeclared(m, c.authPlan.tokenStep, c.authPlan.tokenOrigin);
    }
    hide Distinct, CountTokenSteps, AllSteps, OriginIds, OperationIds;
  }

  lemma OriginIsListed(origins: seq<FixedOrigin>, id: Id)
    ensures id in ToSet(OriginIds(origins)) <==> exists o | o in origins :: o.origin == id
  {
    var ids := OriginIds(origins);
    if id in ids {
      var i :| 0 <= i < |ids| && ids[i] == id;
      assert origins[i] in origins;
    }
    if o :| o in origins && o.origin == id {
      var i :| 0 <= i < |origins| && origins[i] == o;
      assert ids[i] == id;
    }
  }

  lemma OperationIsListed(operations: seq<Operation>, id: Reference)
    ensures id in OperationIds(operations) <==> exists o | o in operations :: o.identity == id
  {
    var ids := OperationIds(operations);
    if id in ids {
      var i :| 0 <= i < |ids| && ids[i] == id;
      assert operations[i] in operations;
    }
    if o :| o in operations && o.identity == id {
      var i :| 0 <= i < |operations| && operations[i] == o;
      assert ids[i] == id;
    }
  }

  // ----- Subscriptions

  ghost predicate NamesOneOperation(m: Manifest, id: Id) { exists i: nat :: IsOnlyAt(m.operations, id, i) }

  ghost predicate SubscriptionIsExact(m: Manifest, s: Subscription) {
    && NamesOneOperation(m, s.create) && NamesOneOperation(m, s.delete)
    && (s.check.Some? ==> NamesOneOperation(m, s.check.value))
  }

  /** A webhook's create, delete and, when it has one, check each name exactly one operation. */
  lemma SubscriptionIff(m: Manifest, trigger: Trigger, s: Subscription)
    requires trigger.source.Webhook? && trigger.source.subscription == Some(s)
    ensures SubscriptionResolves(m, trigger) <==> SubscriptionIsExact(m, s)
  {
    forall id ensures CountOperations(m.operations, id) == 1 <==> NamesOneOperation(m, id) {
      CountsOneIffOnlyOperation(m.operations, id);
    }
    hide CountOperations, NamesOneOperation;
    var ids := SubscriptionIds(s);
    assert ids[0] == s.create && ids[1] == s.delete;
    assert s.check.Some? ==> |ids| == 3 && ids[2] == s.check.value;
  }

  // ----- Facts and their sources

  ghost predicate IsUsed(m: Manifest, site: string) {
    exists o, fact | o in m.operations && fact in o.facts :: fact.useSite == site
  }

  ghost predicate IsSourced(m: Manifest, site: string) { exists r | r in m.provenance :: site in r.factSites }

  lemma UseSiteIsListed(facts: seq<Fact>, site: string)
    ensures site in UseSites(facts) <==> exists fact | fact in facts :: fact.useSite == site
  {
    var sites := UseSites(facts);
    if site in sites {
      var i :| 0 <= i < |sites| && sites[i] == site;
      assert facts[i] in facts;
    }
    if fact :| fact in facts && fact.useSite == site {
      var i :| 0 <= i < |facts| && facts[i] == fact;
      assert sites[i] == site;
    }
  }

  lemma {:induction false} UseSitesListed(operations: seq<Operation>, n: nat, site: string)
    requires n <= |operations|
    ensures site in UseSitesUpTo(operations, n)
      <==> exists i, fact | 0 <= i < n && fact in operations[i].facts :: fact.useSite == site
  {
    if n > 0 {
      UseSitesListed(operations, n - 1, site);
      UseSiteIsListed(operations[n - 1].facts, site);
      hide UseSites;
    }
  }

  lemma {:induction false} FactSitesListed(provenance: seq<Provenance>, n: nat, site: string)
    requires n <= |provenance|
    ensures site in FactSitesUpTo(provenance, n) <==> exists i | 0 <= i < n :: site in provenance[i].factSites
  {
    if n > 0 {
      FactSitesListed(provenance, n - 1, site);
    }
  }

  /** No site is used by two facts, of one operation or of two. */
  ghost predicate UsedOnce(operations: seq<Operation>, n: nat)
    requires n <= |operations|
  {
    && (forall i | 0 <= i < n :: FactsDiffer(operations[i].facts))
    && (forall i, k | 0 <= i < k < n :: forall f, g | f in operations[i].facts && g in operations[k].facts ::
          f.useSite != g.useSite)
  }

  predicate FactsDiffer(facts: seq<Fact>) {
    forall i, j | 0 <= i < j < |facts| :: facts[i].useSite != facts[j].useSite
  }

  /** No site is listed twice, by one record or by two. */
  ghost predicate ListedOnce(provenance: seq<Provenance>, n: nat)
    requires n <= |provenance|
  {
    && (forall i | 0 <= i < n :: Distinct(provenance[i].factSites))
    && (forall i, k | 0 <= i < k < n :: forall site | site in provenance[i].factSites ::
          site !in provenance[k].factSites)
  }

  lemma FactsDifferIff(facts: seq<Fact>)
    ensures Distinct(UseSites(facts)) <==> FactsDiffer(facts)
  {
    assert forall i | 0 <= i < |facts| :: UseSites(facts)[i] == facts[i].useSite;
  }

  lemma {:induction false} UsedOnceIff(operations: seq<Operation>, n: nat)
    requires n <= |operations|
    ensures Distinct(UseSitesUpTo(operations, n)) <==> UsedOnce(operations, n)
  {
    if n > 0 {
      UsedOnceIff(operations, n - 1);
      var before, last := UseSitesUpTo(operations, n - 1), operations[n - 1].facts;
      DistinctConcat(before, UseSites(last));
      FactsDifferIff(last);
      forall site ensures site in before
        <==> exists i, fact | 0 <= i < n - 1 && fact in operations[i].facts :: fact.useSite == site
      {
        UseSitesListed(operations, n - 1, site);
      }
      forall site ensures site in UseSites(last) <==> exists fact | fact in last :: fact.useSite == site {
        UseSiteIsListed(last, site);
      }
      hide Distinct, UseSites, FactsDiffer;
      UsesApartIff(operations, n, before, UseSites(last));
    }
  }

  lemma UsesApartIff(operations: seq<Operation>, n: nat, before: seq<string>, last: seq<string>)
    requires 0 < n <= |operations|
    requires forall site ::
      site in before <==> exists i, fact | 0 <= i < n - 1 && fact in operations[i].facts :: fact.useSite == site
    requires forall site :: site in last <==> exists fact | fact in operations[n - 1].facts :: fact.useSite == site
    ensures ToSet(before) !! ToSet(last) <==>
      forall i, f, g | 0 <= i < n - 1 && f in operations[i].facts && g in operations[n - 1].facts ::
        f.useSite != g.useSite
  {
    if ToSet(before) !! ToSet(last) {
      forall i, f, g | 0 <= i < n - 1 && f in operations[i].facts && g in operations[n - 1].facts
        ensures f.useSite != g.useSite
      {
        assert f.useSite in ToSet(before) && g.useSite in ToSet(last);
      }
    }
  }

  lemma {:induction false} ListedOnceIff(provenance: seq<Provenance>, n: nat)
    requires n <= |provenance|
    ensures Distinct(FactSitesUpTo(provenance, n)) <==> ListedOnce(provenance, n)
  {
    if n > 0 {
      ListedOnceIff(provenance, n - 1);
      var before, last := FactSitesUpTo(provenance, n - 1), provenance[n - 1].factSites;
      DistinctConcat(before, last);
      forall site ensures site in ToSet(before) <==> exists i | 0 <= i < n - 1 :: site in provenance[i].factSites {
        FactSitesListed(provenance, n - 1, site);
        assert site in ToSet(before) <==> site in before;
      }
      hide Distinct;
      assert forall site :: site in ToSet(last) <==> site in last;
    }
  }

  /** The use-site rule: every fact has a source, every source a fact, and no site stands twice on either side. */
  lemma FactsMatchSourcesIff(m: Manifest)
    ensures FactSitesHold(m) <==>
      && (forall site :: IsUsed(m, site) <==> IsSourced(m, site))
      && UsedOnce(m.operations, |m.operations|)
      && ListedOnce(m.provenance, |m.provenance|)
  {
    UsedOnceIff(m.operations, |m.operations|);
    ListedOnceIff(m.provenance, |m.provenance|);
    var uses, sources := AllUseSites(m.operations), AllFactSites(m.provenance);
    forall site
      ensures site in ToSet(uses) <==> IsUsed(m, site)
      ensures site in ToSet(sources) <==> IsSourced(m, site)
    {
      UseSitesListed(m.operations, |m.operations|, site);
      FactSitesListed(m.provenance, |m.provenance|, site);
      IsUsedByIndex(m, site);
    }
    hide Distinct, UsedOnce, ListedOnce, IsUsed, IsSourced, UseSitesUpTo, FactSitesUpTo;
  }

  lemma IsUsedByIndex(m: Manifest, site: string)
    ensures IsUsed(m, site)
      <==> exists i, fact | 0 <= i < |m.operations| && fact in m.operations[i].facts :: fact.useSite == site
    ensures IsSourced(m, site)
      <==> exists i | 0 <= i < |m.provenance| :: site in m.provenance[i].factSites
  {
  }

  // ----- Completeness and identity

  /** Nothing a compiled manifest counts on is missing. */
  lemma CompiledIsComplete(env: Environment, m: Manifest)
    requires Compiles(env, m)
    ensures m.manifestVersion > 0 && m.runtimeAbiEpoch > 0 && m.valueLanguageEpoch > 0
    ensures |m.origins| > 0 && |m.operations| > 0 && |m.provenance| > 0
    ensures forall c | c in m.credentials :: |c.fields| > 0 && |c.allowedOrigins| > 0
    ensures forall o | o in m.operations :: |o.origins| > 0 && |o.steps| > 0
    ensures forall o | o in m.operations :: forall step | step in o.steps :: |step.successStatuses| > 0
  {
  }

  ghost predicate OperationIsOwn(m: Manifest, o: Operation) {
    && o.connector == m.connector && o.connectorVersion == m.connectorVersion
    && o.runtimeAbiEpoch == m.runtimeAbiEpoch && o.valueLanguageEpoch == m.valueLanguageEpoch
    && (o.processor.None? ==> |o.steps| == 1)
  }

  ghost predicate TriggerIsOwn(m: Manifest, t: Trigger) {
    && t.connector == m.connector && t.connectorVersion == m.connectorVersion
    && t.runtimeAbiEpoch == m.runtimeAbiEpoch
    && (t.source.Webhook? && t.source.subscription.Some? ==> SubscriptionIsExact(m, t.source.subscription.value))
  }

  /** Operations and triggers belong to their manifest, and none stands at a version twice. */
  lemma IdentityIff(m: Manifest)
    ensures IdentityHolds(m) <==>
      && (forall o | o in m.operations :: OperationIsOwn(m, o))
      && (forall t | t in m.triggers :: TriggerIsOwn(m, t))
      && (forall i, j | 0 <= i < j < |m.operations| :: m.operations[i].identity != m.operations[j].identity)
      && (forall i, j | 0 <= i < j < |m.triggers| :: m.triggers[i].identity != m.triggers[j].identity)
  {
    forall t ensures TriggerBelongs(m, t) <==> TriggerIsOwn(m, t) {
      if t.source.Webhook? && t.source.subscription.Some? {
        SubscriptionIff(m, t, t.source.subscription.value);
      }
    }
    hide TriggerBelongs, TriggerIsOwn;
    assert forall i | 0 <= i < |m.operations| :: OperationIds(m.operations)[i] == m.operations[i].identity;
    assert forall i | 0 <= i < |m.triggers| :: TriggerIds(m.triggers)[i] == m.triggers[i].identity;
  }

  // ----- Selected headers

  /** A step's selected headers: few enough, each as derived, no name twice and no capability twice. */
  lemma StepHeadersIff(env: Environment, o: Operation, step: Step)
    ensures StepHeadersHold(env, o, step) <==>
      var selected := step.selectedHeaders;
      && |selected| <= 64
      && (forall h | h in selected :: env.selectedHeader(o.connector, o.identity, step.step, h.name) == Some(h))
      && (forall i, j | 0 <= i < j < |selected| ::
            selected[i].name != selected[j].name && selected[i].capability != selected[j].capability)
  {
    var selected := step.selectedHeaders;
    assert forall i | 0 <= i < |selected| :: HeaderNames(selected)[i] == selected[i].name;
    assert forall i | 0 <= i < |selected| :: HeaderCapabilities(selected)[i] == selected[i].capability;
  }

  // ----- The older validator

  ghost predicate IsNamedEvidence(o: Operation, k: nat, step: Step) {
    && o.effect.ProviderIdempotent? && k < |o.effect.evidence|
    && Name(o.effect.evidence[k].step) == Name(step.step)
  }

  /** It too leaves no step without evidence and none with two, and lets none outlive its retention. */
  lemma CheckedEvidenceCoversEveryStep(o: Operation, step: Step) returns (k: nat)
    requires OperationIsValid(o) && o.effect.ProviderIdempotent? && step in o.steps
    ensures IsNamedEvidence(o, k, step)
    ensures forall j: nat | IsNamedEvidence(o, j, step) :: j == k
    ensures o.effect.evidence[k].clockSafetyMarginMs < o.effect.evidence[k].minimumRetentionMs
  {
    var evidence := o.effect.evidence;
    var keys, slots := EvidenceNames(evidence), StepNames(o.steps);
    forall i | 0 <= i < |keys| ensures keys[i] in ToSet(slots) {
      assert EvidenceIsValid(ToSet(slots), evidence[i]);
    }
    assert ToSet(keys) <= ToSet(slots);
    Pigeonhole(keys, slots);
    var i :| 0 <= i < |o.steps| && o.steps[i] == step;
    assert slots[i] in ToSet(keys);
    k :| 0 <= k < |keys| && keys[k] == slots[i];
    assert EvidenceIsValid(ToSet(slots), evidence[k]);
    forall j: nat | IsNamedEvidence(o, j, step) ensures j == k {
      assert keys[j] == keys[k];
    }
  }

  lemma CheckedCredentialIff(m: Manifest, c: Credential)
    ensures CredentialIsValid(m, c) <==>
      && |c.fields| > 0 && |c.allowedOrigins| > 0
      && forall origin | origin in c.allowedOrigins :: IsReachable(m, c, origin)
  {
    forall origin ensures origin in ToSet(OriginIds(m.origins)) <==> exists o | o in m.origins :: o.origin == origin {
      OriginIsListed(m.origins, origin);
    }
    assert forall origin :: origin in c.allowedOrigins <==> origin in ToSet(c.allowedOrigins);
    hide OriginIds;
  }
}
