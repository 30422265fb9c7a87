/** Which facts a provider must evidence and which one is a policy of this system: an order-sensitive derivation. */
module FactDomains {
  import opened Wrappers
  import opened Collections
  import opened Manifest

  datatype Domain = ProviderEvidence | DonatPolicy

  type Domains = map<string, Domain>

  // ----- Use-site names

  function Site(operation: string, step: string, fact: string): string {
    "operation." + operation + ".step." + step + ".idempotency." + fact
  }

  function ScopeSite(operation: string, step: string): string { Site(operation, step, "scope") }

  function RetentionSite(operation: string, step: string): string { Site(operation, step, "minimum_retention_ms") }

  function MarginSite(operation: string, step: string): string { Site(operation, step, "clock_safety_margin_ms") }

  // ----- The derivation

  /** The first `n` facts of an operation, each a new and named site. */
  function Declared(domains: Domains, facts: seq<Fact>, n: nat): Option<Domains>
    requires n <= |facts|
  {
    if n == 0 then Some(domains)
    else match Declared(domains, facts, n - 1)
      case None => None
      case Some(before) =>
        var site := facts[n - 1].useSite;
        if site == "" || site in before then None else Some(before[site := ProviderEvidence])
  }

  function Assign(domains: Domains, site: string, domain: Domain): (r: Domains)
    ensures r.Keys == domains.Keys
  {
    if site in domains then domains[site := domain] else domains
  }

  function OwnStep(before: Domains, operation: string, step: string): (r: Domains)
    ensures r.Keys == before.Keys
  {
    var scoped := Assign(before, ScopeSite(operation, step), ProviderEvidence);
    var retained := Assign(scoped, RetentionSite(operation, step), ProviderEvidence);
    Assign(retained, MarginSite(operation, step), DonatPolicy)
  }

  function Owned(domains: Domains, operation: string, evidence: seq<Evidence>, n: nat): (r: Domains)
    requires n <= |evidence|
    ensures r.Keys == domains.Keys
  {
    if n == 0 then domains
    else OwnStep(Owned(domains, operation, evidence, n - 1), operation, Name(evidence[n - 1].step))
  }

  function EvidenceOf(operation: Operation): seq<Evidence> {
    if operation.effect.ProviderIdempotent? then operation.effect.evidence else []
  }

  function WithOperation(domains: Domains, operation: Operation): Option<Domains> {
    match Declared(domains, operation.facts, |operation.facts|)
    case None => None
    case Some(declared) =>
      Some(Owned(declared, Name(operation.identity.id), EvidenceOf(operation), |EvidenceOf(operation)|))
  }

  function DomainsAfter(operations: seq<Operation>, n: nat): Option<Domains>
    requires n <= |operations|
  {
    if n == 0 then Some(map[])
    else match DomainsAfter(operations, n - 1)
      case None => None
      case Some(domains) => WithOperation(domains, operations[n - 1])
  }

  function RequiredDomains(operations: seq<Operation>): Option<Domains> { DomainsAfter(operations, |operations|) }

  // ----- The loops

  method DeclareFacts(domains: Domains, facts: seq<Fact>) returns (r: Option<Domains>)
    ensures r == Declared(domains, facts, |facts|)
  {
    var current := domains;
    for i := 0 to |facts|
      invariant Declared(domains, facts, i) == Some(current)
    {
      var site := facts[i].useSite;
      if site == "" || site in current {
        DeclaringStops(domains, facts, i + 1);
        return None;
      }
      current := current[site := ProviderEvidence];
    }
    return Some(current);
  }

  lemma {:induction false} DeclaringStops(domains: Domains, facts: seq<Fact>, n: nat)
    requires n <= |facts| && Declared(domains, facts, n).None?
    ensures Declared(domains, facts, |facts|).None?
    decreases |facts| - n
  {
    if n < |facts| {
      DeclaringStops(domains, facts, n + 1);
    }
  }

  method OwnSites(domains: Domains, operation: string, evidence: seq<Evidence>) returns (r: Domains)
    ensures r == Owned(domains, operation, evidence, |evidence|)
  {
    hide ScopeSite, RetentionSite, MarginSite, Name;
    r := domains;
    for i := 0 to |evidence|
      invariant r == Owned(domains, operation, evidence, i)
    {
      var step := Name(evidence[i].step);
      var scope := ScopeSite(operation, step);
      var retention := RetentionSite(operation, step);
      var margin := MarginSite(operation, step);
      if scope in r {
        r := r[scope := ProviderEvidence];
      }
      if retention in r {
        r := r[retention := ProviderEvidence];
      }
      if margin in r {
        r := r[margin := DonatPolicy];
      }
    }
  }

  method CheckFactRequirements(operations: seq<Operation>) returns (r: Result<Domains, CatalogError>)
    ensures RequiredDomains(operations).None? ==> r == Err(FactBindingMismatch)
    ensures RequiredDomains(operations).Some? ==> r == Ok(RequiredDomains(operations).value)
  {
    hide Declared, Owned, DomainsAfter;
    var domains: Domains := map[];
    NoDomains(operations);
    for i := 0 to |operations|
      invariant DomainsAfter(operations, i) == Some(domains)
    {
      AfterStep(operations, i + 1);
      var declared := DeclareFacts(domains, operations[i].facts);
      if declared.None? {
        FailureSticks(operations, i + 1);
        return Err(FactBindingMismatch);
      }
      domains := declared.value;
      NothingToOwn(domains, Name(operations[i].identity.id));
      match operations[i].effect {
        case ReadOnly =>
        case AtMostOnce =>
        case ProviderIdempotent(evidence) =>
          domains := OwnSites(domains, Name(operations[i].identity.id), evidence);
      }
    }
    return Ok(domains);
  }

  lemma NoDomains(operations: seq<Operation>)
    ensures DomainsAfter(operations, 0) == Some(map[])
  {
  }

  lemma NothingToOwn(domains: Domains, operation: string)
    ensures Owned(domains, operation, [], 0) == domains
  {
  }

  lemma AfterStep(operations: seq<Operation>, n: nat)
    requires 0 < n <= |operations|
    ensures DomainsAfter(operations, n) == match DomainsAfter(operations, n - 1) {
      case None => None
      case Some(before) => WithOperation(before, operations[n - 1])
    }
  {
    hide WithOperation;
  }

  lemma {:induction false} FailureSticks(operations: seq<Operation>, n: nat)
    requires n <= |operations| && DomainsAfter(operations, n).None?
    ensures DomainsAfter(operations, |operations|).None?
    decreases |operations| - n
  {
    hide WithOperation;
    if n < |operations| {
      FailureSticks(operations, n + 1);
    }
  }

  // ----- When it fails, and which sites it knows

  lemma {:induction false} DeclaredIff(domains: Domains, facts: seq<Fact>, n: nat)
    requires n <= |facts|
    ensures Declared(domains, facts, n).Some? <==>
      && "" !in UseSites(facts)[..n] && Distinct(UseSites(facts)[..n])
      && ToSet(UseSites(facts)[..n]) !! domains.Keys
    ensures Declared(domains, facts, n).Some? ==>
      var r := Declared(domains, facts, n).value;
      && r.Keys == domains.Keys + ToSet(UseSites(facts)[..n])
      && forall site | site in r :: r[site] == if site in domains then domains[site] else ProviderEvidence
  {
    var sites := UseSites(facts);
    if n > 0 {
      DeclaredIff(domains, facts, n - 1);
      AddKey(sites, n - 1);
      assert sites[..n] == sites[..n - 1] + [sites[n - 1]];
      hide Distinct, ToSet;
    }
  }

  lemma AllDeclaredIff(domains: Domains, facts: seq<Fact>)
    ensures Declared(domains, facts, |facts|).Some? <==>
      "" !in UseSites(facts) && Distinct(UseSites(facts)) && ToSet(UseSites(facts)) !! domains.Keys
    ensures Declared(domains, facts, |facts|).Some? ==>
      var r := Declared(domains, facts, |facts|).value;
      && r.Keys == domains.Keys + ToSet(UseSites(facts))
      && forall site | site in r :: r[site] == if site in domains then domains[site] else ProviderEvidence
  {
    DeclaredIff(domains, facts, |facts|);
    assert UseSites(facts)[..|facts|] == UseSites(facts);
  }

  lemma SetOfConcat(a: seq<string>, b: seq<string>)
    ensures ToSet(a + b) == ToSet(a) + ToSet(b)
    ensures forall s :: s in a + b <==> s in a || s in b
  {
  }

  lemma WithOperationIff(domains: Domains, operation: Operation)
    ensures WithOperation(domains, operation).Some? <==>
      && "" !in UseSites(operation.facts) && Distinct(UseSites(operation.facts))
      && ToSet(UseSites(operation.facts)) !! domains.Keys
    ensures WithOperation(domains, operation).Some? ==>
      WithOperation(domains, operation).value.Keys == domains.Keys + ToSet(UseSites(operation.facts))
  {
    AllDeclaredIff(domains, operation.facts);
    hide Declared, Owned, Distinct, ToSet, UseSites;
  }

  function AndThen(prior: Option<Domains>, operation: Operation): Option<Domains> {
    match prior case None => None case Some(domains) => WithOperation(domains, operation)
  }

  lemma OneMoreIff(prior: Option<Domains>, before: seq<string>, operation: Operation)
    requires prior.Some? <==> "" !in before && Distinct(before)
    requires prior.Some? ==> prior.value.Keys == ToSet(before)
    ensures var next, sites := AndThen(prior, operation), before + UseSites(operation.facts);
      && (next.Some? <==> "" !in sites && Distinct(sites))
      && (next.Some? ==> next.value.Keys == ToSet(sites))
  {
    hide WithOperation, Distinct, ToSet, UseSites;
    DistinctConcat(before, UseSites(operation.facts));
    SetOfConcat(before, UseSites(operation.facts));
    if prior.Some? {
      WithOperationIff(prior.value, operation);
    }
  }

  lemma {:induction false} FailsUpToIff(operations: seq<Operation>, n: nat)
    requires n <= |operations|
    ensures DomainsAfter(operations, n).Some? <==>
      "" !in UseSitesUpTo(operations, n) && Distinct(UseSitesUpTo(operations, n))
    ensures DomainsAfter(operations, n).Some? ==>
      DomainsAfter(operations, n).value.Keys == ToSet(UseSitesUpTo(operations, n))
  {
    if n > 0 {
      hide WithOperation, Distinct, ToSet, UseSites;
      FailsUpToIff(operations, n - 1);
      OneMoreIff(DomainsAfter(operations, n - 1), UseSitesUpTo(operations, n - 1), operations[n - 1]);
    }
  }

  /** The derivation fails exactly on an empty or repeated use site, and otherwise knows exactly the declared ones. */
  lemma FailsIffEmptyOrRepeated(operations: seq<Operation>)
    ensures RequiredDomains(operations).Some? <==> "" !in AllUseSites(operations) && Distinct(AllUseSites(operations))
    ensures RequiredDomains(operations).Some? ==>
      RequiredDomains(operations).value.Keys == ToSet(AllUseSites(operations))
  {
    FailsUpToIff(operations, |operations|);
  }

  // ----- Whose site is whose

  predicate IsMargin(operation: Operation, site: string) {
    exists e | e in EvidenceOf(operation) :: site == MarginSite(Name(operation.identity.id), Name(e.step))
  }

  /** Among the first `n` operations, one that is not before the declaring one has the site as a clock margin. */
  predicate OwnedUpTo(operations: seq<Operation>, n: nat, site: string)
    requires n <= |operations|
  {
    exists i, j | 0 <= i <= j < n :: IsOwned(operations[i], operations[j], site)
  }

  predicate OwnedByMargin(operations: seq<Operation>, site: string) { OwnedUpTo(operations, |operations|, site) }

  predicate IsOwned(declarer: Operation, owner: Operation, site: string) {
    site in UseSites(declarer.facts) && IsMargin(owner, site)
  }

  /** The shape that tells a clock-margin site from the other two. */
  predicate HasMarginShape(site: string) { |site| >= 5 && site[|site| - 1] == 's' && site[|site| - 5] == 'i' }

  lemma SiteEnds(operation: string, step: string, fact: string, k: nat)
    requires 0 < k <= |fact|
    ensures |Site(operation, step, fact)| >= |fact|
    ensures Site(operation, step, fact)[|Site(operation, step, fact)| - k] == fact[|fact| - k]
  {
  }

  lemma FactEnds()
    ensures |"clock_safety_margin_ms"| == 22
    ensures "clock_safety_margin_ms"[21] == 's' && "clock_safety_margin_ms"[17] == 'i'
    ensures |"minimum_retention_ms"| == 20 && "minimum_retention_ms"[15] == 'o'
    ensures |"scope"| == 5 && "scope"[4] == 'e'
  {
  }

  lemma MarginShape(operation: string, step: string)
    ensures HasMarginShape(MarginSite(operation, step))
    ensures !HasMarginShape(ScopeSite(operation, step)) && !HasMarginShape(RetentionSite(operation, step))
  {
    FactEnds();
    SiteEnds(operation, step, "clock_safety_margin_ms", 1);
    SiteEnds(operation, step, "clock_safety_margin_ms", 5);
    SiteEnds(operation, step, "minimum_retention_ms", 5);
    SiteEnds(operation, step, "scope", 1);
    hide Site;
  }

  predicate IsMarginIn(operation: string, evidence: seq<Evidence>, n: nat, site: string)
    requires n <= |evidence|
  {
    exists k | 0 <= k < n :: site == MarginSite(operation, Name(evidence[k].step))
  }

  lemma OwnStepDomain(before: Domains, operation: string, step: string, site: string)
    requires site in before && (before[site] == DonatPolicy ==> HasMarginShape(site))
    ensures OwnStep(before, operation, step)[site] == DonatPolicy
      <==> before[site] == DonatPolicy || site == MarginSite(operation, step)
    ensures OwnStep(before, operation, step)[site] == DonatPolicy ==> HasMarginShape(site)
  {
    MarginShape(operation, step);
    hide HasMarginShape, ScopeSite, RetentionSite, MarginSite;
  }

  lemma {:induction false} OwnedDomain(domains: Domains, operation: string, evidence: seq<Evidence>, n: nat,
    site: string)
    requires n <= |evidence| && site in domains && (domains[site] == DonatPolicy ==> HasMarginShape(site))
    ensures Owned(domains, operation, evidence, n)[site] == DonatPolicy
      <==> domains[site] == DonatPolicy || IsMarginIn(operation, evidence, n, site)
    ensures Owned(domains, operation, evidence, n)[site] == DonatPolicy ==> HasMarginShape(site)
  {
    hide OwnStep, HasMarginShape, MarginSite, Name;
    if n > 0 {
      OwnedDomain(domains, operation, evidence, n - 1, site);
      OwnStepDomain(Owned(domains, operation, evidence, n - 1), operation, Name(evidence[n - 1].step), site);
    }
  }

  lemma {:induction false} DeclaredUpTo(operations: seq<Operation>, n: nat, site: string)
    requires n <= |operations|
    ensures site in UseSitesUpTo(operations, n) <==> exists i | 0 <= i < n :: site in UseSites(operations[i].facts)
  {
    hide UseSites;
    if n > 0 {
      DeclaredUpTo(operations, n - 1, site);
    }
  }

  lemma OwnedByLast(operations: seq<Operation>, n: nat, site: string)
    requires 0 < n <= |operations|
    ensures OwnedUpTo(operations, n, site) <==>
      || OwnedUpTo(operations, n - 1, site)
      || (site in UseSitesUpTo(operations, n) && IsMargin(operations[n - 1], site))
  {
    DeclaredUpTo(operations, n, site);
    hide IsMargin, UseSites, UseSitesUpTo;
    if site in UseSitesUpTo(operations, n) && IsMargin(operations[n - 1], site) {
      var i :| 0 <= i < n && site in UseSites(operations[i].facts);
      assert IsOwned(operations[i], operations[n - 1], site);
    }
    if OwnedUpTo(operations, n, site) {
      var i, j :| 0 <= i <= j < n && IsOwned(operations[i], operations[j], site);
      assert site in UseSites(operations[i].facts);
    }
  }

  lemma MarginsOfOperation(operation: Operation, site: string)
    ensures IsMargin(operation, site)
      <==> IsMarginIn(Name(operation.identity.id), EvidenceOf(operation), |EvidenceOf(operation)|, site)
  {
    hide MarginSite, Name;
  }

  lemma OperationDomain(before: Domains, operation: Operation, site: string)
    requires WithOperation(before, operation).Some? && site in WithOperation(before, operation).value
    requires site in before && before[site] == DonatPolicy ==> HasMarginShape(site)
    ensures WithOperation(before, operation).value[site] == DonatPolicy
      <==> (site in before && before[site] == DonatPolicy) || IsMargin(operation, site)
    ensures WithOperation(before, operation).value[site] == DonatPolicy ==> HasMarginShape(site)
  {
    var declared := Declared(before, operation.facts, |operation.facts|).value;
    AllDeclaredIff(before, operation.facts);
    hide Declared, Owned, HasMarginShape, IsMargin, IsMarginIn, UseSites;
    MarginsOfOperation(operation, site);
    OwnedDomain(declared, Name(operation.identity.id), EvidenceOf(operation), |EvidenceOf(operation)|, site);
  }

  lemma KnownSite(operations: seq<Operation>, n: nat, site: string)
    requires n <= |operations| && DomainsAfter(operations, n).Some?
    ensures site in DomainsAfter(operations, n).value <==> site in UseSitesUpTo(operations, n)
  {
    FailsUpToIff(operations, n);
    hide DomainsAfter, UseSitesUpTo, Distinct;
  }

  lemma {:induction false} PolicyUpTo(operations: seq<Operation>, n: nat, site: string)
    requires n <= |operations| && DomainsAfter(operations, n).Some? && site in DomainsAfter(operations, n).value
    ensures DomainsAfter(operations, n).value[site] == DonatPolicy <==> OwnedUpTo(operations, n, site)
    ensures DomainsAfter(operations, n).value[site] == DonatPolicy ==> HasMarginShape(site)
  {
    hide *;
    NoDomains(operations);
    AfterStep(operations, n);
    KnownSite(operations, n - 1, site);
    KnownSite(operations, n, site);
    OwnedByLast(operations, n, site);
    var before := DomainsAfter(operations, n - 1).value;
    if site in before {
      PolicyUpTo(operations, n - 1, site);
    } else {
      NotDeclaredNotOwned(operations, n - 1, site);
    }
    OperationDomain(before, operations[n - 1], site);
  }

  lemma NotDeclaredNotOwned(operations: seq<Operation>, n: nat, site: string)
    requires n <= |operations| && site !in UseSitesUpTo(operations, n)
    ensures !OwnedUpTo(operations, n, site)
  {
    DeclaredUpTo(operations, n, site);
    hide IsMargin, UseSites, UseSitesUpTo;
  }

  /** A declared site is this system's own policy exactly when its declarer or a later operation has it as a margin. */
  lemma PolicyIffOwnedByMargin(operations: seq<Operation>, site: string)
    requires RequiredDomains(operations).Some? && site in RequiredDomains(operations).value
    ensures RequiredDomains(operations).value[site] == DonatPolicy <==> OwnedByMargin(operations, site)
    ensures RequiredDomains(operations).value[site] == DonatPolicy ==> HasMarginShape(site)
  {
    PolicyUpTo(operations, |operations|, site);
  }

  /** An operation's own margin is a policy wherever it stands. */
  lemma OwnMarginIsPolicy(operations: seq<Operation>, i: nat, site: string)
    requires RequiredDomains(operations).Some? && i < |operations|
    requires site in UseSites(operations[i].facts) && IsMargin(operations[i], site)
    ensures site in RequiredDomains(operations).value && RequiredDomains(operations).value[site] == DonatPolicy
  {
    DeclaredUpTo(operations, |operations|, site);
    FailsIffEmptyOrRepeated(operations);
    hide RequiredDomains, IsMargin, UseSites, UseSitesUpTo;
    assert IsOwned(operations[i], operations[i], site);
    PolicyIffOwnedByMargin(operations, site);
  }

  /** Dots inside identifiers can make the sites of different operations and steps one name. */
  lemma SitesCanCoincide(operation: string, step: string, inner: string, fact: string)
    ensures Site(operation + ".step." + inner, step, fact) == Site(operation, inner + ".step." + step, fact)
  {
  }

  /** Then the order decides: what a later operation owns it takes over, what an earlier one owned it does not. */
  lemma OrderDecides(declarer: Operation, owner: Operation, site: string)
    requires RequiredDomains([declarer, owner]).Some? && RequiredDomains([owner, declarer]).Some?
    requires site in UseSites(declarer.facts) && IsMargin(owner, site) && !IsMargin(declarer, site)
    ensures RequiredDomains([declarer, owner]).value.Keys == RequiredDomains([owner, declarer]).value.Keys
    ensures site in RequiredDomains([declarer, owner]).value
    ensures RequiredDomains([declarer, owner]).value[site] == DonatPolicy
    ensures RequiredDomains([owner, declarer]).value[site] == ProviderEvidence
  {
    hide *;
    TwoSites(declarer, owner, site);
    TwoSites(owner, declarer, site);
    OwnedOfTwo(declarer, owner, site);
    OwnedOfTwo(owner, declarer, site);
    PolicyIffOwnedByMargin([declarer, owner], site);
    PolicyIffOwnedByMargin([owner, declarer], site);
  }

  /** The sites of two operations: the keys of their domains, none of them shared. */
  lemma TwoSites(first: Operation, second: Operation, site: string)
    requires RequiredDomains([first, second]).Some?
    ensures RequiredDomains([first, second]).value.Keys
         == ToSet(UseSites(first.facts)) + ToSet(UseSites(second.facts))
    ensures site in RequiredDomains([first, second]).value
      <==> site in UseSites(first.facts) || site in UseSites(second.facts)
    ensures !(site in UseSites(first.facts) && site in UseSites(second.facts))
  {
    hide *;
    TwoOperations(first, second);
    FailsIffEmptyOrRepeated([first, second]);
    InSet(UseSites(first.facts), site);
    InSet(UseSites(second.facts), site);
  }

  lemma InSet(sites: seq<string>, site: string)
    ensures site in ToSet(sites) <==> site in sites
  {
  }

  lemma OwnedOfTwo(first: Operation, second: Operation, site: string)
    ensures OwnedByMargin([first, second], site) <==>
      || (site in UseSites(first.facts) && (IsMargin(first, site) || IsMargin(second, site)))
      || (site in UseSites(second.facts) && IsMargin(second, site))
  {
    hide IsMargin, UseSites;
    var both := [first, second];
    assert both[0] == first && both[1] == second;
    assert OwnedByMargin(both, site) <==>
      IsOwned(both[0], both[0], site) || IsOwned(both[0], both[1], site) || IsOwned(both[1], both[1], site);
  }

  lemma TwoOperations(first: Operation, second: Operation)
    ensures AllUseSites([first, second]) == UseSites(first.facts) + UseSites(second.facts)
    ensures Distinct(AllUseSites([first, second])) ==> ToSet(UseSites(first.facts)) !! ToSet(UseSites(second.facts))
    ensures ToSet(AllUseSites([first, second])) == ToSet(UseSites(first.facts)) + ToSet(UseSites(second.facts))
  {
    hide UseSites;
    assert UseSitesUpTo([first, second], 1) == [] + UseSites(first.facts);
    DistinctConcat(UseSites(first.facts), UseSites(second.facts));
  }
}
