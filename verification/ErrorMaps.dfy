/** Error maps: which references to selected headers the two validators accept, fallback by fallback. */
module ErrorMaps {
  import opened Wrappers
  import opened Collections
  import opened Manifest
  import opened CatalogText
  import opened CatalogRules
  import opened CatalogPasses
  import opened ManifestCheck
  import opened CatalogTheorems

  // ----- References to the headers that a step keeps

  /** The step a reference names selects a header of that capability. */
  ghost predicate IsKept(steps: seq<Step>, step: Id, capability: Id) {
    exists s, header | s in steps && header in s.selectedHeaders :: s.step == step && header.capability == capability
  }

  /** The step a correlation names selects just that header under just that capability. */
  ghost predicate IsKeptAs(steps: seq<Step>, step: Id, name: string, capability: Id) {
    exists s, header | s in steps && header in s.selectedHeaders ::
      s.step == step && header.name == name && header.capability == capability
  }

  ghost predicate RefersLocally(action: ErrorAction, steps: seq<Step>) {
    && (forall c | c in action.correlations :: IsKeptAs(steps, c.step, c.name, c.capability))
    && (forall step, capability, seconds | action.retryAfter == RetryAfterHeader(step, capability, seconds) ::
          IsKept(steps, step, capability))
  }

  /** Each of the eight fallbacks, and the action of each rule, refers to headers its own steps keep. */
  ghost predicate EveryActionRefersLocally(errorMap: ErrorMap, steps: seq<Step>) {
    && RefersLocally(errorMap.fallback.transport, steps)
    && RefersLocally(errorMap.fallback.timeout, steps)
    && RefersLocally(errorMap.fallback.http429, steps)
    && RefersLocally(errorMap.fallback.http5xx, steps)
    && RefersLocally(errorMap.fallback.authentication, steps)
    && RefersLocally(errorMap.fallback.validation, steps)
    && RefersLocally(errorMap.fallback.permanent, steps)
    && RefersLocally(errorMap.fallback.invariantBroken, steps)
    && forall rule | rule in errorMap.rules :: RefersLocally(rule.action, steps)
  }

  /** What both validators have checked of the steps before they look at the error map. */
  predicate StepsAreUnambiguous(steps: seq<Step>) {
    Distinct(StepIds(steps)) && forall s | s in steps :: Distinct(HeaderCapabilities(s.selectedHeaders))
  }

  lemma ResolvesIffLocal(action: ErrorAction, steps: seq<Step>)
    requires StepsAreUnambiguous(steps)
    ensures ActionResolves(action, steps) <==> RefersLocally(action, steps)
  {
    hide StepsAreUnambiguous, CountMatches;
    forall c | c in action.correlations
      ensures CountMatches(steps, c.step, Some(c.name), c.capability) == 1
        <==> IsKeptAs(steps, c.step, c.name, c.capability)
    {
      KeptAsIff(steps, c.step, c.name, c.capability);
    }
    match action.retryAfter
    case Never =>
    case RetryAfterHeader(step, capability, _) => KeptIff(steps, step, capability);
  }

  lemma KeptAsIff(steps: seq<Step>, step: Id, name: string, capability: Id)
    requires StepsAreUnambiguous(steps)
    ensures CountMatches(steps, step, Some(name), capability) == 1 <==> IsKeptAs(steps, step, name, capability)
  {
    CountsOnceIffSelected(steps, step, Some(name), capability);
    hide CountMatches, Distinct;
    forall header: SelectedHeader
      ensures Selects(header, Some(name), capability) <==> header.name == name && header.capability == capability
    {}
  }

  lemma KeptIff(steps: seq<Step>, step: Id, capability: Id)
    requires StepsAreUnambiguous(steps)
    ensures CountMatches(steps, step, None, capability) == 1 <==> IsKept(steps, step, capability)
  {
    CountsOnceIffSelected(steps, step, None, capability);
    hide CountMatches, Distinct;
    forall header: SelectedHeader
      ensures Selects(header, None, capability) <==> header.capability == capability
    {}
  }

  lemma ErrorMapIff(errorMap: ErrorMap, steps: seq<Step>)
    requires StepsAreUnambiguous(steps)
    ensures ErrorMapResolves(errorMap, steps) <==> EveryActionRefersLocally(errorMap, steps)
  {
    var actions, f := Actions(errorMap), errorMap.fallback;
    hide ActionResolves, RefersLocally, StepsAreUnambiguous;
    forall action ensures ActionResolves(action, steps) <==> RefersLocally(action, steps) {
      ResolvesIffLocal(action, steps);
    }
    assert actions[0] == f.transport && actions[1] == f.timeout && actions[2] == f.http429 && actions[3] == f.http5xx;
    assert actions[4] == f.authentication && actions[5] == f.validation;
    assert actions[6] == f.permanent && actions[7] == f.invariantBroken;
    assert |actions| == 8 + |errorMap.rules|;
    assert forall i | 0 <= i < |errorMap.rules| :: actions[8 + i] == errorMap.rules[i].action;
    forall action | action in actions && EveryActionRefersLocally(errorMap, steps)
      ensures RefersLocally(action, steps)
    {
      var i :| 0 <= i < |actions| && actions[i] == action;
      assert i >= 8 ==> action == errorMap.rules[i - 8].action && errorMap.rules[i - 8] in errorMap.rules;
    }
  }

  /** The compiler's error-map pass accepts exactly the maps whose every action refers to headers its steps keep. */
  lemma CompiledErrorMapsIff(env: Environment, m: Manifest)
    requires StepIdentityHolds(m) && SelectedHeadersHold(env, m)
    ensures ErrorMapsHold(m) <==>
      forall operation | operation in m.operations :: EveryActionRefersLocally(operation.errorMap, operation.steps)
  {
    forall operation | operation in m.operations
      ensures ErrorMapResolves(operation.errorMap, operation.steps)
        <==> EveryActionRefersLocally(operation.errorMap, operation.steps)
    {
      forall s | s in operation.steps ensures Distinct(HeaderCapabilities(s.selectedHeaders)) {
        assert StepHeadersHold(env, operation, s);
      }
      ErrorMapIff(operation.errorMap, operation.steps);
    }
    hide ErrorMapResolves, EveryActionRefersLocally, SelectedHeadersHold, StepIdentityHolds;
  }

  /** So does the older validator, of an operation that passes its other rules. */
  lemma CheckedErrorMapIff(operation: Operation)
    requires Distinct(StepNames(operation.steps))
    requires forall step | step in operation.steps :: StepIsValid(operation, step)
    ensures ErrorMapResolves(operation.errorMap, operation.steps)
      <==> EveryActionRefersLocally(operation.errorMap, operation.steps)
  {
    forall i, j | 0 <= i < j < |operation.steps| ensures operation.steps[i].step != operation.steps[j].step {
      assert StepNames(operation.steps)[i] != StepNames(operation.steps)[j];
    }
    forall s | s in operation.steps ensures Distinct(HeaderCapabilities(s.selectedHeaders)) {
      assert HeadersAreUnambiguous(s);
      var headers := s.selectedHeaders;
      forall i, j | 0 <= i < j < |headers| ensures headers[i].capability != headers[j].capability {
        assert CapabilityNames(headers)[i] != CapabilityNames(headers)[j];
      }
    }
    hide Distinct, ErrorMapResolves, EveryActionRefersLocally;
    assert Distinct(StepIds(operation.steps));
    ErrorMapIff(operation.errorMap, operation.steps);
  }
}
