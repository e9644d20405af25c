/** The looping checkers of the trusted runtime, proved against the policy predicates. */
module VarrChecks {
  import opened Wrappers
  import opened Text
  import opened MemoryStore
  import opened VarrPolicy

  predicate AllAllow(ds: seq<PolicyDecision>) {
    forall i | 0 <= i < |ds| :: ds[i].decision == Allow
  }

  predicate SomeRefusal(ds: seq<PolicyDecision>) {
    exists i | 0 <= i < |ds| :: ds[i].decision != Allow
  }

  // ----- risk.classifier.ts

  datatype RiskClassification = RiskClassification(level: RiskLevel, actionRisks: map<string, RiskLevel>,
                                                   decisions: seq<PolicyDecision>)

  function RiskVerdict(level: RiskLevel): Verdict {
    if level == Critical then Deny else if level == High then PendingApproval else Allow
  }

  function RiskReason(level: RiskLevel): string {
    match level
    case Low => "risk_low"
    case Medium => "risk_medium"
    case High => "risk_high"
    case Critical => "risk_critical"
  }

  function RiskDecision(classify: string -> RiskLevel, action: string): PolicyDecision {
    PolicyDecision(action, RiskVerdict(classify(action)), RiskReason(classify(action)))
  }

  /** The first i actions are classified: each has its level, in the map and in order, and its verdict. */
  ghost predicate Classified(classify: string -> RiskLevel, actions: seq<string>, i: nat, risks: map<string, RiskLevel>,
                             levels: seq<RiskLevel>, decisions: seq<PolicyDecision>)
    requires i <= |actions|
  {
    && risks.Keys == (set a | a in actions[..i]) && (forall a | a in risks :: risks[a] == classify(a))
    && |levels| == i && (forall j | 0 <= j < i :: levels[j] == classify(actions[j]))
    && |decisions| == i && forall j | 0 <= j < i :: decisions[j] == RiskDecision(classify, actions[j])
  }

  lemma ClassifiedNext(classify: string -> RiskLevel, actions: seq<string>, i: nat, risks: map<string, RiskLevel>,
                       levels: seq<RiskLevel>, decisions: seq<PolicyDecision>)
    requires i < |actions| && Classified(classify, actions, i, risks, levels, decisions)
    ensures var level := classify(actions[i]);
            Classified(classify, actions, i + 1, risks[actions[i] := level], levels + [level],
                       decisions + [RiskDecision(classify, actions[i])])
  {
    assert actions[..i + 1] == actions[..i] + [actions[i]];
  }

  lemma LevelIsHighest(classify: string -> RiskLevel, actions: seq<string>, levels: seq<RiskLevel>, l: RiskLevel)
    requires |levels| == |actions| && forall j | 0 <= j < |actions| :: levels[j] == classify(actions[j])
    requires l != Low
    ensures Rank(MaxRisk(levels)) >= Rank(l) <==> !AllBelow(classify, actions, l)
  {
  }

  lemma VerdictsFollow(classify: string -> RiskLevel, actions: seq<string>, decisions: seq<PolicyDecision>)
    requires |decisions| == |actions|
    requires forall i | 0 <= i < |actions| :: decisions[i] == RiskDecision(classify, actions[i])
    ensures AllAllow(decisions) <==> AllBelow(classify, actions, High)
  {
  }

  /** What the levels and verdicts of all actions say together. */
  lemma ClassifiedAll(classify: string -> RiskLevel, actions: seq<string>, levels: seq<RiskLevel>,
                      decisions: seq<PolicyDecision>)
    requires |levels| == |actions| && forall j | 0 <= j < |actions| :: levels[j] == classify(actions[j])
    requires |decisions| == |actions|
    requires forall i | 0 <= i < |actions| :: decisions[i] == RiskDecision(classify, actions[i])
    ensures MaxRisk(levels) == Critical <==> !AllBelow(classify, actions, Critical)
    ensures MaxRisk(levels) == High || MaxRisk(levels) == Critical <==> !AllBelow(classify, actions, High)
    ensures AllAllow(decisions) <==> AllBelow(classify, actions, High)
  {
    LevelIsHighest(classify, actions, levels, High);
    LevelIsHighest(classify, actions, levels, Critical);
    VerdictsFollow(classify, actions, decisions);
  }

  /** The loop of `classify` over any classification of single actions. */
  method ClassifyWith(classify: string -> RiskLevel, actions: seq<string>) returns (r: RiskClassification)
    ensures forall a :: a in r.actionRisks <==> a in actions
    ensures forall a | a in actions :: r.actionRisks[a] == classify(a)
    ensures r.level == Critical <==> !AllBelow(classify, actions, Critical)
    ensures r.level == High || r.level == Critical <==> !AllBelow(classify, actions, High)
    ensures |r.decisions| == |actions|
    ensures forall i | 0 <= i < |actions| :: r.decisions[i] == RiskDecision(classify, actions[i])
    ensures AllAllow(r.decisions) <==> AllBelow(classify, actions, High)
  {
    var risks: map<string, RiskLevel> := map[];
    var levels: seq<RiskLevel> := [];
    var decisions: seq<PolicyDecision> := [];
    for i := 0 to |actions|
      invariant Classified(classify, actions, i, risks, levels, decisions)
    {
      ClassifiedNext(classify, actions, i, risks, levels, decisions);
      var level := classify(actions[i]);
      risks := risks[actions[i] := level];
      levels := levels + [level];
      decisions := decisions + [PolicyDecision(actions[i], RiskVerdict(level), RiskReason(level))];
    }
    assert actions[..|actions|] == actions;
    ClassifiedAll(classify, actions, levels, decisions);
    r := RiskClassification(MaxRisk(levels), risks, decisions);
  }

  /** `classify`: the overall level is the highest of all actions, and each action gets its verdict. */
  method Classify(actions: seq<string>) returns (r: RiskClassification)
    ensures r.level == Critical <==> !AllBelow(ClassifyAction, actions, Critical)
    ensures r.level == High || r.level == Critical <==> !AllBelow(ClassifyAction, actions, High)
    ensures |r.decisions| == |actions|
    ensures forall i | 0 <= i < |actions| :: r.decisions[i] == RiskDecision(ClassifyAction, actions[i])
    ensures AllAllow(r.decisions) <==> AllBelow(ClassifyAction, actions, High)
  {
    r := ClassifyWith(ClassifyAction, actions);
  }

  // ----- context.boundary.checker.ts

  datatype BoundaryResult = BoundaryResult(ok: bool, contexts: seq<Context>, decisions: seq<PolicyDecision>)

  function Lookups(contexts: seq<Context>, idOf: Context -> string, refs: seq<string>): (found: seq<Option<Context>>)
    ensures |found| == |refs| && forall i | 0 <= i < |refs| :: found[i] == Find(contexts, idOf, refs[i])
  {
    if refs == [] then [] else
      Lookups(contexts, idOf, refs[..|refs| - 1]) + [Find(contexts, idOf, refs[|refs| - 1])]
  }

  function Refuse(ds: seq<PolicyDecision>, action: string, reason: string): seq<PolicyDecision> {
    ds + [PolicyDecision(action, Deny, reason)]
  }

  /** Why a single context is refused, in the order of the checks. */
  function ContextRefusal(c: Context, agentId: string): (r: Option<string>)
    ensures r.None? <==> ContextAllows(c, agentId)
  {
    if c.status == Suspended then Some("context_suspended")
    else if c.status == Revoked then Some("context_revoked")
    else if c.scope != CommunityPublic then Some("private_context_denied_in_mvp1")
    else if c.crossNamespaceAccess then Some("cross_namespace_access_forbidden")
    else if agentId !in c.allowedSubjects then Some("agent_not_allowed_for_context")
    else None
  }

  /** The boundary predicate, on contexts that were all found. */
  lemma BoundaryOf(found: seq<Option<Context>>, contexts: seq<Context>, agentId: string, workflow: Workflow)
    requires |found| == |contexts| && forall i | 0 <= i < |found| :: found[i] == Some(contexts[i])
    ensures BoundaryHolds(found, agentId, workflow) <==>
              && contexts != []
              && (forall i | 0 <= i < |contexts| :: ContextAllows(contexts[i], agentId))
              && (forall i | 0 <= i < |contexts| :: contexts[i].namespace == contexts[0].namespace)
              && (forall i | 0 <= i < |workflow.steps| :: StepInside(workflow.steps[i], contexts[0].namespace))
  {
  }

  /** The first loop of the boundary checker: every context, or the first reference without one. */
  method ResolveContexts(store: MemoryRepository<Context>, refs: seq<string>)
    returns (missing: Option<string>, contexts: seq<Context>)
    ensures missing.None? ==>
              && |contexts| == |refs|
              && forall i | 0 <= i < |refs| :: Find(store.records, store.idOf, refs[i]) == Some(contexts[i])
    ensures missing.Some? ==> exists i | 0 <= i < |refs| :: Find(store.records, store.idOf, refs[i]).None?
  {
    contexts := [];
    for i := 0 to |refs|
      invariant |contexts| == i
      invariant forall j | 0 <= j < i :: Find(store.records, store.idOf, refs[j]) == Some(contexts[j])
    {
      var context := store.Get(refs[i]);
      if context.None? {
        return Some(refs[i]), contexts;
      }
      contexts := contexts + [context.value];
    }
    missing := None;
  }

  /** `check` of the boundary checker: ok exactly when the boundary predicate holds, with the evidence to show it. */
  method CheckBoundary(store: MemoryRepository<Context>, agentId: string, workflow: Workflow, refs: seq<string>)
    returns (r: BoundaryResult)
    ensures r.ok <==> BoundaryHolds(Lookups(store.records, store.idOf, refs), agentId, workflow)
    ensures r.ok ==>
              && |r.contexts| == |refs|
              && forall i | 0 <= i < |refs| :: Find(store.records, store.idOf, refs[i]) == Some(r.contexts[i])
    ensures if r.ok then AllAllow(r.decisions) else SomeRefusal(r.decisions)
  {
    var missing, contexts := ResolveContexts(store, refs);
    if missing.Some? {
      var decisions := Refuse([], "resolve_context", "context_not_found:" + missing.value);
      assert decisions[0].decision == Deny;
      return BoundaryResult(false, contexts, decisions);
    }
    BoundaryOf(Lookups(store.records, store.idOf, refs), contexts, agentId, workflow);
    r := CheckFound(contexts, agentId, workflow);
  }

  /** The checks on contexts that were all found. */
  method CheckFound(contexts: seq<Context>, agentId: string, workflow: Workflow) returns (r: BoundaryResult)
    ensures r.contexts == contexts
    ensures r.ok <==>
              && contexts != []
              && (forall i | 0 <= i < |contexts| :: ContextAllows(contexts[i], agentId))
              && (forall i | 0 <= i < |contexts| :: contexts[i].namespace == contexts[0].namespace)
              && (forall i | 0 <= i < |workflow.steps| :: StepInside(workflow.steps[i], contexts[0].namespace))
    ensures if r.ok then AllAllow(r.decisions) else SomeRefusal(r.decisions)
  {
    var ok, decisions := CheckContexts(contexts, agentId);
    if !ok {
      return BoundaryResult(false, contexts, decisions);
    }
    if |contexts| == 0 || exists i | 0 <= i < |contexts| :: contexts[i].namespace != contexts[0].namespace {
      decisions := Refuse(decisions, "resolve_context", "multiple_context_namespaces");
      assert decisions[|decisions| - 1].decision == Deny;
      return BoundaryResult(false, contexts, decisions);
    }
    var inside, decisions' := CheckSteps(workflow, contexts[0].namespace, decisions);
    r := BoundaryResult(inside, contexts, decisions');
  }

  /** The third loop of the boundary checker. */
  method CheckSteps(workflow: Workflow, namespace: string, before: seq<PolicyDecision>)
    returns (ok: bool, decisions: seq<PolicyDecision>)
    requires AllAllow(before)
    ensures ok <==> forall j | 0 <= j < |workflow.steps| :: StepInside(workflow.steps[j], namespace)
    ensures if ok then AllAllow(decisions) else SomeRefusal(decisions)
  {
    decisions := before;
    for i := 0 to |workflow.steps|
      invariant decisions == before
      invariant forall j | 0 <= j < i :: StepInside(workflow.steps[j], namespace)
    {
      var step := workflow.steps[i];
      if step.resource.Some? && step.resource.value != "" {
        var target := NamespaceOf(step.resource.value);
        if target.Some? && target.value != namespace {
          decisions := Refuse(decisions, step.action, "resource_namespace_violation:" + target.value);
          assert decisions[|decisions| - 1].decision == Deny;
          assert !StepInside(step, namespace);
          return false, decisions;
        }
      }
    }
    ok := true;
  }

  /** The second loop of the boundary checker. */
  method CheckContexts(contexts: seq<Context>, agentId: string) returns (ok: bool, decisions: seq<PolicyDecision>)
    ensures ok <==> forall i | 0 <= i < |contexts| :: ContextAllows(contexts[i], agentId)
    ensures if ok then AllAllow(decisions) else SomeRefusal(decisions)
  {
    decisions := [];
    for i := 0 to |contexts|
      invariant AllAllow(decisions)
      invariant forall j | 0 <= j < i :: ContextAllows(contexts[j], agentId)
    {
      var refusal := ContextRefusal(contexts[i], agentId);
      if refusal.Some? {
        decisions := Refuse(decisions, "resolve_context", refusal.value);
        assert decisions[|decisions| - 1].decision == Deny;
        return false, decisions;
      }
      decisions := decisions + [PolicyDecision("resolve_context", Allow, "context_active_and_subject_allowed")];
    }
    ok := true;
  }

  // ----- capability.checker.ts

  datatype CapabilityResult = CapabilityResult(ok: bool, capabilities: seq<Grant>, capabilityIds: seq<string>,
                                               decisions: seq<PolicyDecision>)

  function WithIds(grants: seq<Grant>, ids: seq<string>): (r: seq<Grant>)
    ensures forall g :: g in r <==> g in grants && g.capabilityId in ids
  {
    if grants == [] then [] else
      var front, g := WithIds(grants[..|grants| - 1], ids), grants[|grants| - 1];
      assert grants == grants[..|grants| - 1] + [g];
      if g.capabilityId in ids then front + [g] else front
  }

  /** `check` of the capability checker: ok exactly when every action is covered; it reports the grants relied upon. */
  method CheckCapabilities(store: MemoryRepository<Grant>, agentId: string, workflow: Workflow,
                           requested: seq<string>, now: int)
    returns (r: CapabilityResult)
    ensures var grants := ActiveGrants(store.records, agentId, now);
            var actions := Unique(requested + StepActions(workflow.steps));
            && (r.ok <==> AllCovered(grants, workflow, actions))
            && (r.ok ==> forall id :: id in r.capabilityIds <==> ReliesOn(grants, workflow, actions, id))
            && (r.ok ==>
                  forall g :: g in r.capabilities <==>
                    g in grants && ReliesOn(grants, workflow, actions, g.capabilityId))
    ensures if r.ok then AllAllow(r.decisions) else SomeRefusal(r.decisions)
  {
    var grants := ActiveGrants(store.records, agentId, now);
    var actions := Unique(requested + StepActions(workflow.steps));
    var decisions: seq<PolicyDecision> := [];
    var matched: seq<string> := [];
    for i := 0 to |actions|
      invariant AllAllow(decisions)
      invariant AllCovered(grants, workflow, actions[..i])
      invariant forall id :: id in matched <==> ReliesOn(grants, workflow, actions[..i], id)
    {
      var action := actions[i];
      var covering := CoveringGrant(grants, workflow, action);
      if covering.None? {
        decisions := Refuse(decisions, action, "capability_missing_or_inactive");
        assert decisions[|decisions| - 1].decision == Deny && action in actions;
        return CapabilityResult(false, grants, matched, decisions);
      }
      ReliesOnMore(grants, workflow, actions, i);
      if covering.value.capabilityId !in matched {
        matched := matched + [covering.value.capabilityId];
      }
      decisions := decisions + [PolicyDecision(action, Allow, "capability_valid")];
    }
    assert actions[..|actions|] == actions;
    r := CapabilityResult(true, WithIds(grants, matched), matched, decisions);
  }

  lemma ReliesOnMore(grants: seq<Grant>, workflow: Workflow, actions: seq<string>, i: nat)
    requires i < |actions| && CoveringGrant(grants, workflow, actions[i]).Some?
    requires AllCovered(grants, workflow, actions[..i])
    ensures AllCovered(grants, workflow, actions[..i + 1])
    ensures forall id :: ReliesOn(grants, workflow, actions[..i + 1], id) <==>
              || ReliesOn(grants, workflow, actions[..i], id)
              || id == CoveringGrant(grants, workflow, actions[i]).value.capabilityId
  {
    assert actions[..i + 1] == actions[..i] + [actions[i]];
    forall id
      ensures ReliesOn(grants, workflow, actions[..i + 1], id) <==>
                || ReliesOn(grants, workflow, actions[..i], id)
                || id == CoveringGrant(grants, workflow, actions[i]).value.capabilityId
    {
      if ReliesOn(grants, workflow, actions[..i], id) {
        var a :| a in actions[..i] && CoveringGrant(grants, workflow, a).Some?
                 && CoveringGrant(grants, workflow, a).value.capabilityId == id;
        assert a in actions[..i + 1];
      }
      assert actions[i] in actions[..i + 1];
    }
  }

  // ----- approval.gate.ts

  /** The first action some grant wants approved. */
  function FirstNeedingApproval(actions: seq<string>, capabilities: seq<Grant>): (r: Option<string>)
    ensures r.Some? <==> exists g, a | g in capabilities && a in actions :: Wants(g, a)
  {
    if actions == [] then None
    else if exists g | g in capabilities :: Wants(g, actions[0]) then
      assert actions[0] in actions;
      Some(actions[0])
    else
      assert actions == [actions[0]] + actions[1..];
      FirstNeedingApproval(actions[1..], capabilities)
  }

  /** `evaluate` of the approval gate: None lets the call through. */
  function ApprovalGate(actions: seq<string>, level: RiskLevel, capabilities: seq<Grant>): (r: Option<string>)
    ensures r.Some? <==> level == High || exists g, a | g in capabilities && a in actions :: Wants(g, a)
  {
    if level == High then Some("high_risk_action") else
      var action := FirstNeedingApproval(actions, capabilities);
      if action.Some? then Some("capability_requires_approval:" + action.value) else None
  }
}
