/** The trusted runtime: the orchestrator's cascade, its receipt log, and feedback on receipts. */
module VarrRuntime {
  import opened Wrappers
  import opened Text
  import opened MemoryStore
  import opened VarrPolicy
  import opened VarrChecks

  datatype RunStatus = Succeeded | FailedRun | Rejected | AwaitingApproval | Denied

  datatype Output = Output(summary: string, computeUnits: int)

  datatype Receipt = Receipt(receiptId: string, intentId: string, agentId: string, workflowId: string,
                             capabilityIds: seq<string>, contextRefs: seq<string>, decisions: seq<PolicyDecision>,
                             level: RiskLevel, approvalRequired: bool, status: RunStatus, summary: string,
                             computeUnits: int)

  /** How far the checks before the adapter got: a refusal and why, or none. */
  datatype Assessment = Assessment(refusal: Option<RunStatus>, summary: string, capabilityIds: seq<string>,
                                   decisions: seq<PolicyDecision>, level: RiskLevel, approvalRequired: bool)

  // ----- The declarative authorization

  /** The resources a run reads, and the time. */
  datatype Resources = Resources(workflow: Option<Workflow>, agent: Option<Agent>, found: seq<Option<Context>>,
                                 grants: seq<Grant>)

  predicate WorkflowActive(s: Resources) {
    s.workflow.Some? && s.workflow.value.status == Active
  }

  predicate AgentAdmitted(s: Resources, intent: Intent) {
    && WorkflowActive(s) && s.agent.Some? && s.agent.value.status == Active
    && intent.agentId in s.workflow.value.allowedAgents
  }

  /** Nothing forbids the call: no critical action, contexts in bounds, every action covered by an active grant. */
  predicate Permitted(s: Resources, intent: Intent) {
    && AgentAdmitted(s, intent)
    && AllBelow(ClassifyAction, AllActions(intent, s.workflow.value), Critical)
    && BoundaryHolds(s.found, s.agent.value.agentId, s.workflow.value)
    && AllCovered(s.grants, s.workflow.value, AllActions(intent, s.workflow.value))
  }

  /** Permitted, and nobody has to approve it first. */
  predicate Authorized(s: Resources, intent: Intent) {
    && Permitted(s, intent)
    && AllBelow(ClassifyAction, AllActions(intent, s.workflow.value), High)
    && !ApprovalDemanded(s.grants, s.workflow.value, AllActions(intent, s.workflow.value))
  }

  /** The outcome of a run, from the predicates alone. */
  function OutcomeOf(s: Resources, intent: Intent, adapters: set<string>, answer: Outcome<Output>): RunStatus {
    if !WorkflowActive(s) then Rejected
    else if !Permitted(s, intent) then Denied
    else if !Authorized(s, intent) then AwaitingApproval
    else if s.agent.value.runtimeAdapter !in adapters || answer.Threw? then FailedRun
    else Succeeded
  }

  /** The adapter is reached exactly by authorized calls of an agent whose adapter is registered. */
  predicate ReachesAdapter(s: Resources, intent: Intent, adapters: set<string>) {
    Authorized(s, intent) && s.agent.value.runtimeAdapter in adapters
  }

  /** What the decisions on a receipt show: all in favour of a success, one against any refusal. */
  predicate EvidenceFits(status: RunStatus, decisions: seq<PolicyDecision>) {
    match status
    case Succeeded => AllAllow(decisions)
    case Rejected => decisions == []
    case _ => SomeRefusal(decisions)
  }

  /** The ids are those of the grants the actions rely on. */
  ghost predicate NamesGrants(s: Resources, intent: Intent, ids: seq<string>) {
    s.workflow.Some?
    && forall id :: id in ids <==> ReliesOn(s.grants, s.workflow.value, AllActions(intent, s.workflow.value), id)
  }

  // ----- The receipt log

  /** The ids are nextId(1), nextId(2), ... in order. */
  predicate NumberedReceipts(log: seq<Receipt>) {
    forall i | 0 <= i < |log| :: log[i].receiptId == NextId("receipt", i + 1)
  }

  lemma NumberIsFree(log: seq<Receipt>, i: nat)
    requires NumberedReceipts(log) && i < |log|
    ensures log[i].receiptId != NextId("receipt", |log| + 1)
  {
    if log[i].receiptId == NextId("receipt", |log| + 1) {
      NextIdInjective("receipt", i + 1, |log| + 1);
    }
  }

  /** Two receipts never share an id. */
  lemma ReceiptIdsUnique(log: seq<Receipt>, i: nat, j: nat)
    requires NumberedReceipts(log) && i < j < |log|
    ensures log[i].receiptId != log[j].receiptId
  {
    if log[i].receiptId == log[j].receiptId {
      NextIdInjective("receipt", i + 1, j + 1);
    }
  }

  class RuntimeOrchestrator {
    const workflows: MemoryRepository<Workflow>
    const agents: MemoryRepository<Agent>
    const contexts: MemoryRepository<Context>
    const capabilities: MemoryRepository<Grant>
    const receipts: MemoryRepository<Receipt>
    const adapters: set<string>
    ghost var adapterCalls: nat

    constructor (workflows: MemoryRepository<Workflow>, agents: MemoryRepository<Agent>,
                 contexts: MemoryRepository<Context>,
                 capabilities: MemoryRepository<Grant>, receipts: MemoryRepository<Receipt>, extraAdapters: set<string>)
      requires receipts.Valid() && (forall r :: receipts.idOf(r) == r.receiptId) && receipts.records == []
      ensures Valid() && adapterCalls == 0
      ensures this.workflows == workflows && this.agents == agents && this.contexts == contexts
      ensures this.capabilities == capabilities && this.receipts == receipts
      ensures adapters == {"mock", "openclaw_stub", "luffa_stub"} + extraAdapters
    {
      this.workflows := workflows;
      this.agents := agents;
      this.contexts := contexts;
      this.capabilities := capabilities;
      this.receipts := receipts;
      adapters := {"mock", "openclaw_stub", "luffa_stub"} + extraAdapters;
      adapterCalls := 0;
    }

    ghost predicate Valid()
      reads this, receipts
    {
      receipts.Valid() && (forall r :: receipts.idOf(r) == r.receiptId) && NumberedReceipts(receipts.records)
    }

    ghost function Reads(intent: Intent, now: int): Resources
      reads workflows, agents, contexts, capabilities
    {
      var agent := Find(agents.records, agents.idOf, intent.agentId);
      Resources(Find(workflows.records, workflows.idOf, intent.workflowId), agent,
                Lookups(contexts.records, contexts.idOf, intent.contextRefs),
                if agent.Some? then ActiveGrants(capabilities.records, agent.value.agentId, now) else [])
    }

    /** `generate`: the receipt of the next number is appended; the number is never taken. */
    method Finish(intent: Intent, status: RunStatus, summary: string, capabilityIds: seq<string>,
                  decisions: seq<PolicyDecision>, level: RiskLevel, approvalRequired: bool, computeUnits: int)
      returns (receipt: Receipt)
      requires Valid()
      modifies receipts
      ensures Valid()
      ensures receipts.records == old(receipts.records) + [receipt]
      ensures receipt == Receipt(NextId("receipt", |receipts.records|), intent.intentId, intent.agentId,
                                 intent.workflowId, capabilityIds, intent.contextRefs, decisions, level,
                                 approvalRequired, status, summary, computeUnits)
    {
      var existing := receipts.List();
      receipt := Receipt(NextId("receipt", |existing| + 1), intent.intentId, intent.agentId, intent.workflowId,
                         capabilityIds, intent.contextRefs, decisions, level, approvalRequired, status, summary,
                         computeUnits);
      forall i | 0 <= i < |existing|
        ensures receipts.idOf(existing[i]) != receipt.receiptId
      {
        NumberIsFree(existing, i);
      }
      var stored := receipts.Create(receipt);
    }

    /**
      * `run`, on a validated intent. The status is the one the declarative predicates give; one
      * receipt is appended and none altered; the adapter is called once or not at all; the decisions
      * on the receipt show why, and its ids name the grants a call that was let through relied on.
      */
    method Run(intent: Intent, now: int, answer: Outcome<Output>) returns (receipt: Receipt)
      requires Valid()
      modifies receipts, this`adapterCalls
      ensures Valid()
      ensures receipts.records == old(receipts.records) + [receipt]
      ensures receipt.status == OutcomeOf(old(Reads(intent, now)), intent, adapters, answer)
      ensures adapterCalls
              == old(adapterCalls) + if ReachesAdapter(old(Reads(intent, now)), intent, adapters) then 1 else 0
      ensures EvidenceFits(receipt.status, receipt.decisions)
      ensures receipt.agentId == intent.agentId && receipt.workflowId == intent.workflowId
              && receipt.intentId == intent.intentId
      ensures receipt.contextRefs == intent.contextRefs
      ensures receipt.status == Succeeded || receipt.status == FailedRun ==>
                NamesGrants(old(Reads(intent, now)), intent, receipt.capabilityIds)
    {
      ghost var s := Reads(intent, now);
      var decisions: seq<PolicyDecision> := [];
      var workflow := workflows.Get(intent.workflowId);
      if workflow.None? || workflow.value.status != Active {
        receipt := Finish(intent, Rejected, "Workflow unavailable: " + intent.workflowId, [], decisions, Low, false, 0);
        return;
      }
      var agent := agents.Get(intent.agentId);
      if agent.None? || agent.value.status != Active {
        decisions := Refuse(decisions, "resolve_agent", AgentRefusal(agent));
        assert decisions[0].decision == Deny;
        receipt := Finish(intent, Denied, "Agent cannot execute: " + AgentRefusal(agent), [], decisions, Low, false, 0);
        return;
      }
      if intent.agentId !in workflow.value.allowedAgents {
        decisions := Refuse(decisions, "load_workflow", "agent_not_allowed_for_workflow");
        assert decisions[0].decision == Deny;
        receipt := Finish(intent, Denied, "Agent is not allowed for workflow", [], decisions, Low, false, 0);
        return;
      }
      assert AgentAdmitted(s, intent);
      receipt := RunAdmitted(intent, workflow.value, agent.value, now, answer);
    }

    /** The rest of `run` for an admitted agent of an active workflow. */
    method RunAdmitted(intent: Intent, workflow: Workflow, agent: Agent, now: int, answer: Outcome<Output>)
      returns (receipt: Receipt)
      requires Valid() && AgentAdmitted(Reads(intent, now), intent)
      requires Reads(intent, now).workflow == Some(workflow) && Reads(intent, now).agent == Some(agent)
      modifies receipts, this`adapterCalls
      ensures Valid()
      ensures receipts.records == old(receipts.records) + [receipt]
      ensures receipt.status == OutcomeOf(old(Reads(intent, now)), intent, adapters, answer)
      ensures adapterCalls
              == old(adapterCalls) + if ReachesAdapter(old(Reads(intent, now)), intent, adapters) then 1 else 0
      ensures EvidenceFits(receipt.status, receipt.decisions)
      ensures receipt.agentId == intent.agentId && receipt.workflowId == intent.workflowId
              && receipt.intentId == intent.intentId
      ensures receipt.contextRefs == intent.contextRefs
      ensures receipt.status == Succeeded || receipt.status == FailedRun ==>
                NamesGrants(old(Reads(intent, now)), intent, receipt.capabilityIds)
    {
      var assessment := Assess(intent, workflow, agent, now);
      if assessment.refusal.Some? {
        receipt := Finish(intent, assessment.refusal.value, assessment.summary, assessment.capabilityIds,
                          assessment.decisions,
                          assessment.level, assessment.approvalRequired, 0);
        return;
      }
      receipt := Execute(intent, agent, assessment.capabilityIds, assessment.decisions, assessment.level, answer);
    }

    /** The checks of `run` between admission and the adapter: risk, boundary, capabilities, approval. */
    method Assess(intent: Intent, workflow: Workflow, agent: Agent, now: int) returns (r: Assessment)
      requires AgentAdmitted(Reads(intent, now), intent)
      requires Reads(intent, now).workflow == Some(workflow) && Reads(intent, now).agent == Some(agent)
      ensures var s := Reads(intent, now);
              r.refusal == if !Permitted(s, intent) then Some(Denied)
                           else if !Authorized(s, intent) then Some(AwaitingApproval) else None
      ensures if r.refusal.Some? then SomeRefusal(r.decisions) else AllAllow(r.decisions)
      ensures r.refusal.None? ==> NamesGrants(Reads(intent, now), intent, r.capabilityIds)
    {
      ghost var s := Reads(intent, now);
      var actions := AllActions(intent, workflow);
      var risk := Classify(actions);
      var approvalRequired := risk.level == High;
      RefusalOf(risk.decisions);
      if risk.level == Critical {
        return Assessment(Some(Denied), "Critical action denied before adapter execution", [], risk.decisions,
                          risk.level, approvalRequired);
      }
      var boundary := CheckBoundary(contexts, agent.agentId, workflow, intent.contextRefs);
      JoinDecisions(risk.decisions, boundary.decisions);
      var decisions := risk.decisions + boundary.decisions;
      if !boundary.ok {
        return Assessment(Some(Denied), "Context boundary violation", [], decisions, risk.level, approvalRequired);
      }
      var covered := CheckCapabilities(capabilities, agent.agentId, workflow, intent.requestedActions, now);
      JoinDecisions(decisions, covered.decisions);
      decisions := decisions + covered.decisions;
      if !covered.ok {
        return Assessment(Some(Denied), "Capability denied", covered.capabilityIds, decisions, risk.level,
                          approvalRequired);
      }
      GateAgrees(s, intent, risk.level, covered.capabilities);
      r := Gate(actions, risk.level, covered, decisions);
    }

    /** The approval gate of `run`, for a call that is permitted. */
    method Gate(actions: seq<string>, level: RiskLevel, covered: CapabilityResult, before: seq<PolicyDecision>)
      returns (r: Assessment)
      requires AllAllow(before) <==> level != High
      ensures r.refusal
              == if ApprovalGate(actions, level, covered.capabilities).None? then None else Some(AwaitingApproval)
      ensures if r.refusal.Some? then SomeRefusal(r.decisions) else AllAllow(r.decisions)
      ensures r.capabilityIds == covered.capabilityIds
    {
      var approval := ApprovalGate(actions, level, covered.capabilities);
      if approval.Some? {
        var decisions := before + [PolicyDecision("approval_gate", PendingApproval, approval.value)];
        assert decisions[|decisions| - 1].decision == PendingApproval;
        return Assessment(Some(AwaitingApproval), "Approval required: " + approval.value, covered.capabilityIds,
                          decisions, level, true);
      }
      r := Assessment(None, "", covered.capabilityIds, before, level, false);
    }

    /** The end of `run`: select the adapter, call it once, and record how it went. */
    method Execute(intent: Intent, agent: Agent, capabilityIds: seq<string>, before: seq<PolicyDecision>,
                   level: RiskLevel, answer: Outcome<Output>)
      returns (receipt: Receipt)
      requires Valid() && AllAllow(before)
      modifies receipts, this`adapterCalls
      ensures Valid()
      ensures receipts.records == old(receipts.records) + [receipt]
      ensures receipt.status == if agent.runtimeAdapter in adapters && answer.Returned? then Succeeded else FailedRun
      ensures adapterCalls == old(adapterCalls) + if agent.runtimeAdapter in adapters then 1 else 0
      ensures EvidenceFits(receipt.status, receipt.decisions)
      ensures receipt.agentId == intent.agentId && receipt.workflowId == intent.workflowId
              && receipt.intentId == intent.intentId
      ensures receipt.contextRefs == intent.contextRefs && receipt.capabilityIds == capabilityIds
    {
      if agent.runtimeAdapter !in adapters {
        var decisions := Refuse(before, "select_adapter", "adapter_not_available");
        assert decisions[|decisions| - 1].decision == Deny;
        receipt := Finish(intent, FailedRun, "Adapter unavailable: " + agent.runtimeAdapter, capabilityIds, decisions,
                          level, false, 0);
        return;
      }
      adapterCalls := adapterCalls + 1;
      if answer.Returned? {
        receipt := Finish(intent, Succeeded, answer.value.summary, capabilityIds, before, level, false,
                          answer.value.computeUnits);
        return;
      }
      var decisions := Refuse(before, "execute_adapter", "adapter_error");
      assert decisions[|decisions| - 1].decision == Deny;
      receipt := Finish(intent, FailedRun, "Adapter error", capabilityIds, decisions, level, false, 0);
    }
  }

  function AgentRefusal(agent: Option<Agent>): string {
    if agent.None? then "agent_not_found"
    else
      match agent.value.status
      case Active => "agent_active"
      case Suspended => "agent_suspended"
      case Revoked => "agent_revoked"
  }

  lemma RefusalOf(ds: seq<PolicyDecision>)
    ensures AllAllow(ds) <==> !SomeRefusal(ds)
  {
  }

  lemma JoinDecisions(a: seq<PolicyDecision>, b: seq<PolicyDecision>)
    ensures SomeRefusal(a + b) <==> SomeRefusal(a) || SomeRefusal(b)
    ensures AllAllow(a + b) <==> AllAllow(a) && AllAllow(b)
  {
    if SomeRefusal(a) {
      var i :| 0 <= i < |a| && a[i].decision != Allow;
      assert (a + b)[i].decision != Allow;
    }
    if SomeRefusal(b) {
      var i :| 0 <= i < |b| && b[i].decision != Allow;
      assert (a + b)[|a| + i].decision != Allow;
    }
    RefusalOf(a);
    RefusalOf(b);
    RefusalOf(a + b);
  }

  /** The gate, working on the matched grants, decides exactly what the predicate says. */
  lemma GateAgrees(s: Resources, intent: Intent, level: RiskLevel, matched: seq<Grant>)
    requires Permitted(s, intent)
    requires var actions := AllActions(intent, s.workflow.value);
             && (level == High || level == Critical <==> !AllBelow(ClassifyAction, actions, High))
             && level != Critical
             && forall g :: g in matched <==>
                  g in s.grants && ReliesOn(s.grants, s.workflow.value, actions, g.capabilityId)
    ensures ApprovalGate(AllActions(intent, s.workflow.value), level, matched).None? <==> Authorized(s, intent)
  {
  }

  /**
    * A run ends in success exactly when the call is authorized and the agent's adapter is
    * registered and does not throw.
    */
  lemma SuccessIffAuthorized(s: Resources, intent: Intent, adapters: set<string>, answer: Outcome<Output>)
    ensures OutcomeOf(s, intent, adapters, answer) == Succeeded <==>
              ReachesAdapter(s, intent, adapters) && answer.Returned?
  {
  }

  /** Grants keep their ids and the others stay as they are, so no grant with the revoked id is active. */
  lemma RevokedCoversNothing(grants: seq<Grant>, at: nat, subject: string, now: int)
    requires at < |grants| && UniqueIds(grants, (g: Grant) => g.capabilityId)
    ensures forall g | g in ActiveGrants(grants[at := grants[at].(status := Revoked)], subject, now) ::
              g.capabilityId != grants[at].capabilityId
  {
  }

  /**
    * `revoke`: throws when there is no such grant. Afterwards no subject has, at any time, an active
    * grant with this id.
    */
  method Revoke(capabilities: MemoryRepository<Grant>, capabilityId: string) returns (r: Outcome<Grant>)
    requires capabilities.Valid() && forall g :: capabilities.idOf(g) == g.capabilityId
    modifies capabilities
    ensures capabilities.Valid()
    ensures r.Threw? <==> forall g | g in old(capabilities.records) :: g.capabilityId != capabilityId
    ensures r.Threw? ==> capabilities.records == old(capabilities.records)
    ensures r.Returned? ==>
              var at := IndexOf(old(capabilities.records), capabilities.idOf, capabilityId);
              && at >= 0 && r.value == old(capabilities.records)[at].(status := Revoked)
              && capabilities.records == old(capabilities.records)[at := r.value]
    ensures r.Returned? ==>
              forall subject, now ::
                forall g | g in ActiveGrants(capabilities.records, subject, now) :: g.capabilityId != capabilityId
  {
    var existing := capabilities.Get(capabilityId);
    if existing.None? {
      return Threw;
    }
    ghost var before := capabilities.records;
    r := capabilities.Replace(capabilityId, existing.value.(status := Revoked));
    forall subject, now
      ensures forall g | g in ActiveGrants(capabilities.records, subject, now) :: g.capabilityId != capabilityId
    {
      RevokedCoversNothing(before, IndexOf(before, capabilities.idOf, capabilityId), subject, now);
    }
  }
}
