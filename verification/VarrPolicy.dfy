/** The trusted runtime's checks, stated as predicates over the stored resources. */
module VarrPolicy {
  import opened Wrappers
  import opened Text

  datatype RiskLevel = Low | Medium | High | Critical
  datatype Verdict = Allow | Deny | PendingApproval
  datatype PolicyDecision = PolicyDecision(action: string, decision: Verdict, reason: string)

  datatype Lifecycle = Active | Suspended | Revoked
  datatype Scope = CommunityPublic | CommunityPrivate | UserPrivate | EnterprisePrivate

  datatype Agent = Agent(agentId: string, runtimeAdapter: string, status: Lifecycle)
  datatype WorkflowStep = WorkflowStep(id: string, action: string, resource: Option<string>)
  datatype Workflow = Workflow(workflowId: string, allowedAgents: seq<string>, steps: seq<WorkflowStep>,
                               status: Lifecycle)
  datatype Context = Context(contextId: string, namespace: string, scope: Scope, allowedSubjects: seq<string>,
                             crossNamespaceAccess: bool, status: Lifecycle)
  datatype Grant = Grant(capabilityId: string, subject: string, resource: string, actions: seq<string>,
                         expiresAt: Option<int>, requiresApprovalFor: seq<string>, status: Lifecycle)
  datatype Intent = Intent(intentId: string, agentId: string, workflowId: string, contextRefs: seq<string>,
                           requestedActions: seq<string>)

  // ----- Actions

  /** `[...new Set(values)]`: first occurrences, in order. */
  function Unique(values: seq<string>): (r: seq<string>)
    ensures forall v :: v in r <==> v in values
    ensures forall i, j | 0 <= i < j < |r| :: r[i] != r[j]
  {
    if values == [] then [] else
      var front, last := Unique(values[..|values| - 1]), values[|values| - 1];
      assert values == values[..|values| - 1] + [last];
      if last in front then front else front + [last]
  }

  function StepActions(steps: seq<WorkflowStep>): (r: seq<string>)
    ensures |r| == |steps| && forall i | 0 <= i < |steps| :: r[i] == steps[i].action
  {
    if steps == [] then [] else StepActions(steps[..|steps| - 1]) + [steps[|steps| - 1].action]
  }

  /** Everything the call asks for or the workflow does. */
  function AllActions(intent: Intent, workflow: Workflow): seq<string> {
    Unique(intent.requestedActions + StepActions(workflow.steps))
  }

  // ----- Risk

  const FORBIDDEN_ACTIONS := {
    "access_seed_phrase", "export_private_key", "sign_transaction_directly",
    "read_private_message_without_capability", "export_user_data_bulk", "execute_unrestricted_shell",
    "bypass_policy", "bypass_receipt", "bypass_context_boundary" }
  const HIGH_RISK_ACTIONS := { "publish", "external_share", "publish_external", "payment_intent", "large_data_access" }
  const MEDIUM_RISK_ACTIONS := { "internal_post", "external_api_call" }

  function ClassifyAction(action: string): RiskLevel {
    var normalized := Lower(action);
    if normalized in FORBIDDEN_ACTIONS || Contains(normalized, "seed_phrase") || Contains(normalized, "private_key")
       || Contains(normalized, "unrestricted_shell") || Contains(normalized, "bypass_") then Critical
    else if normalized in HIGH_RISK_ACTIONS then High
    else if normalized in MEDIUM_RISK_ACTIONS then Medium
    else Low
  }

  /** Letter case never changes the level of an action. */
  lemma LevelIgnoresCase(a: string, b: string)
    requires SameLetters(a, b)
    ensures ClassifyAction(a) == ClassifyAction(b)
  {
    LowerDecides(a, b);
  }

  function Rank(level: RiskLevel): nat {
    match level case Low => 1 case Medium => 2 case High => 3 case Critical => 4
  }

  /** `maxRisk`. */
  function MaxRisk(levels: seq<RiskLevel>): (r: RiskLevel)
    ensures r == Low || r in levels
    ensures forall l | l in levels :: Rank(l) <= Rank(r)
  {
    if levels == [] then Low else
      var highest, level := MaxRisk(levels[..|levels| - 1]), levels[|levels| - 1];
      assert levels == levels[..|levels| - 1] + [level];
      if Rank(level) > Rank(highest) then level else highest
  }

  /** Every action is classified below the level. */
  predicate AllBelow(classify: string -> RiskLevel, actions: seq<string>, level: RiskLevel) {
    forall a | a in actions :: Rank(classify(a)) < Rank(level)
  }

  // ----- Context boundary

  /** The part of a resource between a prefix and the next slash, when there is one. */
  function Segment(s: string): (r: string)
    ensures '/' !in r && r <= s
  {
    if s == "" || s[0] == '/' then "" else [s[0]] + Segment(s[1..])
  }

  function SegmentAfter(resource: string, prefix: string): Option<string> {
    if prefix <= resource && Segment(resource[|prefix|..]) != ""
    then Some("community:" + Segment(resource[|prefix|..])) else None
  }

  /** `namespaceFromResource`. */
  function NamespaceOf(resource: string): Option<string> {
    var luffa := SegmentAfter(resource, "luffa://community/");
    if luffa.Some? then luffa else SegmentAfter(resource, "community/")
  }

  lemma {:induction false} SegmentReads(community: string, rest: string)
    requires '/' !in community && (rest == "" || rest[0] == '/')
    ensures Segment(community + rest) == community
  {
    if community == "" {
      assert community + rest == rest;
    } else {
      SegmentReads(community[1..], rest);
      assert (community + rest)[1..] == community[1..] + rest;
      assert community == [community[0]] + community[1..];
    }
  }

  lemma AfterReads(prefix: string, community: string, rest: string)
    requires community != "" && '/' !in community && (rest == "" || rest[0] == '/')
    ensures SegmentAfter(prefix + community + rest, prefix) == Some("community:" + community)
  {
    SegmentReads(community, rest);
    assert (prefix + community + rest)[|prefix|..] == community + rest;
  }

  lemma OtherPrefix(resource: string, prefix: string)
    requires resource != "" && prefix != "" && resource[0] != prefix[0]
    ensures SegmentAfter(resource, prefix) == None
  {
  }

  /** Both spellings of a community resource give its namespace, whatever path follows. */
  lemma NamespaceReads(community: string, rest: string)
    requires community != "" && '/' !in community && (rest == "" || rest[0] == '/')
    ensures NamespaceOf("luffa://community/" + community + rest) == Some("community:" + community)
    ensures NamespaceOf("community/" + community + rest) == Some("community:" + community)
  {
    AfterReads("luffa://community/", community, rest);
    AfterReads("community/", community, rest);
    OtherPrefix("community/" + community + rest, "luffa://community/");
  }

  lemma {:induction false} SegmentEnds(s: string)
    ensures s == Segment(s) + s[|Segment(s)|..]
    ensures s[|Segment(s)|..] == "" || s[|Segment(s)|..][0] == '/'
  {
    if s == "" || s[0] == '/' {
    } else {
      SegmentEnds(s[1..]);
      assert s == [s[0]] + s[1..];
    }
  }

  lemma AfterPrefix(resource: string, prefix: string) returns (community: string, rest: string)
    requires SegmentAfter(resource, prefix).Some?
    ensures community != "" && '/' !in community && (rest == "" || rest[0] == '/')
    ensures SegmentAfter(resource, prefix) == Some("community:" + community)
    ensures resource == prefix + community + rest
  {
    var tail := resource[|prefix|..];
    SegmentEnds(tail);
    community, rest := Segment(tail), tail[|Segment(tail)|..];
    assert resource == prefix + tail;
  }

  /** No other resource gives a namespace. */
  lemma NamespaceOnly(resource: string) returns (community: string, rest: string)
    requires NamespaceOf(resource).Some?
    ensures community != "" && '/' !in community && (rest == "" || rest[0] == '/')
    ensures NamespaceOf(resource) == Some("community:" + community)
    ensures resource == "luffa://community/" + community + rest || resource == "community/" + community + rest
  {
    if SegmentAfter(resource, "luffa://community/").Some? {
      community, rest := AfterPrefix(resource, "luffa://community/");
    } else {
      community, rest := AfterPrefix(resource, "community/");
    }
  }

  predicate ContextAllows(c: Context, agentId: string) {
    c.status == Active && c.scope == CommunityPublic && !c.crossNamespaceAccess && agentId in c.allowedSubjects
  }

  predicate StepInside(step: WorkflowStep, namespace: string) {
    (step.resource.Some? && step.resource.value != "" && NamespaceOf(step.resource.value).Some?)
    ==> NamespaceOf(step.resource.value).value == namespace
  }

  /** Every referenced context exists and admits the agent, all share one namespace, and no step leaves it. */
  predicate BoundaryHolds(found: seq<Option<Context>>, agentId: string, workflow: Workflow) {
    && found != []
    && (forall i | 0 <= i < |found| :: found[i].Some? && ContextAllows(found[i].value, agentId))
    && (forall i | 0 <= i < |found| :: found[i].value.namespace == found[0].value.namespace)
    && (forall i | 0 <= i < |workflow.steps| :: StepInside(workflow.steps[i], found[0].value.namespace))
  }

  // ----- Capabilities

  predicate GrantActive(g: Grant, subject: string, now: int) {
    g.subject == subject && g.status == Active && (g.expiresAt.Some? ==> g.expiresAt.value > now)
  }

  /** `findActiveBySubject`. */
  function ActiveGrants(grants: seq<Grant>, subject: string, now: int): (r: seq<Grant>)
    ensures forall g :: g in r <==> g in grants && GrantActive(g, subject, now)
  {
    if grants == [] then [] else
      var front, g := ActiveGrants(grants[..|grants| - 1], subject, now), grants[|grants| - 1];
      assert grants == grants[..|grants| - 1] + [g];
      if GrantActive(g, subject, now) then front + [g] else front
  }

  /** The grant names the action, and is for every resource the workflow uses it on. */
  predicate Covers(g: Grant, workflow: Workflow, action: string) {
    action in g.actions
    && forall i | 0 <= i < |workflow.steps| ::
         (workflow.steps[i].action == action && workflow.steps[i].resource.Some?
          && workflow.steps[i].resource.value != "")
         ==> workflow.steps[i].resource.value == g.resource
  }

  /** `grants.find`. */
  function CoveringGrant(grants: seq<Grant>, workflow: Workflow, action: string): (r: Option<Grant>)
    ensures r.Some? ==> r.value in grants && Covers(r.value, workflow, action)
    ensures r.None? ==> forall g | g in grants :: !Covers(g, workflow, action)
  {
    if grants == [] then None
    else if Covers(grants[0], workflow, action) then Some(grants[0])
    else CoveringGrant(grants[1..], workflow, action)
  }

  predicate AllCovered(grants: seq<Grant>, workflow: Workflow, actions: seq<string>) {
    forall a | a in actions :: CoveringGrant(grants, workflow, a).Some?
  }

  /** The grant ids the actions rely on. */
  predicate ReliesOn(grants: seq<Grant>, workflow: Workflow, actions: seq<string>, id: string) {
    exists a | a in actions ::
      CoveringGrant(grants, workflow, a).Some? && CoveringGrant(grants, workflow, a).value.capabilityId == id
  }

  predicate Wants(g: Grant, action: string) {
    action in g.requiresApprovalFor
  }

  /** Some grant relied upon demands approval for some action of the call. */
  predicate ApprovalDemanded(grants: seq<Grant>, workflow: Workflow, actions: seq<string>) {
    exists g, a | g in grants && a in actions :: ReliesOn(grants, workflow, actions, g.capabilityId) && Wants(g, a)
  }
}
