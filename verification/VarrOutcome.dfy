/** What the trusted runtime asks of a call, on the stored records themselves. */
module VarrOutcome {
  import opened Wrappers
  import opened Text
  import opened MemoryStore
  import opened VarrPolicy
  import opened VarrChecks
  import opened VarrRuntime

  /**
    * The grant is the agent's, active and not expired, names the action, and is for every resource
    * that a step with that action names.
    */
  predicate Suits(g: Grant, agentId: string, now: int, w: Workflow, action: string) {
    && g.subject == agentId && g.status == Active && (g.expiresAt == None || g.expiresAt.value > now)
    && action in g.actions
    && forall step | step in w.steps && step.action == action && step.resource.Some? && step.resource.value != "" ::
         step.resource.value == g.resource
  }

  lemma SuitsIff(g: Grant, agentId: string, now: int, w: Workflow, action: string)
    ensures Suits(g, agentId, now, w, action) <==> GrantActive(g, agentId, now) && Covers(g, w, action)
  {
    if Suits(g, agentId, now, w, action) {
      forall i | 0 <= i < |w.steps| && w.steps[i].action == action && w.steps[i].resource.Some?
                 && w.steps[i].resource.value != ""
        ensures w.steps[i].resource.value == g.resource
      {
        assert w.steps[i] in w.steps;
      }
    }
  }

  /** The stored grant at i is the first that suits. */
  predicate FirstSuits(records: seq<Grant>, i: nat, agentId: string, now: int, w: Workflow, action: string)
    requires i < |records|
  {
    Suits(records[i], agentId, now, w, action)
    && forall j | 0 <= j < i :: !Suits(records[j], agentId, now, w, action)
  }

  lemma {:induction false} CoveringAppend(grants: seq<Grant>, g: Grant, w: Workflow, action: string)
    ensures CoveringGrant(grants + [g], w, action)
            == if CoveringGrant(grants, w, action).Some? then CoveringGrant(grants, w, action)
               else if Covers(g, w, action) then Some(g) else None
  {
    if grants == [] {
      assert grants + [g] == [g];
    } else {
      CoveringAppend(grants[1..], g, w, action);
      assert (grants + [g])[1..] == grants[1..] + [g];
    }
  }

  /** The grant an action relies on is the first stored one that suits, and there is none when none suits. */
  lemma {:induction false} CoveringIsFirst(records: seq<Grant>, agentId: string, now: int, w: Workflow, action: string)
    ensures var c := CoveringGrant(ActiveGrants(records, agentId, now), w, action);
            && (c.None? <==> forall g | g in records :: !Suits(g, agentId, now, w, action))
            && (c.Some? ==>
                  exists i | 0 <= i < |records| ::
                    FirstSuits(records, i, agentId, now, w, action) && records[i] == c.value)
  {
    if records == [] {
    } else {
      var n := |records| - 1;
      var front, g := records[..n], records[n];
      CoveringIsFirst(front, agentId, now, w, action);
      SuitsIff(g, agentId, now, w, action);
      CoveringAppend(ActiveGrants(front, agentId, now), g, w, action);
      assert records == front + [g];
      var c := CoveringGrant(ActiveGrants(front, agentId, now), w, action);
      if c.Some? {
        var i :| 0 <= i < |front| && FirstSuits(front, i, agentId, now, w, action) && front[i] == c.value;
        assert FirstSuits(records, i, agentId, now, w, action);
      } else if Suits(g, agentId, now, w, action) {
        assert FirstSuits(records, n, agentId, now, w, action);
      }
    }
  }

  lemma FirstIsCovering(records: seq<Grant>, i: nat, agentId: string, now: int, w: Workflow, action: string)
    requires i < |records| && FirstSuits(records, i, agentId, now, w, action)
    ensures CoveringGrant(ActiveGrants(records, agentId, now), w, action) == Some(records[i])
  {
    CoveringIsFirst(records, agentId, now, w, action);
  }

  lemma CoveredIff(records: seq<Grant>, agentId: string, now: int, w: Workflow, actions: seq<string>)
    ensures AllCovered(ActiveGrants(records, agentId, now), w, actions)
            <==> forall a | a in actions :: exists g | g in records :: Suits(g, agentId, now, w, a)
  {
    forall a | a in actions
      ensures CoveringGrant(ActiveGrants(records, agentId, now), w, a).Some?
              <==> exists g | g in records :: Suits(g, agentId, now, w, a)
    {
      CoveringIsFirst(records, agentId, now, w, a);
    }
  }

  /** Not all actions are covered: in plain terms of the records. */
  lemma UncoveredIff(records: seq<Grant>, agentId: string, now: int, w: Workflow, actions: seq<string>)
    ensures !AllCovered(ActiveGrants(records, agentId, now), w, Unique(actions))
            <==> exists action | action in actions ::
                   forall g | g in records ::
                     !(&& g.subject == agentId && g.status == Active
                       && (g.expiresAt == None || g.expiresAt.value > now) && action in g.actions
                       && forall step | step in w.steps && step.action == action
                                        && step.resource.Some? && step.resource.value != "" ::
                            step.resource.value == g.resource)
  {
    CoveredIff(records, agentId, now, w, Unique(actions));
    forall a | a in actions
      ensures (exists g | g in records :: Suits(g, agentId, now, w, a)) <==>
              !forall g | g in records ::
                 !(&& g.subject == agentId && g.status == Active
                   && (g.expiresAt == None || g.expiresAt.value > now) && a in g.actions
                   && forall step | step in w.steps && step.action == a
                                    && step.resource.Some? && step.resource.value != "" ::
                        step.resource.value == g.resource)
    {
    }
  }

  lemma DeniedIfUncovered(s: Resources, intent: Intent, adapters: set<string>, answer: Outcome<Output>)
    requires AgentAdmitted(s, intent) && AllBelow(ClassifyAction, AllActions(intent, s.workflow.value), Critical)
    requires BoundaryHolds(s.found, s.agent.value.agentId, s.workflow.value)
    ensures OutcomeOf(s, intent, adapters, answer) == Denied
            <==> !AllCovered(s.grants, s.workflow.value, AllActions(intent, s.workflow.value))
    ensures OutcomeOf(s, intent, adapters, answer) == Denied ==> !ReachesAdapter(s, intent, adapters)
  {
  }

  /**
    * An admitted call without critical actions and with its contexts in bounds is denied exactly when
    * some action has no stored grant that is the agent's, active, not expired, for the action, and
    * for every resource of the steps with that action. The adapter is then not called.
    */
  lemma DeniedWithoutGrantIff(o: RuntimeOrchestrator, intent: Intent, now: int, answer: Outcome<Output>)
    requires var s := o.Reads(intent, now);
             && AgentAdmitted(s, intent) && AllBelow(ClassifyAction, AllActions(intent, s.workflow.value), Critical)
             && BoundaryHolds(s.found, s.agent.value.agentId, s.workflow.value)
    ensures var s := o.Reads(intent, now);
            var w := s.workflow.value;
            && (OutcomeOf(s, intent, o.adapters, answer) == Denied <==>
                  exists action | action in intent.requestedActions + StepActions(w.steps) ::
                    forall g | g in o.capabilities.records ::
                      !(&& g.subject == s.agent.value.agentId && g.status == Active
                        && (g.expiresAt == None || g.expiresAt.value > now) && action in g.actions
                        && forall step | step in w.steps && step.action == action
                                         && step.resource.Some? && step.resource.value != "" ::
                             step.resource.value == g.resource))
            && (OutcomeOf(s, intent, o.adapters, answer) == Denied ==> !ReachesAdapter(s, intent, o.adapters))
  {
    var s := o.Reads(intent, now);
    var w := s.workflow.value;
    DeniedIfUncovered(s, intent, o.adapters, answer);
    UncoveredIff(o.capabilities.records, s.agent.value.agentId, now, w,
                 intent.requestedActions + StepActions(w.steps));
  }

  /** Every context is there, active, public, admits the agent and lies in the namespace no step leaves. */
  predicate InNamespace(records: seq<Context>, idOf: Context -> string, refs: seq<string>, agentId: string,
                        w: Workflow, namespace: string)
  {
    && (forall ref | ref in refs ::
          var c := Find(records, idOf, ref);
          && c.Some? && c.value.status == Active && c.value.scope == CommunityPublic && !c.value.crossNamespaceAccess
          && agentId in c.value.allowedSubjects && c.value.namespace == namespace)
    && forall step | step in w.steps && step.resource.Some? && step.resource.value != "" ::
         NamespaceOf(step.resource.value) == None || NamespaceOf(step.resource.value) == Some(namespace)
  }

  lemma BoundaryIff(records: seq<Context>, idOf: Context -> string, refs: seq<string>, agentId: string, w: Workflow)
    ensures BoundaryHolds(Lookups(records, idOf, refs), agentId, w)
            <==> refs != [] && exists namespace :: InNamespace(records, idOf, refs, agentId, w, namespace)
  {
    var found := Lookups(records, idOf, refs);
    if BoundaryHolds(found, agentId, w) {
      var namespace := found[0].value.namespace;
      forall ref | ref in refs
        ensures var c := Find(records, idOf, ref);
                c.Some? && ContextAllows(c.value, agentId) && c.value.namespace == namespace
      {
        var i :| 0 <= i < |refs| && refs[i] == ref;
        assert found[i] == Find(records, idOf, ref);
      }
      assert InNamespace(records, idOf, refs, agentId, w, namespace);
    }
    if refs != [] && exists namespace :: InNamespace(records, idOf, refs, agentId, w, namespace) {
      var namespace :| InNamespace(records, idOf, refs, agentId, w, namespace);
      forall i | 0 <= i < |found|
        ensures found[i].Some? && ContextAllows(found[i].value, agentId) && found[i].value.namespace == namespace
      {
        assert refs[i] in refs;
      }
      forall i | 0 <= i < |w.steps|
        ensures StepInside(w.steps[i], namespace)
      {
        assert w.steps[i] in w.steps;
      }
    }
  }

  /** The first suitable grant of an action wants none of the actions approved. */
  predicate OutrightFor(records: seq<Grant>, agentId: string, now: int, w: Workflow, actions: seq<string>, a: string) {
    exists i | 0 <= i < |records| ::
      FirstSuits(records, i, agentId, now, w, a) && forall b | b in actions :: b !in records[i].requiresApprovalFor
  }

  /** Every action has a grant, and the first one that suits it wants no action of the call approved. */
  predicate GrantedOutright(records: seq<Grant>, agentId: string, now: int, w: Workflow, actions: seq<string>) {
    forall a | a in actions :: OutrightFor(records, agentId, now, w, actions, a)
  }

  /** The workflow is stored and active. */
  ghost predicate Available(o: RuntimeOrchestrator, intent: Intent, w: Workflow)
    reads o.workflows
  {
    Find(o.workflows.records, o.workflows.idOf, intent.workflowId) == Some(w) && w.status == Active
  }

  /**
    * Nothing forbids the call: an active agent the workflow allows, no critical action, contexts in
    * one namespace, and a suitable grant for every action.
    */
  ghost predicate Permissible(o: RuntimeOrchestrator, intent: Intent, now: int, w: Workflow, agent: Agent)
    reads o.agents, o.contexts, o.capabilities
  {
    var actions := intent.requestedActions + StepActions(w.steps);
    && Find(o.agents.records, o.agents.idOf, intent.agentId) == Some(agent) && agent.status == Active
    && intent.agentId in w.allowedAgents
    && (forall a | a in actions :: ClassifyAction(a) != Critical)
    && intent.contextRefs != []
    && (exists namespace ::
          InNamespace(o.contexts.records, o.contexts.idOf, intent.contextRefs, agent.agentId, w, namespace))
    && forall a | a in actions :: exists g | g in o.capabilities.records :: Suits(g, agent.agentId, now, w, a)
  }

  /** And nobody has to approve it: no high action, and no grant relied upon that wants an action approved. */
  ghost predicate Unattended(o: RuntimeOrchestrator, intent: Intent, now: int, w: Workflow, agent: Agent)
    reads o.capabilities
  {
    var actions := intent.requestedActions + StepActions(w.steps);
    && (forall a | a in actions :: ClassifyAction(a) != High)
    && GrantedOutright(o.capabilities.records, agent.agentId, now, w, actions)
  }

  /** The covering grant of an action wants none of the actions approved. */
  predicate CoversOutright(grants: seq<Grant>, w: Workflow, actions: seq<string>, a: string) {
    var c := CoveringGrant(grants, w, a);
    c.Some? && forall b | b in actions :: b !in c.value.requiresApprovalFor
  }

  /** With unique ids nobody has to approve exactly when no covering grant wants it. */
  lemma OutrightIff(records: seq<Grant>, agentId: string, now: int, w: Workflow, actions: seq<string>)
    requires UniqueIds(records, (g: Grant) => g.capabilityId)
    requires AllCovered(ActiveGrants(records, agentId, now), w, actions)
    ensures !ApprovalDemanded(ActiveGrants(records, agentId, now), w, actions)
            <==> forall a | a in actions :: CoversOutright(ActiveGrants(records, agentId, now), w, actions, a)
  {
    var grants := ActiveGrants(records, agentId, now);
    forall g, h | g in records && h in records && g.capabilityId == h.capabilityId
      ensures g == h
    {
    }
    if ApprovalDemanded(grants, w, actions) {
      var g, b :| g in grants && b in actions && ReliesOn(grants, w, actions, g.capabilityId) && Wants(g, b);
      var a :| a in actions && CoveringGrant(grants, w, a).Some?
               && CoveringGrant(grants, w, a).value.capabilityId == g.capabilityId;
      assert CoveringGrant(grants, w, a).value == g && !CoversOutright(grants, w, actions, a);
    } else {
      forall a | a in actions
        ensures CoversOutright(grants, w, actions, a)
      {
        var g := CoveringGrant(grants, w, a).value;
        assert ReliesOn(grants, w, actions, g.capabilityId);
        assert forall b | b in actions :: !Wants(g, b);
      }
    }
  }

  lemma OutrightForIff(records: seq<Grant>, agentId: string, now: int, w: Workflow, actions: seq<string>, a: string)
    ensures OutrightFor(records, agentId, now, w, actions, a)
            <==> CoversOutright(ActiveGrants(records, agentId, now), w, actions, a)
  {
    CoveringIsFirst(records, agentId, now, w, a);
    if OutrightFor(records, agentId, now, w, actions, a) {
      var i :| 0 <= i < |records| && FirstSuits(records, i, agentId, now, w, a)
               && forall b | b in actions :: b !in records[i].requiresApprovalFor;
      FirstIsCovering(records, i, agentId, now, w, a);
    }
  }

  lemma OutrightIsCovered(grants: seq<Grant>, w: Workflow, actions: seq<string>)
    requires forall a | a in actions :: CoversOutright(grants, w, actions, a)
    ensures AllCovered(grants, w, actions)
  {
  }

  lemma CoversOutrightIff(records: seq<Grant>, agentId: string, now: int, w: Workflow, actions: seq<string>)
    requires UniqueIds(records, (g: Grant) => g.capabilityId)
    ensures var grants := ActiveGrants(records, agentId, now);
            AllCovered(grants, w, actions) && !ApprovalDemanded(grants, w, actions)
            <==> forall a | a in actions :: CoversOutright(grants, w, actions, a)
  {
    if AllCovered(ActiveGrants(records, agentId, now), w, actions) {
      OutrightIff(records, agentId, now, w, actions);
    } else if forall a | a in actions :: CoversOutright(ActiveGrants(records, agentId, now), w, actions, a) {
      OutrightIsCovered(ActiveGrants(records, agentId, now), w, actions);
    }
  }

  lemma GrantedIff(records: seq<Grant>, agentId: string, now: int, w: Workflow, actions: seq<string>)
    requires UniqueIds(records, (g: Grant) => g.capabilityId)
    ensures var grants := ActiveGrants(records, agentId, now);
            AllCovered(grants, w, actions) && !ApprovalDemanded(grants, w, actions)
            <==> GrantedOutright(records, agentId, now, w, actions)
  {
    CoversOutrightIff(records, agentId, now, w, actions);
    forall a
      ensures OutrightFor(records, agentId, now, w, actions, a)
              <==> CoversOutright(ActiveGrants(records, agentId, now), w, actions, a)
    {
      OutrightForIff(records, agentId, now, w, actions, a);
    }
    GrantedNames(records, agentId, now, w, actions);
  }

  lemma GrantedNames(records: seq<Grant>, agentId: string, now: int, w: Workflow, actions: seq<string>)
    ensures GrantedOutright(records, agentId, now, w, actions)
            <==> forall a | a in actions :: OutrightFor(records, agentId, now, w, actions, a)
  {
  }

  lemma SameGranted(records: seq<Grant>, agentId: string, now: int, w: Workflow, a: seq<string>, b: seq<string>)
    requires forall x :: x in a <==> x in b
    ensures GrantedOutright(records, agentId, now, w, a) <==> GrantedOutright(records, agentId, now, w, b)
  {
  }

  lemma BelowCritical(a: seq<string>, b: seq<string>)
    requires forall x :: x in a <==> x in b
    ensures AllBelow(ClassifyAction, a, Critical) <==> forall x | x in b :: ClassifyAction(x) != Critical
    ensures AllBelow(ClassifyAction, a, High) <==>
              AllBelow(ClassifyAction, a, Critical) && forall x | x in b :: ClassifyAction(x) != High
  {
    forall x
      ensures Rank(ClassifyAction(x)) < Rank(Critical) <==> ClassifyAction(x) != Critical
      ensures Rank(ClassifyAction(x)) < Rank(High) <==> ClassifyAction(x) != Critical && ClassifyAction(x) != High
    {
    }
  }

  lemma PermissibleIff(o: RuntimeOrchestrator, intent: Intent, now: int, w: Workflow, agent: Agent)
    requires o.Reads(intent, now).workflow == Some(w) && o.Reads(intent, now).agent == Some(agent)
    ensures Permitted(o.Reads(intent, now), intent) <==>
              w.status == Active && Permissible(o, intent, now, w, agent)
  {
    var actions := intent.requestedActions + StepActions(w.steps);
    BoundaryIff(o.contexts.records, o.contexts.idOf, intent.contextRefs, agent.agentId, w);
    BelowCritical(AllActions(intent, w), actions);
    CoveredIff(o.capabilities.records, agent.agentId, now, w, AllActions(intent, w));
    assert forall a :: a in actions <==> a in AllActions(intent, w);
  }

  lemma UnattendedIff(o: RuntimeOrchestrator, intent: Intent, now: int, w: Workflow, agent: Agent)
    requires UniqueIds(o.capabilities.records, (g: Grant) => g.capabilityId)
    requires o.Reads(intent, now).workflow == Some(w) && o.Reads(intent, now).agent == Some(agent)
    ensures Authorized(o.Reads(intent, now), intent) <==>
              Permitted(o.Reads(intent, now), intent) && Unattended(o, intent, now, w, agent)
  {
    var actions := intent.requestedActions + StepActions(w.steps);
    GrantedIff(o.capabilities.records, agent.agentId, now, w, AllActions(intent, w));
    SameGranted(o.capabilities.records, agent.agentId, now, w, AllActions(intent, w), actions);
    BelowCritical(AllActions(intent, w), actions);
  }

  /** Only the workflow and the agent that were read can make a call permissible. */
  lemma OnlyThoseRead(o: RuntimeOrchestrator, intent: Intent, now: int)
    ensures forall w | Available(o, intent, w) :: o.Reads(intent, now).workflow == Some(w)
    ensures forall w, agent | Permissible(o, intent, now, w, agent) :: o.Reads(intent, now).agent == Some(agent)
  {
  }

  /**
    * How a run ends, from the stored records. Rejected: no active workflow. Denied: otherwise, and
    * something forbids the call. Awaiting approval: permissible, and somebody has to approve. Failed:
    * cleared, and the adapter is not registered or throws. Success: cleared and the adapter returns.
    */
  lemma RunStatusIff(o: RuntimeOrchestrator, intent: Intent, now: int, answer: Outcome<Output>)
    requires UniqueIds(o.capabilities.records, (g: Grant) => g.capabilityId)
    ensures var status := OutcomeOf(o.Reads(intent, now), intent, o.adapters, answer);
            && (status == Rejected <==> forall w :: !Available(o, intent, w))
            && (status == Denied <==>
                  exists w :: Available(o, intent, w) && forall agent :: !Permissible(o, intent, now, w, agent))
            && (status == AwaitingApproval <==>
                  exists w, agent ::
                    && Available(o, intent, w) && Permissible(o, intent, now, w, agent)
                    && !Unattended(o, intent, now, w, agent))
            && (status == FailedRun <==>
                  exists w, agent ::
                    && Available(o, intent, w) && Permissible(o, intent, now, w, agent)
                    && Unattended(o, intent, now, w, agent)
                    && (agent.runtimeAdapter !in o.adapters || answer.Threw?))
            && (status == Succeeded <==>
                  exists w, agent ::
                    && Available(o, intent, w) && Permissible(o, intent, now, w, agent)
                    && Unattended(o, intent, now, w, agent)
                    && agent.runtimeAdapter in o.adapters && answer.Returned?)
  {
    var s := o.Reads(intent, now);
    if s.workflow.Some? && s.agent.Some? {
      PermissibleIff(o, intent, now, s.workflow.value, s.agent.value);
      UnattendedIff(o, intent, now, s.workflow.value, s.agent.value);
    }
    if WorkflowActive(s) {
      assert Available(o, intent, s.workflow.value);
      OnlyThoseRead(o, intent, now);
    }
  }
}
