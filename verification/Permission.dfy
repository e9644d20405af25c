/** Policy evaluation, the audit table and the budget it is charged to. */
module Permission {
  import opened Wrappers
  import opened Json

  datatype Decision = ALLOW | DENY | REQUIRES_CONFIRMATION
  datatype RiskLevel = LOW | MEDIUM | HIGH | CRITICAL

  datatype Rules = Rules(
    allowedActions: seq<string>, deniedActions: seq<string>,
    maxBudgetPerAction: Option<real>, maxTotalBudget: Option<real>,
    allowedAssets: Option<seq<string>>, allowedChains: Option<seq<string>>,
    requiresConfirmation: bool, riskThreshold: Option<real>,
    contextConstraints: seq<map<string, Json>>)

  datatype Policy = Policy(policyId: string, ownerRef: string, priority: int, rules: Rules, active: bool)

  datatype Request = Request(agentId: string, ownerRef: string, action: string, params: Fields, context: Fields,
                             riskLevel: RiskLevel)

  datatype Audit = Audit(decisionId: string, agentId: string, action: string, decision: Decision,
                         matchedPolicyId: Option<string>, riskScore: real, budget: real, requiresConfirmation: bool)

  // ----- What a request asks for

  function DeriveBudget(params: Fields, context: Fields): real {
    var nested := (f: Fields) =>
      match ObjectAt(f, "settlement") case Some(s) => NumberAt(s, "amount") case None => None;
    OrElse(Or(NumberAt(context, "budget"),
           Or(NumberAt(params, "budget"),
           Or(NumberAt(params, "amount"),
           Or(nested(params), nested(context))))), 0.0)
  }

  /** Where a budget may be stated, in the order it is looked for. */
  function StatedBudgets(params: Fields, context: Fields): (stated: seq<Option<real>>)
    ensures |stated| == 5
  {
    [NumberAt(context, "budget"), NumberAt(params, "budget"), NumberAt(params, "amount"),
     NumberAt(OrElse(ObjectAt(params, "settlement"), map[]), "amount"),
     NumberAt(OrElse(ObjectAt(context, "settlement"), map[]), "amount")]
  }

  /** The budget is the first one stated, or 0. */
  lemma BudgetIsFirst(params: Fields, context: Fields)
    ensures var stated := StatedBudgets(params, context);
            && (forall i | 0 <= i < 5 && stated[i].Some? && forall j | 0 <= j < i :: stated[j].None? ::
                  DeriveBudget(params, context) == stated[i].value)
            && ((forall i | 0 <= i < 5 :: stated[i].None?) ==> DeriveBudget(params, context) == 0.0)
  {
    var stated := StatedBudgets(params, context);
    forall i | 0 <= i < 5 && stated[i].Some? && forall j | 0 <= j < i :: stated[j].None?
      ensures DeriveBudget(params, context) == stated[i].value
    {
      assert i > 0 ==> stated[0].None?;
      assert i > 1 ==> stated[1].None?;
      assert i > 2 ==> stated[2].None?;
      assert i > 3 ==> stated[3].None?;
    }
    if forall i | 0 <= i < 5 :: stated[i].None? {
      assert stated[0].None? && stated[1].None? && stated[2].None? && stated[3].None? && stated[4].None?;
    }
  }

  function DeriveRiskScore(level: RiskLevel, context: Fields): real {
    match NumberAt(context, "riskScore")
    case Some(score) => score
    case None =>
      match level
      case MEDIUM => 0.4
      case HIGH => 0.75
      case CRITICAL => 0.95
      case LOW => 0.1
  }

  function SettlementSource(params: Fields, context: Fields): Fields {
    OrElse(Or(ObjectAt(params, "settlement"), ObjectAt(context, "settlement")), params)
  }

  function ScopeAsset(params: Fields, context: Fields): Option<string> {
    Or(StringAt(SettlementSource(params, context), "asset"), StringAt(context, "asset"))
  }

  function ScopeChain(params: Fields, context: Fields): Option<string> {
    var source := SettlementSource(params, context);
    Or(StringAt(source, "chainKey"), Or(StringAt(source, "chainId"), Or(StringAt(source, "chainType"),
    Or(StringAt(context, "chainKey"), Or(StringAt(context, "chainId"), StringAt(context, "chainType"))))))
  }

  predicate ActionMatches(action: string, pattern: string) {
    pattern == "*" || pattern == action
    || (pattern != "" && pattern[|pattern| - 1] == '*' && pattern[..|pattern| - 1] <= action)
  }

  /** The pattern is the action, or ends in a star and the action goes on from what stands before it. */
  ghost predicate Spells(pattern: string, action: string) {
    pattern == action || exists prefix, rest :: pattern == prefix + "*" && action == prefix + rest
  }

  lemma MatchesIff(action: string, pattern: string)
    ensures ActionMatches(action, pattern) <==> Spells(pattern, action)
  {
    if ActionMatches(action, pattern) && pattern != action {
      var prefix := pattern[..|pattern| - 1];
      assert pattern == prefix + "*" && action == prefix + action[|prefix|..];
    }
    forall prefix, rest: string | pattern == prefix + "*" && action == prefix + rest
      ensures ActionMatches(action, pattern)
    {
      assert pattern[..|pattern| - 1] == prefix;
    }
  }

  predicate ActionMatchesAny(action: string, patterns: seq<string>) {
    exists i | 0 <= i < |patterns| :: ActionMatches(action, patterns[i])
  }

  predicate PolicyApplies(policy: Policy, context: Fields) {
    forall i | 0 <= i < |policy.rules.contextConstraints| ::
      var constraint := policy.rules.contextConstraints[i];
      forall key | key in constraint :: StrictlyEqual(context, key, constraint[key])
  }

  predicate IsHighRiskAction(action: string) {
    action == "luffa.trigger_payment" || action == "luffa.reward_user"
  }

  // ----- The active policies, by priority

  /** Behind every policy of at least its priority: earlier rows stay first among equals. */
  function Insert(sorted: seq<Policy>, p: Policy): seq<Policy> {
    if sorted == [] || sorted[0].priority < p.priority then [p] + sorted
    else [sorted[0]] + Insert(sorted[1..], p)
  }

  /** `getActivePolicies`: priority descending, then creation order. */
  function ActivePolicies(rows: seq<Policy>, owner: string): seq<Policy> {
    if rows == [] then [] else
      var rest, p := ActivePolicies(rows[..|rows| - 1], owner), rows[|rows| - 1];
      if p.ownerRef == owner && p.active then Insert(rest, p) else rest
  }

  predicate Descending(ps: seq<Policy>) {
    forall i, j | 0 <= i < j < |ps| :: ps[i].priority >= ps[j].priority
  }

  lemma {:induction false} InsertMembers(sorted: seq<Policy>, p: Policy, q: Policy)
    ensures q in Insert(sorted, p) <==> q == p || q in sorted
  {
    if sorted == [] {
    } else {
      assert sorted == [sorted[0]] + sorted[1..];
      if sorted[0].priority >= p.priority {
        InsertMembers(sorted[1..], p, q);
      }
    }
  }

  lemma {:induction false} InsertSorts(sorted: seq<Policy>, p: Policy)
    requires Descending(sorted)
    ensures Descending(Insert(sorted, p))
  {
    if sorted == [] || sorted[0].priority < p.priority {
    } else {
      var rest := Insert(sorted[1..], p);
      InsertSorts(sorted[1..], p);
      forall i | 0 <= i < |rest|
        ensures sorted[0].priority >= rest[i].priority
      {
        InsertMembers(sorted[1..], p, rest[i]);
      }
    }
  }

  lemma {:induction false} InsertAddsOne(sorted: seq<Policy>, p: Policy)
    ensures multiset(Insert(sorted, p)) == multiset(sorted) + multiset{p}
  {
    if sorted == [] {
    } else {
      assert sorted == [sorted[0]] + sorted[1..];
      if sorted[0].priority >= p.priority {
        InsertAddsOne(sorted[1..], p);
      }
    }
  }

  predicate IsActiveOf(p: Policy, owner: string) {
    p.ownerRef == owner && p.active
  }

  function Filtered(rows: seq<Policy>, owner: string): seq<Policy> {
    if rows == [] then [] else
      var rest, p := Filtered(rows[..|rows| - 1], owner), rows[|rows| - 1];
      if IsActiveOf(p, owner) then rest + [p] else rest
  }

  /** The policies of one priority, in their order. */
  function OfPriority(ps: seq<Policy>, priority: int): seq<Policy> {
    if ps == [] then [] else
      (if ps[0].priority == priority then [ps[0]] else []) + OfPriority(ps[1..], priority)
  }

  lemma {:induction false} LowerPriorities(ps: seq<Policy>, priority: int)
    requires forall i | 0 <= i < |ps| :: ps[i].priority < priority
    ensures OfPriority(ps, priority) == []
  {
    if ps == [] {
    } else {
      LowerPriorities(ps[1..], priority);
    }
  }

  lemma {:induction false} OfPriorityAppend(ps: seq<Policy>, p: Policy, priority: int)
    ensures OfPriority(ps + [p], priority) == OfPriority(ps, priority) + if p.priority == priority then [p] else []
  {
    if ps == [] {
      assert ps + [p] == [p];
    } else {
      OfPriorityAppend(ps[1..], p, priority);
      assert (ps + [p])[1..] == ps[1..] + [p];
    }
  }

  /** A new policy goes behind those of its own priority. */
  lemma {:induction false} InsertGoesLast(sorted: seq<Policy>, p: Policy, priority: int)
    requires Descending(sorted)
    ensures OfPriority(Insert(sorted, p), priority)
            == OfPriority(sorted, priority) + if p.priority == priority then [p] else []
  {
    if sorted == [] || sorted[0].priority < p.priority {
      assert ([p] + sorted)[1..] == sorted;
      if p.priority == priority {
        LowerPriorities(sorted, priority);
      }
    } else {
      InsertGoesLast(sorted[1..], p, priority);
      assert Insert(sorted, p)[1..] == Insert(sorted[1..], p);
    }
  }

  /**
    * The query returns the owner's active policies, each once, highest priority first, older ones first
    * among equals.
    */
  lemma {:induction false} ActivePoliciesSorted(rows: seq<Policy>, owner: string)
    ensures Descending(ActivePolicies(rows, owner))
    ensures multiset(ActivePolicies(rows, owner)) == multiset(Filtered(rows, owner))
    ensures forall q :: OfPriority(ActivePolicies(rows, owner), q) == OfPriority(Filtered(rows, owner), q)
  {
    if rows == [] {
    } else {
      var front, p := rows[..|rows| - 1], rows[|rows| - 1];
      ActivePoliciesSorted(front, owner);
      forall q
        ensures OfPriority(ActivePolicies(rows, owner), q) == OfPriority(Filtered(rows, owner), q)
      {
        InsertGoesLast(ActivePolicies(front, owner), p, q);
        OfPriorityAppend(Filtered(front, owner), p, q);
      }
      InsertSorts(ActivePolicies(front, owner), p);
      InsertAddsOne(ActivePolicies(front, owner), p);
    }
  }

  /** It returns exactly the active policies of the owner. */
  lemma {:induction false} ActiveIff(rows: seq<Policy>, owner: string, q: Policy)
    ensures q in ActivePolicies(rows, owner) <==> q in rows && q.ownerRef == owner && q.active
  {
    if rows == [] {
    } else {
      var front, p := rows[..|rows| - 1], rows[|rows| - 1];
      assert rows == front + [p];
      ActiveIff(front, owner, q);
      InsertMembers(ActivePolicies(front, owner), p, q);
    }
  }

  // ----- Evaluation

  predicate Denies(p: Policy, r: Request) {
    PolicyApplies(p, r.context) && ActionMatchesAny(r.action, p.rules.deniedActions)
  }

  predicate Permits(p: Policy, r: Request) {
    PolicyApplies(p, r.context) && ActionMatchesAny(r.action, p.rules.allowedActions)
  }

  /** The context has every constrained key, with the very scalar that is asked for. */
  predicate MeetsConstraints(p: Policy, context: Fields) {
    forall c: map<string, Json>, key | c in p.rules.contextConstraints && key in c ::
      key in context && context[key] == c[key] && (c[key].Null? || c[key].Bool? || c[key].Num? || c[key].Str?)
  }

  ghost predicate MatchesSome(action: string, patterns: seq<string>) {
    exists pattern | pattern in patterns :: Spells(pattern, action)
  }

  lemma MatchesSomeIff(action: string, patterns: seq<string>)
    ensures ActionMatchesAny(action, patterns) <==> MatchesSome(action, patterns)
  {
    forall pattern
      ensures ActionMatches(action, pattern) <==> Spells(pattern, action)
    {
      MatchesIff(action, pattern);
    }
  }

  lemma AppliesIff(p: Policy, context: Fields)
    ensures PolicyApplies(p, context) <==> MeetsConstraints(p, context)
  {
    if MeetsConstraints(p, context) {
      forall i | 0 <= i < |p.rules.contextConstraints|
        ensures var c := p.rules.contextConstraints[i]; forall key | key in c :: StrictlyEqual(context, key, c[key])
      {
        assert p.rules.contextConstraints[i] in p.rules.contextConstraints;
      }
    }
  }

  /** When a policy has a say in a request, for and against it. */
  lemma HasASayIff(p: Policy, r: Request)
    ensures Permits(p, r) <==> MeetsConstraints(p, r.context) && MatchesSome(r.action, p.rules.allowedActions)
    ensures Denies(p, r) <==> MeetsConstraints(p, r.context) && MatchesSome(r.action, p.rules.deniedActions)
  {
    AppliesIff(p, r.context);
    MatchesSomeIff(r.action, p.rules.allowedActions);
    MatchesSomeIff(r.action, p.rules.deniedActions);
  }

  function FirstDenying(ps: seq<Policy>, r: Request): (res: Option<Policy>)
    ensures res.Some? ==> res.value in ps && Denies(res.value, r)
    ensures res.None? ==> forall p | p in ps :: !Denies(p, r)
  {
    if ps == [] then None else if Denies(ps[0], r) then Some(ps[0]) else FirstDenying(ps[1..], r)
  }

  function FirstPermitting(ps: seq<Policy>, r: Request): (res: Option<Policy>)
    ensures res.Some? ==> res.value in ps && Permits(res.value, r)
    ensures res.None? ==> forall p | p in ps :: !Permits(p, r)
  {
    if ps == [] then None else if Permits(ps[0], r) then Some(ps[0]) else FirstPermitting(ps[1..], r)
  }

  function Sum(audits: seq<Audit>, agentId: string): real {
    if audits == [] then 0.0 else
      var a := audits[|audits| - 1];
      Sum(audits[..|audits| - 1], agentId) + (if a.agentId == agentId && a.decision == ALLOW then a.budget else 0.0)
  }

  /** Why an allowing policy still refuses a request. */
  predicate Exceeds(rules: Rules, r: Request, used: real) {
    var budget := DeriveBudget(r.params, r.context);
    var asset, chain := ScopeAsset(r.params, r.context), ScopeChain(r.params, r.context);
    || (rules.maxBudgetPerAction.Some? && budget > rules.maxBudgetPerAction.value)
    || (rules.maxTotalBudget.Some? && used + budget > rules.maxTotalBudget.value)
    || (rules.allowedAssets.Some? && asset.Some? && asset.value !in rules.allowedAssets.value)
    || (rules.allowedChains.Some? && chain.Some? && chain.value !in rules.allowedChains.value)
    || (rules.riskThreshold.Some? && DeriveRiskScore(r.riskLevel, r.context) > rules.riskThreshold.value)
  }

  predicate NeedsConfirmation(rules: Rules, r: Request) {
    || rules.requiresConfirmation
    || IsHighRiskAction(r.action)
    || DeriveRiskScore(r.riskLevel, r.context) >= 0.75
    || TrueAt(r.context, "requiresConfirmation")
  }

  /** The decision, and the policy it is blamed on. */
  function Evaluate(ps: seq<Policy>, r: Request, used: real): (Decision, Option<string>) {
    var denying := FirstDenying(ps, r);
    if denying.Some? then (DENY, Some(denying.value.policyId)) else
      var allowing := FirstPermitting(ps, r);
      if allowing.None? then (DENY, None)
      else
        var id := Some(allowing.value.policyId);
        if Exceeds(allowing.value.rules, r, used) then (DENY, id)
        else if NeedsConfirmation(allowing.value.rules, r) then (REQUIRES_CONFIRMATION, id)
        else (ALLOW, id)
  }

  function MakeAudit(r: Request, decisionId: string, decision: Decision, policyId: Option<string>): Audit {
    Audit(decisionId, r.agentId, r.action, decision, policyId, DeriveRiskScore(r.riskLevel, r.context),
          DeriveBudget(r.params, r.context), decision == REQUIRES_CONFIRMATION)
  }

  /** The audit row `evaluatePermission` writes. */
  function EvaluationAudit(policies: seq<Policy>, audits: seq<Audit>, r: Request, decisionId: string): Audit {
    var (decision, policyId) := Evaluate(ActivePolicies(policies, r.ownerRef), r, Sum(audits, r.agentId));
    MakeAudit(r, decisionId, decision, policyId)
  }

  /** The policy at i is the first of the list to permit the request. */
  predicate FirstAt(ps: seq<Policy>, r: Request, i: nat)
    requires i < |ps|
  {
    Permits(ps[i], r) && forall j | 0 <= j < i :: !Permits(ps[j], r)
  }

  lemma {:induction false} FirstIsFound(ps: seq<Policy>, r: Request, i: nat)
    requires i < |ps| && FirstAt(ps, r, i)
    ensures FirstPermitting(ps, r) == Some(ps[i])
  {
    if i == 0 {
    } else {
      assert forall j | 0 <= j < i - 1 :: ps[1..][j] == ps[j + 1];
      FirstIsFound(ps[1..], r, i - 1);
    }
  }

  lemma {:induction false} FoundIsFirst(ps: seq<Policy>, r: Request) returns (i: nat)
    requires FirstPermitting(ps, r).Some?
    ensures i < |ps| && FirstAt(ps, r, i) && FirstPermitting(ps, r) == Some(ps[i])
  {
    if Permits(ps[0], r) {
      i := 0;
    } else {
      var k := FoundIsFirst(ps[1..], r);
      i := k + 1;
      forall j | 0 <= j < i
        ensures !Permits(ps[j], r)
      {
        assert j > 0 ==> ps[j] == ps[1..][j - 1];
      }
    }
  }

  /** Every limit the policy states is kept. */
  predicate Within(rules: Rules, r: Request, used: real) {
    var budget := DeriveBudget(r.params, r.context);
    var asset, chain := ScopeAsset(r.params, r.context), ScopeChain(r.params, r.context);
    && (rules.maxBudgetPerAction.Some? ==> budget <= rules.maxBudgetPerAction.value)
    && (rules.maxTotalBudget.Some? ==> used + budget <= rules.maxTotalBudget.value)
    && (rules.allowedAssets.Some? && asset.Some? ==> asset.value in rules.allowedAssets.value)
    && (rules.allowedChains.Some? && chain.Some? ==> chain.value in rules.allowedChains.value)
    && (rules.riskThreshold.Some? ==> DeriveRiskScore(r.riskLevel, r.context) <= rules.riskThreshold.value)
  }

  /** Nobody asks for a confirmation: not the policy, the action, the risk or the request itself. */
  predicate Unconfirmed(rules: Rules, r: Request) {
    && !rules.requiresConfirmation && r.action != "luffa.trigger_payment" && r.action != "luffa.reward_user"
    && DeriveRiskScore(r.riskLevel, r.context) < 0.75
    && !("requiresConfirmation" in r.context && r.context["requiresConfirmation"] == Bool(true))
  }

  /**
    * A request is allowed exactly when no policy denies it, and the first permitting one has every limit
    * kept and no confirmation asked for; with a confirmation asked for, it is left to that.
    */
  lemma AllowedIff(ps: seq<Policy>, r: Request, used: real)
    ensures Evaluate(ps, r, used).0 == ALLOW <==>
              && (forall p | p in ps :: !Denies(p, r))
              && exists i | 0 <= i < |ps| ::
                   FirstAt(ps, r, i) && Within(ps[i].rules, r, used) && Unconfirmed(ps[i].rules, r)
    ensures Evaluate(ps, r, used).0 == REQUIRES_CONFIRMATION <==>
              && (forall p | p in ps :: !Denies(p, r))
              && exists i | 0 <= i < |ps| ::
                   FirstAt(ps, r, i) && Within(ps[i].rules, r, used) && !Unconfirmed(ps[i].rules, r)
  {
    if FirstPermitting(ps, r).Some? {
      var first := FoundIsFirst(ps, r);
      LimitsAndConfirmation(ps[first].rules, r, used);
    }
    forall i | 0 <= i < |ps| && FirstAt(ps, r, i)
      ensures FirstPermitting(ps, r) == Some(ps[i])
    {
      FirstIsFound(ps, r, i);
    }
  }

  lemma LimitsAndConfirmation(rules: Rules, r: Request, used: real)
    ensures Within(rules, r, used) <==> !Exceeds(rules, r, used)
    ensures Unconfirmed(rules, r) <==> !NeedsConfirmation(rules, r)
  {
  }

  /** A decision names the first denying policy, else the first permitting one, and none when there is neither. */
  lemma BlamedPolicy(ps: seq<Policy>, r: Request, used: real)
    ensures var (decision, id) := Evaluate(ps, r, used);
            && (id.None? <==> forall p | p in ps :: !Denies(p, r) && !Permits(p, r))
            && (id.None? ==> decision == DENY)
            && (id.Some? ==>
                  exists i | 0 <= i < |ps| ::
                    && ps[i].policyId == id.value
                    && if exists p | p in ps :: Denies(p, r)
                       then decision == DENY && Denies(ps[i], r) && forall j | 0 <= j < i :: !Denies(ps[j], r)
                       else FirstAt(ps, r, i))
  {
    if FirstDenying(ps, r).Some? {
      var i := DenyingIsFirst(ps, r);
    } else if FirstPermitting(ps, r).Some? {
      var i := FoundIsFirst(ps, r);
    }
  }

  lemma {:induction false} DenyingIsFirst(ps: seq<Policy>, r: Request) returns (i: nat)
    requires FirstDenying(ps, r).Some?
    ensures i < |ps| && FirstDenying(ps, r) == Some(ps[i])
    ensures Denies(ps[i], r) && forall j | 0 <= j < i :: !Denies(ps[j], r)
  {
    if Denies(ps[0], r) {
      i := 0;
    } else {
      var k := DenyingIsFirst(ps[1..], r);
      i := k + 1;
      forall j | 0 <= j < i
        ensures !Denies(ps[j], r)
      {
        assert j > 0 ==> ps[j] == ps[1..][j - 1];
      }
    }
  }

  /** Agents of high or critical risk are never simply allowed, unless the request states a risk score of its own. */
  lemma RiskyAgentNeverAllowed(ps: seq<Policy>, r: Request, used: real)
    requires (r.riskLevel == HIGH || r.riskLevel == CRITICAL) && NumberAt(r.context, "riskScore").None?
    ensures Evaluate(ps, r, used).0 != ALLOW
  {
  }

  /** Payments and rewards are never simply allowed. */
  lemma HighRiskNeverAllowed(ps: seq<Policy>, r: Request, used: real)
    requires IsHighRiskAction(r.action)
    ensures Evaluate(ps, r, used).0 != ALLOW
  {
  }

  lemma {:induction false} InsertKeepsFirstPermitting(ps: seq<Policy>, p: Policy, r: Request)
    requires !Permits(p, r)
    ensures FirstPermitting(Insert(ps, p), r) == FirstPermitting(ps, r)
  {
    if ps != [] && ps[0].priority >= p.priority {
      InsertKeepsFirstPermitting(ps[1..], p, r);
      assert Insert(ps, p)[1..] == Insert(ps[1..], p);
    } else {
      assert Insert(ps, p)[1..] == ps;
    }
  }

  /** A further policy that allows nothing never turns a refusal into ALLOW, at any priority. */
  lemma DenyOnlyPolicyNeverAllows(policies: seq<Policy>, p: Policy, r: Request, used: real)
    requires p.rules.allowedActions == []
    requires Evaluate(ActivePolicies(policies + [p], r.ownerRef), r, used).0 == ALLOW
    ensures Evaluate(ActivePolicies(policies, r.ownerRef), r, used).0 == ALLOW
  {
    var before := ActivePolicies(policies, r.ownerRef);
    assert (policies + [p])[..|policies|] == policies;
    if IsActiveOf(p, r.ownerRef) {
      InsertKeepsFirstPermitting(before, p, r);
      forall q | q in before
        ensures !Denies(q, r)
      {
        InsertMembers(before, p, q);
      }
    }
  }

  // ----- The total budget over whole runs

  datatype PermissionState = PermissionState(policies: seq<Policy>, audits: seq<Audit>)

  datatype PermissionOp =
    | CreatePolicy(policy: Policy)
    | EvaluateRequest(request: Request, decisionId: string)
    | RecordDeny(request: Request, decisionId: string)

  function StepPermission(s: PermissionState, op: PermissionOp): PermissionState {
    match op
    case CreatePolicy(p) => if HasPolicy(s.policies, p.policyId) then s else s.(policies := s.policies + [p])
    case EvaluateRequest(r, id) => s.(audits := s.audits + [EvaluationAudit(s.policies, s.audits, r, id)])
    case RecordDeny(r, id) => s.(audits := s.audits + [MakeAudit(r, id, DENY, None)])
  }

  predicate HasPolicy(policies: seq<Policy>, policyId: string) {
    exists i | 0 <= i < |policies| :: policies[i].policyId == policyId
  }

  function RunPermission(s: PermissionState, ops: seq<PermissionOp>): PermissionState
    decreases |ops|
  {
    if ops == [] then s else RunPermission(StepPermission(s, ops[0]), ops[1..])
  }

  /** Every policy of the owner that allows anything carries a total budget of at most the bound. */
  predicate Capped(policies: seq<Policy>, owner: string, bound: real) {
    forall p | p in policies && p.ownerRef == owner && p.rules.allowedActions != [] ::
      p.rules.maxTotalBudget.Some? && p.rules.maxTotalBudget.value <= bound
  }

  /** The agent is always evaluated for this owner. */
  predicate OwnedBy(op: PermissionOp, agentId: string, owner: string) {
    op.EvaluateRequest? && op.request.agentId == agentId ==> op.request.ownerRef == owner
  }

  lemma SumAppend(audits: seq<Audit>, a: Audit, agentId: string)
    ensures Sum(audits + [a], agentId)
            == Sum(audits, agentId) + (if a.agentId == agentId && a.decision == ALLOW then a.budget else 0.0)
  {
  }

  /** An evaluation is stored for its agent and action, and charges its budget when, and only when, it allows. */
  lemma EvaluationCharges(policies: seq<Policy>, audits: seq<Audit>, r: Request, decisionId: string)
    ensures var a := EvaluationAudit(policies, audits, r, decisionId);
            && a.decisionId == decisionId && a.agentId == r.agentId && a.action == r.action
            && (a.requiresConfirmation <==> a.decision == REQUIRES_CONFIRMATION)
            && Sum(audits + [a], r.agentId)
               == Sum(audits, r.agentId) + (if a.decision == ALLOW then DeriveBudget(r.params, r.context) else 0.0)
            && forall other | other != r.agentId :: Sum(audits + [a], other) == Sum(audits, other)
  {
    var a := EvaluationAudit(policies, audits, r, decisionId);
    SumAppend(audits, a, r.agentId);
    forall other | other != r.agentId
      ensures Sum(audits + [a], other) == Sum(audits, other)
    {
      SumAppend(audits, a, other);
    }
  }

  /** One evaluation keeps the sum of allowed budgets below the cap, even for negative budgets. */
  lemma EvaluationKeepsCap(policies: seq<Policy>, audits: seq<Audit>, r: Request, decisionId: string, bound: real)
    requires Capped(policies, r.ownerRef, bound) && Sum(audits, r.agentId) <= bound
    ensures Sum(audits + [EvaluationAudit(policies, audits, r, decisionId)], r.agentId) <= bound
  {
    var a := EvaluationAudit(policies, audits, r, decisionId);
    SumAppend(audits, a, r.agentId);
    if a.decision == ALLOW {
      var ps := ActivePolicies(policies, r.ownerRef);
      var p := FirstPermitting(ps, r).value;
      ActiveIff(policies, r.ownerRef, p);
      assert p.rules.allowedActions != [];
    }
  }

  lemma {:induction false} RunAppendsPolicies(s: PermissionState, ops: seq<PermissionOp>)
    ensures s.policies <= RunPermission(s, ops).policies
    decreases |ops|
  {
    if ops == [] {
    } else {
      RunAppendsPolicies(StepPermission(s, ops[0]), ops[1..]);
    }
  }

  /**
    * The total budget cap: whatever is created and requested, in whatever order, an agent's
    * allowed budgets never add up to more than the cap of its owner's policies.
    */
  lemma {:induction false} TotalBudgetCap(s: PermissionState, ops: seq<PermissionOp>, agentId: string, owner: string,
                                          bound: real)
    requires Sum(s.audits, agentId) <= bound
    requires Capped(RunPermission(s, ops).policies, owner, bound)
    requires forall i | 0 <= i < |ops| :: OwnedBy(ops[i], agentId, owner)
    ensures Sum(RunPermission(s, ops).audits, agentId) <= bound
    decreases |ops|
  {
    if ops == [] {
    } else {
      var next := StepPermission(s, ops[0]);
      RunAppendsPolicies(s, ops);
      assert Capped(s.policies, owner, bound);
      match ops[0] {
        case CreatePolicy(p) =>
        case EvaluateRequest(r, id) =>
          SumAppend(s.audits, EvaluationAudit(s.policies, s.audits, r, id), agentId);
          if r.agentId == agentId {
            EvaluationKeepsCap(s.policies, s.audits, r, id, bound);
          }
        case RecordDeny(r, id) =>
          SumAppend(s.audits, MakeAudit(r, id, DENY, None), agentId);
      }
      TotalBudgetCap(next, ops[1..], agentId, owner, bound);
    }
  }

  // ----- The service

  class PermissionService {
    var policies: seq<Policy>
    var audits: seq<Audit>

    constructor ()
      ensures policies == [] && audits == []
    {
      policies, audits := [], [];
    }

    /** `createPolicy`: the primary key refuses an id already used. */
    method AddPolicy(p: Policy) returns (ok: bool)
      modifies this
      ensures ok <==> !HasPolicy(old(policies), p.policyId)
      ensures PermissionState(policies, audits)
              == StepPermission(old(PermissionState(policies, audits)), CreatePolicy(p))
    {
      ok := !HasPolicy(policies, p.policyId);
      if ok {
        policies := policies + [p];
      }
    }

    method WriteDecision(r: Request, decisionId: string, decision: Decision, policyId: Option<string>)
      returns (a: Audit)
      modifies this`audits
      ensures a == MakeAudit(r, decisionId, decision, policyId)
      ensures audits == old(audits) + [a]
    {
      a := Audit(decisionId, r.agentId, r.action, decision, policyId, DeriveRiskScore(r.riskLevel, r.context),
                 DeriveBudget(r.params, r.context), decision == REQUIRES_CONFIRMATION);
      audits := audits + [a];
    }

    /** The limits of the matched policy, checked one after the other. */
    method CheckLimits(rules: Rules, r: Request) returns (refused: bool)
      ensures refused == Exceeds(rules, r, Sum(audits, r.agentId))
    {
      var budget := DeriveBudget(r.params, r.context);
      if rules.maxBudgetPerAction.Some? && budget > rules.maxBudgetPerAction.value {
        return true;
      }
      if rules.maxTotalBudget.Some? {
        var used := Sum(audits, r.agentId);
        if used + budget > rules.maxTotalBudget.value {
          return true;
        }
      }
      var asset := ScopeAsset(r.params, r.context);
      if rules.allowedAssets.Some? && asset.Some? && asset.value !in rules.allowedAssets.value {
        return true;
      }
      var chain := ScopeChain(r.params, r.context);
      if rules.allowedChains.Some? && chain.Some? && chain.value !in rules.allowedChains.value {
        return true;
      }
      refused := rules.riskThreshold.Some? && DeriveRiskScore(r.riskLevel, r.context) > rules.riskThreshold.value;
    }

    /** `evaluatePermission`: the cascade of checks; each outcome writes one audit row. */
    method EvaluatePermission(r: Request, decisionId: string) returns (a: Audit)
      modifies this`audits
      ensures a == EvaluationAudit(policies, old(audits), r, decisionId)
      ensures audits == old(audits) + [a]
    {
      var active := ActivePolicies(policies, r.ownerRef);
      var denying := FirstDenying(active, r);
      if denying.Some? {
        a := WriteDecision(r, decisionId, DENY, Some(denying.value.policyId));
        return;
      }
      var allowing := FirstPermitting(active, r);
      if allowing.None? {
        a := WriteDecision(r, decisionId, DENY, None);
        return;
      }
      var rules, id := allowing.value.rules, Some(allowing.value.policyId);
      var refused := CheckLimits(rules, r);
      if refused {
        a := WriteDecision(r, decisionId, DENY, id);
        return;
      }
      var requiresConfirmation := rules.requiresConfirmation || IsHighRiskAction(r.action)
        || DeriveRiskScore(r.riskLevel, r.context) >= 0.75 || TrueAt(r.context, "requiresConfirmation");
      a := WriteDecision(r, decisionId, if requiresConfirmation then REQUIRES_CONFIRMATION else ALLOW, id);
    }

    /** `recordDeny`. */
    method RecordDenial(r: Request, decisionId: string) returns (a: Audit)
      modifies this`audits
      ensures a == MakeAudit(r, decisionId, DENY, None)
      ensures audits == old(audits) + [a]
    {
      a := WriteDecision(r, decisionId, DENY, None);
    }
  }
}
