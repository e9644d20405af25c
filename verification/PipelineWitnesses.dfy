/** Concrete runs of the pipeline that show what its limits come to. */
module PipelineWitnesses {
  import opened Wrappers
  import opened Json
  import L = Ledger
  import P = Permission
  import opened Pipeline
  import opened PipelineSafety
  import opened PipelineLimits

  // ----- Reusing an execution id

  const WITNESS_RULES := P.Rules(["*"], [], None, Some(1.0), None, None, false, None, [])
  const WITNESS_POLICY := P.Policy("policy", "owner", 0, WITNESS_RULES, true)
  const OWNER := L.AccountKey("owner", L.LUFFA_POINTS)

  function WitnessAgent(active: bool): Agent {
    Agent("agent", "owner", active, P.LOW)
  }

  /** A request to pay someone, with a budget stated or not. */
  function WitnessRequest(key: string, amount: real, context: Fields): Invocation {
    Invocation(Some("e"), None, "act",
               map["settlement" := Obj(map["amount" := Num(amount), "payeeDid" := Str("payee")])], context, key)
  }

  function WitnessWorld(decision: string, denial: string): World {
    World("new", decision, denial, "record", true, true, true, None, (v: Json) => "")
  }

  lemma WitnessInstruction(active: bool, key: string, amount: real, context: Fields, w: World)
    requires amount > 0.0
    ensures InstructionFor(WitnessAgent(active), WitnessRequest(key, amount, context), w)
            == Some(L.Instruction(None, "e", "owner", "payee", L.LUFFA_POINTS, amount, L.PointsRail))
  {
  }

  /** The policy allows the agent whatever stays within one point of budget. */
  lemma WitnessDecision(t: Tables, r: Invocation, w: World)
    requires t.policies == [WITNESS_POLICY] && r.action == "act"
    requires "riskScore" !in r.context && "requiresConfirmation" !in r.context
    requires P.Sum(t.audits, "agent") + P.DeriveBudget(r.params, r.context) <= 1.0
    ensures DecisionFor(t, WitnessAgent(true), r, w).decision == P.ALLOW
  {
    var request := PermissionRequest(r, WitnessAgent(true));
    assert P.ActivePolicies([WITNESS_POLICY][..0], "owner") == [];
    var active := P.ActivePolicies([WITNESS_POLICY], "owner");
    assert active == [WITNESS_POLICY];
    assert P.ActionMatches("act", WITNESS_RULES.allowedActions[0]);
    assert P.Permits(active[0], request) && !P.Denies(active[0], request);
    assert P.FirstAt(active, request, 0);
    P.AllowedIff(active, request, P.Sum(t.audits, "agent"));
  }

  lemma WitnessSettles(t: Tables, key: string, amount: real, context: Fields, w: World)
    requires t.policies == [WITNESS_POLICY] && P.Sum(t.audits, "agent") == 0.0 && t.books.settlements == []
    requires "riskScore" !in context && "requiresConfirmation" !in context && amount > 0.0
    requires P.DeriveBudget(WitnessRequest(key, amount, context).params, context) <= 1.0
    requires w.capabilityOk && w.handlerReturns
    ensures Settles(t, WitnessAgent(true), WitnessRequest(key, amount, context), w)
  {
    WitnessInstruction(true, key, amount, context, w);
    WitnessDecision(t, WitnessRequest(key, amount, context), w);
  }

  /** The owner with five points pays. */
  lemma WitnessPays(b: L.Books, amount: real, newId: string, answer: Option<L.AdapterAnswer>)
    requires b.accounts == map[OWNER := L.Account(5.0, false)] && b.settlements == [] && 0.0 < amount <= 5.0
    ensures var i := L.Instruction(None, "e", "owner", "payee", L.LUFFA_POINTS, amount, L.PointsRail);
            L.Balance(L.AfterSettle(b, i, newId, answer).accounts, OWNER) == 5.0 - amount
  {
    var i := L.Instruction(None, "e", "owner", "payee", L.LUFFA_POINTS, amount, L.PointsRail);
    assert L.AccountKey("payee", L.LUFFA_POINTS) != OWNER;
    assert L.TransferError(b.accounts, i).None?;
    L.MovedBalances(b.accounts, i, OWNER);
  }

  /** The owner gets five points and a policy. */
  const FUNDED: seq<PipelineOp> := [GiveCredit("owner", L.LUFFA_POINTS, 5.0), AddPolicy(WITNESS_POLICY)]

  lemma FundedTables()
    ensures WellUsedRun(EMPTY_TABLES, FUNDED)
    ensures RunPipeline(EMPTY_TABLES, FUNDED)
            == EMPTY_TABLES.(books := L.Books(map[OWNER := L.Account(5.0, false)], [], [L.Credit("owner", 5.0)]),
                             policies := [WITNESS_POLICY])
  {
    var t1 := StepPipeline(EMPTY_TABLES, FUNDED[0]);
    assert t1.books == L.Books(map[OWNER := L.Account(5.0, false)], [], [L.Credit("owner", 5.0)]);
    var t2 := StepPipeline(t1, FUNDED[1]);
    assert FUNDED[1..] == [AddPolicy(WITNESS_POLICY)] && FUNDED[1..][1..] == [];
    assert RunPipeline(t2, []) == t2;
  }

  lemma {:induction false} RunOneMore(t: Tables, ops: seq<PipelineOp>, op: PipelineOp)
    ensures RunPipeline(t, ops + [op]) == StepPipeline(RunPipeline(t, ops), op)
    ensures WellUsedRun(t, ops) && WellUsed(RunPipeline(t, ops), op) ==> WellUsedRun(t, ops + [op])
    decreases |ops|
  {
    if ops == [] {
      assert ops + [op] == [op] && [op][1..] == [];
    } else {
      RunOneMore(StepPipeline(t, ops[0]), ops[1..], op);
      assert (ops + [op])[1..] == ops[1..] + [op];
    }
  }

  /** A call of the agent while it is inactive, which is refused and stored under the id "e". */
  const REFUSED :=
    InvokeAgent(WitnessAgent(false), WitnessRequest("other", 1.0, map[]), WitnessWorld("first", "second"))

  lemma RefusedCall(t: Tables)
    requires t.audits == [] && t.executions == [] && t.idempotency == map[]
    ensures WellUsed(t, REFUSED)
    ensures var t' := StepPipeline(t, REFUSED);
            && t'.books == t.books && t'.policies == t.policies && t'.invoked == t.invoked
            && t'.executions == [Execution("e", "agent", "act", DENIED, "first", None)]
            && t'.idempotency == map[ScopedKey("other", "agent") := IdempotencyRow("e", "agent")]
            && |t'.audits| == 1 && t'.audits[0].decisionId == "first" && t'.audits[0].decision == P.DENY
  {
    var r, w := REFUSED.invocation, REFUSED.world;
    var denial := P.MakeAudit(PermissionRequest(r, WitnessAgent(false)), "first", P.DENY, None);
    assert "first" != "second" by { assert |"first"| != |"second"|; }
    assert FindAudit([denial], "first") == Some(denial);
  }

  /**
    * Reusing the id of a stored execution, in a reachable state: the owner pays one point, the call
    * throws, and neither an execution nor a key tells of it.
    */
  lemma TakenIdPays() returns (ops: seq<PipelineOp>, agent: Agent, r: Invocation, w: World)
    ensures WellUsedRun(EMPTY_TABLES, ops) && Consistent(RunPipeline(EMPTY_TABLES, ops))
    ensures var t := RunPipeline(EMPTY_TABLES, ops);
            var (t', o) := Invoke(t, agent, r, w);
            && Replay(t, agent.internalId, r.idempotencyKey).None? && FreshDecisions(t, w)
            && !FreshExecution(t, r, w) && Settles(t, agent, r, w)
            && o.Threw? && t'.executions == t.executions && t'.idempotency == t.idempotency
            && L.Balance(t.books.accounts, OWNER) == 5.0 && L.Balance(t'.books.accounts, OWNER) == 4.0
  {
    FundedTables();
    ops := FUNDED + [REFUSED];
    var funded := RunPipeline(EMPTY_TABLES, FUNDED);
    RefusedCall(funded);
    RunOneMore(EMPTY_TABLES, FUNDED, REFUSED);
    ReachableIsConsistent(ops);
    agent, r, w := WitnessAgent(true), WitnessRequest("key", 1.0, map[]), WitnessWorld("third", "fourth");
    TakenCall(RunPipeline(EMPTY_TABLES, ops), r, w);
  }

  lemma TakenCall(t: Tables, r: Invocation, w: World)
    requires r == WitnessRequest("key", 1.0, map[]) && w == WitnessWorld("third", "fourth")
    requires t.books == L.Books(map[OWNER := L.Account(5.0, false)], [], [L.Credit("owner", 5.0)])
    requires t.policies == [WITNESS_POLICY]
    requires t.executions == [Execution("e", "agent", "act", DENIED, "first", None)]
    requires t.idempotency == map[ScopedKey("other", "agent") := IdempotencyRow("e", "agent")]
    requires |t.audits| == 1 && t.audits[0].decisionId == "first" && t.audits[0].decision == P.DENY
    ensures Replay(t, "agent", "key").None? && FreshDecisions(t, w) && !FreshExecution(t, r, w)
    ensures Settles(t, WitnessAgent(true), r, w)
    ensures var (t', o) := Invoke(t, WitnessAgent(true), r, w);
            && o.Threw? && t'.executions == t.executions && t'.idempotency == t.idempotency
            && L.Balance(t'.books.accounts, OWNER) == 4.0
  {
    TakenIds(t, r, w);
    WitnessInstruction(true, "key", 1.0, map[], w);
    WitnessSettles(t, "key", 1.0, map[], w);
    WitnessPays(t.books, 1.0, w.newSettlementId, w.answer);
    BooksChangeIff(t, WitnessAgent(true), r, w);
    ThrowsIfTaken(t, WitnessAgent(true), r, w);
  }

  lemma TakenIds(t: Tables, r: Invocation, w: World)
    requires r == WitnessRequest("key", 1.0, map[]) && w == WitnessWorld("third", "fourth")
    requires t.executions == [Execution("e", "agent", "act", DENIED, "first", None)]
    requires t.idempotency == map[ScopedKey("other", "agent") := IdempotencyRow("e", "agent")]
    requires |t.audits| == 1 && t.audits[0].decisionId == "first" && t.audits[0].decision == P.DENY
    ensures Replay(t, "agent", "key").None? && FreshDecisions(t, w) && !FreshExecution(t, r, w)
    ensures P.Sum(t.audits, "agent") == 0.0
  {
    assert |ScopedKey("key", "agent")| != |ScopedKey("other", "agent")|;
    assert "first"[0] != "third"[0] && "first"[1] != "fourth"[1] && "third"[0] != "fourth"[0];
    assert t.audits[1..] == [] && t.audits[..0] == [];
    assert FindAudit(t.audits, "third").None? && FindAudit(t.audits, "fourth").None?;
  }

  // ----- Naming the payment of another execution

  const PAYS := InvokeAgent(WitnessAgent(true), WitnessRequest("key", 1.0, map[]), WitnessWorld("first", "second"))

  /** A request that names the record of the payment, under an execution id of its own. */
  const NAMES := Invocation(None, None, "act",
                            map["settlement" := Obj(map["amount" := Num(1.0), "payeeDid" := Str("payee"),
                                                        "settlementId" := Str("record")])],
                            map["budget" := Num(0.0)], "again")

  lemma NamesInstruction(w: World)
    ensures var i := InstructionFor(WitnessAgent(true), NAMES, w);
            && i.Some? && i.value.settlementId == Some("record") && i.value.rail == L.PointsRail
  {
    var settlement: Fields := map["amount" := Num(1.0), "payeeDid" := Str("payee"), "settlementId" := Str("record")];
    assert |"amount"| != |"payeeDid"| && |"amount"| != |"settlementId"| && |"payeeDid"| != |"settlementId"|;
    assert NumberAt(settlement, "amount") == Some(1.0);
    assert StringAt(settlement, "settlementId") == Some("record");
    assert TextAt(settlement, "payeeDid", w.render) == Some("payee");
    assert ObjectAt(NAMES.params, "settlement") == Some(settlement);
  }

  /** A fresh call leaves its own key besides those there were. */
  lemma OneKeyAfter(t: Tables, agent: Agent, r: Invocation, w: World)
    requires Consistent(t) && WellUsed(t, InvokeAgent(agent, r, w))
    requires Replay(t, agent.internalId, r.idempotencyKey).None?
    ensures Invoke(t, agent, r, w).0.idempotency.Keys
            == t.idempotency.Keys + {ScopedKey(r.idempotencyKey, agent.internalId)}
  {
    var m, e := InvokeRecords(t, agent, r, w);
    RecordShape(t, m, e, r.idempotencyKey);
  }

  /** The funded tables, before any call. */
  predicate Funded(t: Tables) {
    && t.policies == [WITNESS_POLICY] && t.audits == [] && t.executions == [] && t.idempotency == map[]
    && t.books.accounts == map[OWNER := L.Account(5.0, false)] && t.books.settlements == []
  }

  /** The tables after the call that paid one point. */
  predicate Paid(t: Tables) {
    && t.policies == [WITNESS_POLICY]
    && |t.executions| == 1 && t.executions[0].executionId == "e"
    && t.idempotency.Keys == {ScopedKey("key", "agent")}
    && |t.audits| == 1 && t.audits[0].decisionId == "first" && P.Sum(t.audits, "agent") == 1.0
    && PaidRecord(t.books)
  }

  predicate PaidRecord(b: L.Books) {
    var s := L.FindRecord(b.settlements, "record");
    s.Some? && L.Counts(s.value) && s.value.executionId == "e"
  }

  lemma PayingFresh(t: Tables)
    requires Funded(t)
    ensures WellUsed(t, PAYS) && Replay(t, "agent", "key").None?
    ensures Settles(t, WitnessAgent(true), PAYS.invocation, PAYS.world)
  {
    assert "first"[0] != "second"[0];
    WitnessSettles(t, "key", 1.0, map[], PAYS.world);
  }

  lemma PayingRecord(b: L.Books, answer: Option<L.AdapterAnswer>)
    requires b.accounts == map[OWNER := L.Account(5.0, false)] && b.settlements == []
    ensures PaidRecord(L.AfterSettle(b, L.Instruction(None, "e", "owner", "payee", L.LUFFA_POINTS, 1.0, L.PointsRail),
                                     "record", answer))
  {
    var i := L.Instruction(None, "e", "owner", "payee", L.LUFFA_POINTS, 1.0, L.PointsRail);
    assert L.AccountKey("payee", L.LUFFA_POINTS) != OWNER;
    assert L.TransferError(b.accounts, i).None?;
    NamedRecord(b, i, "record", answer);
  }

  lemma PaidFrom(t: Tables, t': Tables, decision: P.Audit)
    requires Funded(t) && t'.policies == t.policies && t'.audits == t.audits + [decision] && PaidRecord(t'.books)
    requires decision.decisionId == "first" && decision.decision == P.ALLOW && decision.agentId == "agent"
    requires decision.budget == 1.0
    requires |t'.executions| == 1 && t'.executions[0].executionId == "e"
    requires t'.idempotency.Keys == t.idempotency.Keys + {ScopedKey("key", "agent")}
    ensures Paid(t')
  {
    P.SumAppend([], decision, "agent");
    assert t'.audits == [] + [decision];
  }

  lemma PayingBooks(t: Tables)
    requires Funded(t)
    ensures var t', decision := StepPipeline(t, PAYS), DecisionFor(t, WitnessAgent(true), PAYS.invocation, PAYS.world);
            && t'.audits == t.audits + [decision] && PaidRecord(t'.books)
            && decision.decisionId == "first" && decision.decision == P.ALLOW && decision.agentId == "agent"
            && decision.budget == 1.0
  {
    PayingFresh(t);
    WitnessInstruction(true, "key", 1.0, map[], PAYS.world);
    PayingRecord(t.books, PAYS.world.answer);
    BooksChangeIff(t, WitnessAgent(true), PAYS.invocation, PAYS.world);
  }

  /** A fresh call stores one execution under its id and leaves one key more. */
  lemma FreshRows(t: Tables, agent: Agent, r: Invocation, w: World)
    requires Consistent(t) && WellUsed(t, InvokeAgent(agent, r, w))
    requires Replay(t, agent.internalId, r.idempotencyKey).None?
    ensures var (t', o) := Invoke(t, agent, r, w);
            && o.Returned? && t'.policies == t.policies && t'.executions == t.executions + [o.value]
            && o.value.executionId == IdFor(r, w)
            && t'.idempotency.Keys == t.idempotency.Keys + {ScopedKey(r.idempotencyKey, agent.internalId)}
  {
    InvokeIsSafe(t, agent, r, w);
    OneKeyAfter(t, agent, r, w);
  }

  /** The call that pays one point. */
  lemma PayingCall(t: Tables)
    requires Consistent(t) && Funded(t)
    ensures WellUsed(t, PAYS) && Paid(StepPipeline(t, PAYS))
  {
    PayingFresh(t);
    PayingBooks(t);
    FreshRows(t, WitnessAgent(true), PAYS.invocation, PAYS.world);
    PaidFrom(t, StepPipeline(t, PAYS), DecisionFor(t, WitnessAgent(true), PAYS.invocation, PAYS.world));
  }

  lemma NamingFresh(t: Tables, w: World)
    requires w == WitnessWorld("third", "fourth") && Paid(t)
    ensures Replay(t, "agent", "again").None? && FreshDecisions(t, w) && FreshExecution(t, NAMES, w)
  {
    assert |ScopedKey("key", "agent")| != |ScopedKey("again", "agent")|;
    assert "first"[0] != "third"[0] && "first"[1] != "fourth"[1] && "third"[0] != "fourth"[0] && |"e"| != |"new"|;
    assert t.audits[1..] == [] && t.executions[1..] == [];
  }

  lemma NamingAllowed(t: Tables, w: World)
    requires Paid(t)
    ensures DecisionFor(t, WitnessAgent(true), NAMES, w).decision == P.ALLOW
  {
    assert |"riskScore"| != |"budget"| && |"requiresConfirmation"| != |"budget"|;
    WitnessDecision(t, NAMES, w);
  }

  /** The guards that the naming call passes. */
  lemma NamingGuards(t: Tables, w: World)
    requires w == WitnessWorld("third", "fourth") && Paid(t)
    ensures var agent, s := WitnessAgent(true), L.FindRecord(t.books.settlements, "record");
            && s.Some? && NoColon(agent.internalId) && FreshDecisions(t, w) && FreshExecution(t, NAMES, w)
            && Replay(t, agent.internalId, NAMES.idempotencyKey).None?
            && agent.active && DecisionFor(t, agent, NAMES, w).decision == P.ALLOW && w.capabilityOk && w.handlerReturns
            && !MissingWallet(NAMES, IdFor(NAMES, w), agent, w) && InstructionFor(agent, NAMES, w).Some?
            && L.FindRecord(t.books.settlements, L.IdOf(InstructionFor(agent, NAMES, w).value, w.newSettlementId)) == s
  {
    NamingFresh(t, w);
    NamesInstruction(w);
    NamingAllowed(t, w);
  }

  /** The call that names the payment. */
  lemma NamingCall(t: Tables, w: World)
    requires w == WitnessWorld("third", "fourth") && Consistent(t) && Paid(t)
    ensures WellUsed(t, InvokeAgent(WitnessAgent(true), NAMES, w))
    ensures var (t', o) := Invoke(t, WitnessAgent(true), NAMES, w);
            && t'.books == t.books && o.Returned? && o.value.status == SUCCESS
            && o.value.settlementId == Some("record") && o.value.executionId == "new"
  {
    NamingGuards(t, w);
    NamesStored(t, WitnessAgent(true), NAMES, w, L.FindRecord(t.books.settlements, "record").value);
  }

  /** A run whose last call ends in SUCCESS, names a completed payment of another execution and pays nothing. */
  lemma UnpaidSuccess() returns (ops: seq<PipelineOp>, agent: Agent, r: Invocation, w: World)
    ensures WellUsedRun(EMPTY_TABLES, ops + [InvokeAgent(agent, r, w)])
    ensures var t := RunPipeline(EMPTY_TABLES, ops);
            var (t', o) := Invoke(t, agent, r, w);
            && t'.books == t.books && o.Returned? && o.value.status == SUCCESS && o.value.settlementId.Some?
            && var s := L.FindRecord(t.books.settlements, o.value.settlementId.value);
            && s.Some? && L.Counts(s.value) && s.value.executionId != o.value.executionId
  {
    ops := FUNDED + [PAYS];
    agent, r, w := WitnessAgent(true), NAMES, WitnessWorld("third", "fourth");
    PaidRun();
    NamingCall(RunPipeline(EMPTY_TABLES, ops), w);
    assert |"e"| != |"new"|;
    RunOneMore(EMPTY_TABLES, ops, InvokeAgent(agent, r, w));
  }

  lemma PaidRun()
    ensures WellUsedRun(EMPTY_TABLES, FUNDED + [PAYS])
    ensures var t := RunPipeline(EMPTY_TABLES, FUNDED + [PAYS]); Consistent(t) && Paid(t)
  {
    FundedTables();
    ReachableIsConsistent(FUNDED);
    PayingCall(RunPipeline(EMPTY_TABLES, FUNDED));
    RunOneMore(EMPTY_TABLES, FUNDED, PAYS);
    ReachableIsConsistent(FUNDED + [PAYS]);
  }

  // ----- Stating a budget of zero

  const NO_BUDGET: Fields := map["budget" := Num(0.0)]

  /** An owner capped at one point pays five for a call that states a budget of zero. */
  lemma BudgetMissesAmount() returns (ops: seq<PipelineOp>)
    ensures WellUsedRun(EMPTY_TABLES, ops)
    ensures var t := RunPipeline(EMPTY_TABLES, ops);
            P.Capped(t.policies, "owner", 1.0) && Spent(t, "agent") == 5.0
            && L.Balance(t.books.accounts, OWNER) == 0.0
  {
    FundedTables();
    var t := RunPipeline(EMPTY_TABLES, FUNDED);
    var agent, r, w := WitnessAgent(true), WitnessRequest("key", 5.0, NO_BUDGET), WitnessWorld("first", "second");
    var op := InvokeAgent(agent, r, w);
    ops := FUNDED + [op];
    assert "first"[0] != "second"[0];
    assert NoColon("agent");
    RunOneMore(EMPTY_TABLES, FUNDED, op);
    ReachableIsConsistent(FUNDED);
    CheapCall(t, r, w);
  }

  lemma CheapCall(t: Tables, r: Invocation, w: World)
    requires r == WitnessRequest("key", 5.0, NO_BUDGET) && w == WitnessWorld("first", "second")
    requires Consistent(t) && WellUsed(t, InvokeAgent(WitnessAgent(true), r, w))
    requires t.books.accounts == map[OWNER := L.Account(5.0, false)] && t.books.settlements == []
    requires t.policies == [WITNESS_POLICY] && t.audits == [] && Replay(t, "agent", "key").None?
    ensures var t' := Invoke(t, WitnessAgent(true), r, w).0;
            t'.policies == t.policies && Spent(t', "agent") == 5.0 && L.Balance(t'.books.accounts, OWNER) == 0.0
  {
    WitnessInstruction(true, "key", 5.0, NO_BUDGET, w);
    assert "riskScore"[0] != "budget"[0] && "requiresConfirmation"[0] != "budget"[0];
    WitnessSettles(t, "key", 5.0, NO_BUDGET, w);
    WitnessPays(t.books, 5.0, w.newSettlementId, w.answer);
    BooksChangeIff(t, WitnessAgent(true), r, w);
    SettlingRows(t, WitnessAgent(true), r, w);
    SettlingSpends(t, WitnessAgent(true), r, w, "agent");
  }
}
