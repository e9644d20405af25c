/** Where the invoke pipeline pays: reused execution ids, repeated direct transfers, and budgets against amounts. */
module PipelineLimits {
  import opened Wrappers
  import opened Json
  import L = Ledger
  import P = Permission
  import opened Pipeline
  import opened PipelineSafety

  // ----- A call that throws after it has settled

  function DecisionFor(t: Tables, agent: Agent, r: Invocation, w: World): P.Audit {
    P.EvaluationAudit(t.policies, t.audits, PermissionRequest(r, agent), w.decisionId)
  }

  function InstructionFor(agent: Agent, r: Invocation, w: World): Option<L.Instruction> {
    BuildInstruction(r, IdFor(r, w), agent, w.render)
  }

  /** Every guard before the settlement is passed, and its record id is not used. */
  predicate Settles(t: Tables, agent: Agent, r: Invocation, w: World) {
    && agent.active && DecisionFor(t, agent, r, w).decision == P.ALLOW && w.capabilityOk
    && !MissingWallet(r, IdFor(r, w), agent, w) && w.handlerReturns
    && var i := InstructionFor(agent, r, w);
    && i.Some? && L.FindRecord(t.books.settlements, L.IdOf(i.value, w.newSettlementId)).None?
  }

  lemma DeniedBooks(t: Tables, r: Invocation, id: string, agent: Agent, a: P.Audit)
    ensures var t' := RecordDenied(t, r, id, agent, a).0; t'.books == t.books && t'.invoked == t.invoked
  {
  }

  lemma ExecuteBooks(t: Tables, r: Invocation, id: string, agent: Agent, a: P.Audit, w: World)
    requires Persisted(t, agent.internalId, r.action, a) && a.decision == P.ALLOW
    ensures var t' := Execute(t, r, id, agent, a, w).0;
            var i := BuildInstruction(r, id, agent, w.render);
            && t'.audits == t.audits
            && (if w.handlerReturns && i.Some?
                then && t'.books == L.AfterSettle(t.books, i.value, w.newSettlementId, w.answer)
                     && t'.invoked == t.invoked + InsertedId(t.books, i.value, w.newSettlementId)
                else t'.books == t.books && t'.invoked == t.invoked)
  {
  }

  /** What a decision that is not carried out leaves of the books. */
  lemma RefusedBooks(t: Tables, agent: Agent, r: Invocation, id: string, decision: P.Audit, w: World)
    requires decision.decision != P.ALLOW || !w.capabilityOk || MissingWallet(r, id, agent, w)
    ensures var t' := AfterDecision(t, agent, r, id, decision, w).0; t'.books == t.books && t'.invoked == t.invoked
  {
    DeniedBooks(t, r, id, agent, decision);
    var denial := P.MakeAudit(PermissionRequest(r, agent), w.denialId, P.DENY, None);
    DeniedBooks(t.(audits := t.audits + [denial]), r, id, agent, denial);
  }

  /**
    * A call that is no replay changes the books exactly when every guard before the settlement is
    * passed and its record id is new; it then stores one ALLOW decision and settles.
    */
  lemma BooksChangeIff(t: Tables, agent: Agent, r: Invocation, w: World)
    requires Replay(t, agent.internalId, r.idempotencyKey).None? && FreshDecisions(t, w)
    ensures var t' := Invoke(t, agent, r, w).0;
            && (t'.books != t.books <==> Settles(t, agent, r, w))
            && (t'.books == t.books ==> t'.invoked == t.invoked)
            && (Settles(t, agent, r, w) ==>
                  var i := InstructionFor(agent, r, w).value;
                  && t'.books == L.AfterSettle(t.books, i, w.newSettlementId, w.answer)
                  && t'.invoked == t.invoked + {L.IdOf(i, w.newSettlementId)}
                  && t'.audits == t.audits + [DecisionFor(t, agent, r, w)])
  {
    var id, decision := IdFor(r, w), DecisionFor(t, agent, r, w);
    var t1 := t.(audits := t.audits + [decision]);
    if !agent.active {
      var denial := P.MakeAudit(PermissionRequest(r, agent), w.decisionId, P.DENY, None);
      DeniedBooks(t.(audits := t.audits + [denial]), r, id, agent, denial);
    } else if decision.decision != P.ALLOW || !w.capabilityOk || MissingWallet(r, id, agent, w) {
      RefusedBooks(t1, agent, r, id, decision, w);
    } else {
      EvaluationShape(t, PermissionRequest(r, agent), w.decisionId);
      AuditAppended(t, decision);
      ExecuteBooks(t1, r, id, agent, decision, w);
      if InstructionFor(agent, r, w).Some? {
        SettledIffNew(t.books, InstructionFor(agent, r, w).value, w.newSettlementId, w.answer);
      }
    }
  }

  lemma SettledIffNew(b: L.Books, i: L.Instruction, newId: string, answer: Option<L.AdapterAnswer>)
    requires i.amount > 0.0
    ensures L.AfterSettle(b, i, newId, answer) != b <==> L.FindRecord(b.settlements, L.IdOf(i, newId)).None?
  {
  }

  /** What a call leaves when its execution id is taken. */
  predicate Refused(t: Tables, result: (Tables, Outcome<Execution>)) {
    result.1.Threw? && result.0.executions == t.executions && result.0.idempotency == t.idempotency
  }

  lemma DeniedIfTaken(t: Tables, r: Invocation, id: string, agent: Agent, a: P.Audit)
    requires FindExecution(t.executions, id).Some?
    ensures Refused(t, RecordDenied(t, r, id, agent, a))
  {
  }

  lemma ExecuteIfTaken(t: Tables, r: Invocation, id: string, agent: Agent, a: P.Audit, w: World)
    requires FindExecution(t.executions, id).Some?
    ensures Refused(t, Execute(t, r, id, agent, a, w))
  {
  }

  /** Whatever a call goes through, with a taken id its attempt to record the execution throws. */
  lemma ThrowsIfTaken(t: Tables, agent: Agent, r: Invocation, w: World)
    requires Replay(t, agent.internalId, r.idempotencyKey).None? && !FreshExecution(t, r, w)
    ensures Refused(t, Invoke(t, agent, r, w))
  {
    var id, decision := IdFor(r, w), DecisionFor(t, agent, r, w);
    var t1 := t.(audits := t.audits + [decision]);
    var denial := P.MakeAudit(PermissionRequest(r, agent), w.decisionId, P.DENY, None);
    var late := P.MakeAudit(PermissionRequest(r, agent), w.denialId, P.DENY, None);
    DeniedIfTaken(t.(audits := t.audits + [denial]), r, id, agent, denial);
    DeniedIfTaken(t1, r, id, agent, decision);
    DeniedIfTaken(t1.(audits := t1.audits + [late]), r, id, agent, late);
    ExecuteIfTaken(t1, r, id, agent, decision, w);
  }

  /**
    * The call throws and still changes the books exactly when its execution id is taken and every
    * guard before the settlement is passed with a new record id. The books then hold the payment,
    * and neither an execution nor a key row tells of it, so a retry is no replay.
    */
  lemma ThrowsAfterSettlingIff(t: Tables, agent: Agent, r: Invocation, w: World)
    requires Consistent(t) && NoColon(agent.internalId) && FreshDecisions(t, w)
    requires Replay(t, agent.internalId, r.idempotencyKey).None?
    ensures var (t', o) := Invoke(t, agent, r, w);
            && (o.Threw? && t'.books != t.books <==> !FreshExecution(t, r, w) && Settles(t, agent, r, w))
            && (o.Threw? && t'.books != t.books ==>
                  && t'.books == L.AfterSettle(t.books, InstructionFor(agent, r, w).value, w.newSettlementId, w.answer)
                  && t'.executions == t.executions && t'.idempotency == t.idempotency
                  && Replay(t', agent.internalId, r.idempotencyKey).None?)
  {
    BooksChangeIff(t, agent, r, w);
    InvokeReturnsIffFresh(t, agent, r, w);
    if !FreshExecution(t, r, w) {
      ThrowsIfTaken(t, agent, r, w);
    }
  }

  // ----- Which execution a settlement paid for

  lemma NamedRecord(b: L.Books, i: L.Instruction, newId: string, answer: Option<L.AdapterAnswer>)
    requires i.amount > 0.0
    ensures L.SettleResult(b, i, newId, answer).Returned?
    ensures var id, after := L.IdOf(i, newId), L.AfterSettle(b, i, newId, answer);
            var settled := L.SettleResult(b, i, newId, answer).value;
            && settled.settlementId == id && L.FindRecord(after.settlements, id) == Some(settled)
            && (L.FindRecord(b.settlements, id).None? ==> settled.executionId == i.executionId)
            && (L.FindRecord(b.settlements, id).Some? ==>
                  after == b && L.FindRecord(b.settlements, id) == Some(settled))
  {
    L.FoundAfterSettle(b, i, newId, answer);
  }

  /** The settlement an execution names is the one its call got back. */
  predicate NamesWhatSettled(t: Tables, result: (Tables, Outcome<Execution>), i: Option<L.Instruction>, w: World) {
    result.1.Returned? && result.1.value.settlementId.Some? ==>
      && i.Some? && L.SettleResult(t.books, i.value, w.newSettlementId, w.answer).Returned?
      && var settled := L.SettleResult(t.books, i.value, w.newSettlementId, w.answer).value;
      && result.1.value.settlementId == Some(settled.settlementId)
      && result.1.value.status == (if settled.status == L.ROLLED_BACK then FAILED else SUCCESS)
      && result.0.books == L.AfterSettle(t.books, i.value, w.newSettlementId, w.answer)
      && result.0.invoked == t.invoked + InsertedId(t.books, i.value, w.newSettlementId)
  }

  lemma DeniedNamesNone(t: Tables, r: Invocation, id: string, agent: Agent, a: P.Audit)
    ensures var o := RecordDenied(t, r, id, agent, a).1; o.Returned? ==> o.value.settlementId.None?
  {
  }

  lemma ExecuteNames(t: Tables, r: Invocation, id: string, agent: Agent, a: P.Audit, w: World)
    ensures NamesWhatSettled(t, Execute(t, r, id, agent, a, w), BuildInstruction(r, id, agent, w.render), w)
  {
  }

  /** A call names a settlement only when it went through to settling, and then the one it got back. */
  lemma NamesSettled(t: Tables, agent: Agent, r: Invocation, w: World)
    requires Replay(t, agent.internalId, r.idempotencyKey).None?
    ensures NamesWhatSettled(t, Invoke(t, agent, r, w), InstructionFor(agent, r, w), w)
  {
    var id, decision := IdFor(r, w), DecisionFor(t, agent, r, w);
    var t1 := t.(audits := t.audits + [decision]);
    var denial := P.MakeAudit(PermissionRequest(r, agent), w.decisionId, P.DENY, None);
    var late := P.MakeAudit(PermissionRequest(r, agent), w.denialId, P.DENY, None);
    DeniedNamesNone(t.(audits := t.audits + [denial]), r, id, agent, denial);
    DeniedNamesNone(t1, r, id, agent, decision);
    DeniedNamesNone(t1.(audits := t1.audits + [late]), r, id, agent, late);
    ExecuteNames(t1, r, id, agent, decision, w);
  }

  /**
    * An execution that names a settlement was paid by it exactly when no record had that id before
    * the call: then, and only then, the record carries the execution's id and is one that `invoke`
    * inserted. Otherwise the call changed nothing in the books and took its status from a record of
    * another execution or of a direct transfer, so SUCCESS alone does not show a payment.
    */
  lemma PaidIffNew(t: Tables, agent: Agent, r: Invocation, w: World)
    requires Consistent(t) && NoColon(agent.internalId) && FreshDecisions(t, w) && FreshExecution(t, r, w)
    requires Replay(t, agent.internalId, r.idempotencyKey).None?
    requires Invoke(t, agent, r, w).1.Returned? && Invoke(t, agent, r, w).1.value.settlementId.Some?
    ensures var (t', o) := Invoke(t, agent, r, w);
            var id := o.value.settlementId.value;
            var before, s := L.FindRecord(t.books.settlements, id), L.FindRecord(t'.books.settlements, id);
            && s.Some?
            && (s.value.executionId == o.value.executionId && id in t'.invoked <==> before.None?)
            && (before.Some? ==>
                  && t'.books == t.books && s == before
                  && o.value.status == (if s.value.status == L.ROLLED_BACK then FAILED else SUCCESS))
  {
    NamesSettled(t, agent, r, w);
    InvokeIsSafe(t, agent, r, w);
    var i := InstructionFor(agent, r, w).value;
    NamedRecord(t.books, i, w.newSettlementId, w.answer);
    var id := L.IdOf(i, w.newSettlementId);
    if L.FindRecord(t.books.settlements, id).Some? && id in t.invoked {
      assert Justified(t, L.FindRecord(t.books.settlements, id).value);
    }
  }

  lemma ExecuteNamesStored(t: Tables, r: Invocation, id: string, agent: Agent, a: P.Audit, w: World, s: L.Record)
    requires Persisted(t, agent.internalId, r.action, a) && a.decision == P.ALLOW && w.handlerReturns
    requires FindExecution(t.executions, id).None? && ScopedKey(r.idempotencyKey, agent.internalId) !in t.idempotency
    requires var i := BuildInstruction(r, id, agent, w.render);
             i.Some? && L.FindRecord(t.books.settlements, L.IdOf(i.value, w.newSettlementId)) == Some(s)
    ensures var (t', o) := Execute(t, r, id, agent, a, w);
            && t'.books == t.books && o.Returned? && o.value.settlementId == Some(s.settlementId)
            && o.value.executionId == id
            && o.value.status == if s.status == L.ROLLED_BACK then FAILED else SUCCESS
  {
  }

  /** A fresh call that passes every guard but names a stored record pays nothing and takes its status. */
  lemma NamesStored(t: Tables, agent: Agent, r: Invocation, w: World, s: L.Record)
    requires Consistent(t) && NoColon(agent.internalId) && FreshDecisions(t, w) && FreshExecution(t, r, w)
    requires Replay(t, agent.internalId, r.idempotencyKey).None?
    requires agent.active && DecisionFor(t, agent, r, w).decision == P.ALLOW && w.capabilityOk && w.handlerReturns
    requires !MissingWallet(r, IdFor(r, w), agent, w) && InstructionFor(agent, r, w).Some?
    requires L.FindRecord(t.books.settlements, L.IdOf(InstructionFor(agent, r, w).value, w.newSettlementId)) == Some(s)
    ensures var (t', o) := Invoke(t, agent, r, w);
            && t'.books == t.books && o.Returned? && o.value.settlementId == Some(s.settlementId)
            && o.value.executionId == IdFor(r, w)
            && o.value.status == if s.status == L.ROLLED_BACK then FAILED else SUCCESS
  {
    var decision := DecisionFor(t, agent, r, w);
    EvaluationShape(t, PermissionRequest(r, agent), w.decisionId);
    AuditAppended(t, decision);
    KeyIsFree(t, agent.internalId, r.idempotencyKey);
    ExecuteNamesStored(t.(audits := t.audits + [decision]), r, IdFor(r, w), agent, decision, w, s);
  }

  /** In every reachable state an execution was paid by at most one settlement. */
  lemma PaidOnce(ops: seq<PipelineOp>, s: L.Record, s': L.Record)
    requires WellUsedRun(EMPTY_TABLES, ops)
    requires var t := RunPipeline(EMPTY_TABLES, ops);
             && s in t.books.settlements && s' in t.books.settlements
             && s.settlementId in t.invoked && s'.settlementId in t.invoked && s.executionId == s'.executionId
    ensures s == s'
  {
    ReachableIsConsistent(ops);
    var t := RunPipeline(EMPTY_TABLES, ops);
    assert Justified(t, s) && Justified(t, s');
    SameId(t.books.settlements, s, s');
  }

  lemma SameId(rows: seq<L.Record>, s: L.Record, s': L.Record)
    requires L.UniqueIds(rows) && s in rows && s' in rows && s.settlementId == s'.settlementId
    ensures s == s'
  {
  }

  // ----- Direct transfers, once per key

  /** A direct transfer goes under the id it names, else under the one its key derives, else under a new one. */
  lemma TransferUnderId(t: Tables, c: TransferCall)
    requires c.instruction.amount > 0.0
    ensures var (t', o) := Transfer(t, c);
            && o.Returned? && L.FindRecord(t'.books.settlements, o.value.settlementId) == Some(o.value)
            && t' == t.(books := t'.books)
            && o.value.settlementId
               == if c.instruction.settlementId.Some? then c.instruction.settlementId.value
                  else if c.key.Some? && c.key.value != "" then c.derive(c.key.value, c.instruction.executionId)
                  else c.newId
  {
    L.SettledIsStored(t.books, TransferInstruction(c), c.newId, c.answer);
  }

  /**
    * A direct transfer repeated with its idempotency key and execution id, after any further use of
    * the service and whatever else it asks for, returns the first record and changes nothing.
    */
  lemma TransferOnce(t: Tables, c: TransferCall, between: seq<PipelineOp>, again: TransferCall)
    requires Consistent(t) && Transfer(t, c).1.Returned? && WellUsedRun(Transfer(t, c).0, between)
    requires c.instruction.settlementId.None? && c.key.Some? && c.key.value != ""
    requires again.instruction.settlementId.None? && again.key == c.key && again.derive == c.derive
    requires again.instruction.executionId == c.instruction.executionId && again.instruction.amount > 0.0
    ensures var later := RunPipeline(Transfer(t, c).0, between);
            Transfer(later, again) == (later, Transfer(t, c).1)
  {
    var after := Transfer(t, c).0;
    var later := RunPipeline(after, between);
    TransferKeeps(t, c);
    RunKeeps(after, between);
    L.FoundAfterSettle(t.books, TransferInstruction(c), c.newId, c.answer);
    L.FindInExtension(after.books.settlements, later.books.settlements, L.IdOf(TransferInstruction(c), c.newId));
  }

  // ----- Budgets against amounts

  /** The first budget the permission check looks at, before the settlement's own amount. */
  function StatedBudget(r: Invocation): Option<real> {
    Or(NumberAt(r.context, "budget"), Or(NumberAt(r.params, "budget"), NumberAt(r.params, "amount")))
  }

  /**
    * The budget charged for a call that settles is the amount it pays exactly when the call states
    * no other budget, or states that very amount.
    */
  lemma BudgetIsAmountIff(agent: Agent, r: Invocation, w: World)
    requires InstructionFor(agent, r, w).Some?
    ensures P.DeriveBudget(r.params, r.context) == InstructionFor(agent, r, w).value.amount <==>
              StatedBudget(r).None? || StatedBudget(r) == Some(InstructionFor(agent, r, w).value.amount)
  {
  }

  /** A settling call stores one execution and one record, of the amount it was asked for. */
  lemma SettlingRows(t: Tables, agent: Agent, r: Invocation, w: World)
    requires Consistent(t) && WellUsed(t, InvokeAgent(agent, r, w)) && Settles(t, agent, r, w)
    requires Replay(t, agent.internalId, r.idempotencyKey).None?
    ensures var (t', o) := Invoke(t, agent, r, w);
            && o.Returned? && Consistent(t') && Grows(t, t') && t'.policies == t.policies
            && t'.executions == t.executions + [o.value] && o.value.agentId == agent.internalId
            && FindExecution(t.executions, o.value.executionId).None?
            && t'.books != t.books && BooksStep(t, t', o.value)
            && t'.books.settlements[|t.books.settlements|].amount == InstructionFor(agent, r, w).value.amount
  {
    InvokeIsSafe(t, agent, r, w);
    BooksChangeIff(t, agent, r, w);
    SettledAmount(t.books, InstructionFor(agent, r, w).value, w.newSettlementId, w.answer);
  }

  /** It adds that amount to what its own agent spent. */
  lemma SettlingSpends(t: Tables, agent: Agent, r: Invocation, w: World, agentId: string)
    requires Consistent(t) && WellUsed(t, InvokeAgent(agent, r, w)) && Settles(t, agent, r, w)
    requires Replay(t, agent.internalId, r.idempotencyKey).None?
    ensures Spent(Invoke(t, agent, r, w).0, agentId)
            == Spent(t, agentId) + if agent.internalId == agentId then InstructionFor(agent, r, w).value.amount else 0.0
  {
    var (t', o) := Invoke(t, agent, r, w);
    SettlingRows(t, agent, r, w);
    SpentGrows(t, t', o.value, agentId);
  }

  /** The settlement was inserted by `invoke` for an execution of this agent. */
  predicate SpentBy(t: Tables, s: L.Record, agentId: string) {
    s.settlementId in t.invoked
    && var e := FindExecution(t.executions, s.executionId); e.Some? && e.value.agentId == agentId
  }

  function SpentOver(t: Tables, rows: seq<L.Record>, agentId: string): real {
    if rows == [] then 0.0 else
      var s := rows[|rows| - 1];
      SpentOver(t, rows[..|rows| - 1], agentId) + (if SpentBy(t, s, agentId) then s.amount else 0.0)
  }

  /** Everything the pipeline settled for an agent, completed or not. */
  function Spent(t: Tables, agentId: string): real {
    SpentOver(t, t.books.settlements, agentId)
  }

  lemma {:induction false} SpentSame(t: Tables, t': Tables, rows: seq<L.Record>, agentId: string)
    requires forall s | s in rows :: SpentBy(t', s, agentId) == SpentBy(t, s, agentId)
    ensures SpentOver(t', rows, agentId) == SpentOver(t, rows, agentId)
  {
    if rows == [] {
    } else {
      SpentSame(t, t', rows[..|rows| - 1], agentId);
    }
  }

  /** Growing tables attribute the stored settlements as before. */
  lemma SpentStays(t: Tables, t': Tables, s: L.Record, agentId: string)
    requires Consistent(t) && Grows(t, t') && s in t.books.settlements
    requires s.settlementId in t'.invoked ==> s.settlementId in t.invoked
    ensures SpentBy(t', s, agentId) == SpentBy(t, s, agentId)
  {
    if s.settlementId in t.invoked {
      assert Justified(t, s);
    }
  }

  /** The agent's call is charged at least what it pays, and never a negative budget. */
  predicate Charged(op: PipelineOp, agentId: string) {
    op.InvokeAgent? && op.agent.internalId == agentId ==>
      var i := InstructionFor(op.agent, op.invocation, op.world);
      P.DeriveBudget(op.invocation.params, op.invocation.context) >= if i.Some? then i.value.amount else 0.0
  }

  lemma UnusedIsNotInvoked(t: Tables, id: string)
    requires InvokedStored(t) && L.FindRecord(t.books.settlements, id).None?
    ensures id !in t.invoked
  {
  }

  /** Calls that insert no settlement leave what was spent as it is. */
  lemma SpentUnchanged(t: Tables, t': Tables, agentId: string)
    requires Consistent(t) && Grows(t, t') && t'.invoked == t.invoked && AddsRecord(t.books, t'.books)
    ensures Spent(t', agentId) == Spent(t, agentId)
  {
    var rows := t.books.settlements;
    forall s | s in rows
      ensures SpentBy(t', s, agentId) == SpentBy(t, s, agentId)
    {
      SpentStays(t, t', s, agentId);
    }
    SpentSame(t, t', rows, agentId);
    if t'.books.settlements != rows {
      var s := t'.books.settlements[|rows|];
      UnusedIsNotInvoked(t, s.settlementId);
      assert t'.books.settlements[..|rows|] == rows;
    }
  }

  /** A call that settles adds its amount to what its own agent spent. */
  lemma SpentGrows(t: Tables, t': Tables, e: Execution, agentId: string)
    requires Consistent(t) && Grows(t, t') && t'.executions == t.executions + [e]
    requires FindExecution(t.executions, e.executionId).None?
    requires |t'.books.settlements| == |t.books.settlements| + 1
    requires t'.books.settlements[..|t.books.settlements|] == t.books.settlements
    requires var s := t'.books.settlements[|t.books.settlements|];
             && L.FindRecord(t.books.settlements, s.settlementId).None?
             && t'.invoked == t.invoked + {s.settlementId} && s.executionId == e.executionId
    ensures Spent(t', agentId)
            == Spent(t, agentId)
               + if e.agentId == agentId then t'.books.settlements[|t.books.settlements|].amount else 0.0
  {
    var rows := t.books.settlements;
    var s := t'.books.settlements[|rows|];
    forall x | x in rows
      ensures SpentBy(t', x, agentId) == SpentBy(t, x, agentId)
    {
      assert x.settlementId != s.settlementId;
      SpentStays(t, t', x, agentId);
    }
    SpentSame(t, t', rows, agentId);
    FindExecutionAppend(t.executions, e, e.executionId);
  }

  lemma SettledAmount(b: L.Books, i: L.Instruction, newId: string, answer: Option<L.AdapterAnswer>)
    requires i.amount > 0.0 && L.FindRecord(b.settlements, L.IdOf(i, newId)).None?
    ensures var rows := L.AfterSettle(b, i, newId, answer).settlements;
            && |rows| == |b.settlements| + 1 && rows[|b.settlements|].amount == i.amount
  {
  }

  /** One call keeps what an agent spent within its allowed budgets. */
  lemma InvokeKeepsCovered(t: Tables, agent: Agent, r: Invocation, w: World, agentId: string)
    requires Consistent(t) && WellUsed(t, InvokeAgent(agent, r, w)) && Charged(InvokeAgent(agent, r, w), agentId)
    requires Replay(t, agent.internalId, r.idempotencyKey).None?
    requires Spent(t, agentId) <= P.Sum(t.audits, agentId)
    ensures var t' := Invoke(t, agent, r, w).0; Spent(t', agentId) <= P.Sum(t'.audits, agentId)
  {
    var t' := Invoke(t, agent, r, w).0;
    var decision := DecisionFor(t, agent, r, w);
    InvokeIsSafe(t, agent, r, w);
    BooksChangeIff(t, agent, r, w);
    AuditsCover(t, agent, r, w, agentId);
    if t'.books == t.books {
      SpentUnchanged(t, t', agentId);
    } else {
      SettlingSpends(t, agent, r, w, agentId);
      P.SumAppend(t.audits, decision, agentId);
    }
  }

  /** Charged calls never lower the sum of allowed budgets. */
  lemma AuditsCover(t: Tables, agent: Agent, r: Invocation, w: World, agentId: string)
    requires Charged(InvokeAgent(agent, r, w), agentId)
    ensures P.Sum(Invoke(t, agent, r, w).0.audits, agentId) >= P.Sum(t.audits, agentId)
  {
    var request := PermissionRequest(r, agent);
    var decision := DecisionFor(t, agent, r, w);
    P.SumAppend(t.audits, P.MakeAudit(request, w.decisionId, P.DENY, None), agentId);
    P.SumAppend(t.audits, decision, agentId);
    P.SumAppend(t.audits + [decision], P.MakeAudit(request, w.denialId, P.DENY, None), agentId);
    InvokeAudits(t, agent, r, w);
  }

  lemma StepKeepsCovered(t: Tables, op: PipelineOp, agentId: string)
    requires Consistent(t) && WellUsed(t, op) && Charged(op, agentId)
    requires Spent(t, agentId) <= P.Sum(t.audits, agentId)
    ensures var t' := StepPipeline(t, op); Spent(t', agentId) <= P.Sum(t'.audits, agentId)
  {
    var t' := StepPipeline(t, op);
    StepKeeps(t, op);
    match op
    case InvokeAgent(agent, r, w) =>
      if Replay(t, agent.internalId, r.idempotencyKey).None? {
        InvokeKeepsCovered(t, agent, r, w, agentId);
      }
    case _ =>
      OtherStepsAdd(t, op);
      SpentUnchanged(t, t', agentId);
  }

  lemma OtherStepsAdd(t: Tables, op: PipelineOp)
    requires !op.InvokeAgent?
    ensures var t' := StepPipeline(t, op);
            AddsRecord(t.books, t'.books) && t'.invoked == t.invoked && t'.audits == t.audits
  {
    if op.DirectTransfer? {
      var c := op.transfer;
      SettleAddsRecord(t.books, TransferInstruction(c), c.newId, c.answer);
    }
  }

  lemma {:induction false} RunKeepsCovered(t: Tables, ops: seq<PipelineOp>, agentId: string)
    requires Consistent(t) && WellUsedRun(t, ops) && forall i | 0 <= i < |ops| :: Charged(ops[i], agentId)
    requires Spent(t, agentId) <= P.Sum(t.audits, agentId)
    ensures var t' := RunPipeline(t, ops); Spent(t', agentId) <= P.Sum(t'.audits, agentId)
    decreases |ops|
  {
    if ops == [] {
    } else {
      assert Charged(ops[0], agentId);
      StepKeeps(t, ops[0]);
      StepKeepsCovered(t, ops[0], agentId);
      RunKeepsCovered(StepPipeline(t, ops[0]), ops[1..], agentId);
    }
  }

  /**
    * The cap on what is paid: as long as each call of the agent is charged at least what it pays, all
    * that the pipeline ever settles for the agent stays within the cap of its owner's policies.
    */
  lemma SettledCap(ops: seq<PipelineOp>, agentId: string, owner: string, bound: real)
    requires WellUsedRun(EMPTY_TABLES, ops) && bound >= 0.0
    requires P.Capped(RunPipeline(EMPTY_TABLES, ops).policies, owner, bound)
    requires forall i | 0 <= i < |ops| :: InvokedFor(ops[i], agentId, owner) && Charged(ops[i], agentId)
    ensures Spent(RunPipeline(EMPTY_TABLES, ops), agentId) <= bound
  {
    ReachableIsConsistent([]);
    RunKeepsCovered(EMPTY_TABLES, ops, agentId);
    PipelineBudgetCap(EMPTY_TABLES, ops, agentId, owner, bound);
  }
}
