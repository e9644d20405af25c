/** When a call of the invoke pipeline ends in which status. */
module PipelineStatus {
  import opened Wrappers
  import opened Json
  import L = Ledger
  import P = Permission
  import opened Pipeline
  import opened PipelineSafety

  /** Neither the execution id nor the scoped key is taken, so recording an execution cannot throw. */
  predicate Unrecorded(t: Tables, id: string, key: string, agentId: string) {
    FindExecution(t.executions, id).None? && ScopedKey(key, agentId) !in t.idempotency
  }

  /** The record stored under this id is one that was rolled back. */
  predicate RolledBack(b: L.Books, id: string) {
    var s := L.FindRecord(b.settlements, id);
    s.Some? && s.value.status == L.ROLLED_BACK
  }

  /** A chain rail without a verified wallet. */
  predicate WalletMissing(i: Option<L.Instruction>, w: World) {
    i.Some? && i.value.rail != L.PointsRail && !w.walletBound
  }

  lemma DeniedShape(t: Tables, r: Invocation, id: string, agent: Agent, a: P.Audit)
    requires FindAudit(t.audits, a.decisionId) == Some(a) && a.agentId == agent.internalId && a.action == r.action
    requires Unrecorded(t, id, r.idempotencyKey, agent.internalId)
    ensures var (t', o) := RecordDenied(t, r, id, agent, a);
            && o == Returned(Execution(id, agent.internalId, r.action, DENIED, a.decisionId, None))
            && t'.audits == t.audits && t'.books == t.books
  {
  }

  lemma RecordedWhole(t: Tables, key: string, e: Execution)
    requires Unrecorded(t, e.executionId, key, e.agentId)
    ensures var (t', o) := Record(t, key, e); o == Returned(e) && t'.audits == t.audits && t'.books == t.books
  {
  }

  /** The status and settlement of an action that runs. */
  lemma ExecuteShape(t: Tables, r: Invocation, id: string, agent: Agent, a: P.Audit, w: World,
                     i: Option<L.Instruction>)
    requires Persisted(t, agent.internalId, r.action, a) && a.decision == P.ALLOW
    requires Unrecorded(t, id, r.idempotencyKey, agent.internalId) && i == BuildInstruction(r, id, agent, w.render)
    ensures var (t', o) := Execute(t, r, id, agent, a, w);
            && o.Returned? && t'.audits == t.audits && o.value.decisionId == a.decisionId
            && (if w.handlerReturns && i.Some?
                then && o.value.settlementId == Some(L.IdOf(i.value, w.newSettlementId))
                     && o.value.status == (if RolledBack(t'.books, L.IdOf(i.value, w.newSettlementId))
                                           then FAILED else SUCCESS)
                else && o.value.settlementId == None && t'.books == t.books
                     && o.value.status == (if w.handlerReturns then SUCCESS else FAILED))
  {
    if w.handlerReturns && i.Some? {
      L.SettledIsStored(t.books, i.value, w.newSettlementId, w.answer);
      var settled := L.SettleResult(t.books, i.value, w.newSettlementId, w.answer).value;
      var t1 := t.(books := L.AfterSettle(t.books, i.value, w.newSettlementId, w.answer),
                   invoked := t.invoked + InsertedId(t.books, i.value, w.newSettlementId));
      var e := Execution(id, agent.internalId, r.action, if settled.status == L.ROLLED_BACK then FAILED else SUCCESS,
                         a.decisionId, Some(settled.settlementId));
      RecordedWhole(t1, r.idempotencyKey, e);
    }
  }

  /** What is returned, and the audit rows written, once the decision of an active agent is stored. */
  lemma DecisionShape(t: Tables, agent: Agent, r: Invocation, id: string, decision: P.Audit, w: World,
                      i: Option<L.Instruction>)
    requires FindAudit(t.audits, decision.decisionId) == Some(decision) && FindAudit(t.audits, w.denialId).None?
    requires decision.agentId == agent.internalId && decision.action == r.action
    requires Unrecorded(t, id, r.idempotencyKey, agent.internalId) && i == BuildInstruction(r, id, agent, w.render)
    ensures var (t', o) := AfterDecision(t, agent, r, id, decision, w);
            var allowed := decision.decision == P.ALLOW && w.capabilityOk;
            && o.Returned?
            && (o.value.status == DENIED <==> !allowed || WalletMissing(i, w))
            && (o.value.status == FAILED <==>
                  && allowed && !WalletMissing(i, w)
                  && (!w.handlerReturns
                      || (i.Some? && RolledBack(t'.books, L.IdOf(i.value, w.newSettlementId)))))
            && o.value.settlementId
               == (if allowed && !WalletMissing(i, w) && w.handlerReturns && i.Some?
                   then Some(L.IdOf(i.value, w.newSettlementId)) else None)
            && (if allowed && WalletMissing(i, w)
                then && t'.audits == t.audits + [P.MakeAudit(PermissionRequest(r, agent), w.denialId, P.DENY, None)]
                     && o.value.decisionId == w.denialId
                else t'.audits == t.audits && o.value.decisionId == decision.decisionId)
  {
    if decision.decision != P.ALLOW || !w.capabilityOk {
      DeniedShape(t, r, id, agent, decision);
    } else if WalletMissing(i, w) {
      var denial := P.MakeAudit(PermissionRequest(r, agent), w.denialId, P.DENY, None);
      FindAuditAppend(t.audits, denial, w.denialId);
      DeniedShape(t.(audits := t.audits + [denial]), r, id, agent, denial);
    } else {
      ExecuteShape(t, r, id, agent, decision, w, i);
    }
  }

  /**
    * When a fresh call ends in which status. DENIED: the agent is inactive, the decision is not
    * ALLOW, the capability is missing, or a chain rail has no verified wallet. FAILED: not denied,
    * and the handler throws or the record got back is rolled back. SUCCESS: otherwise. The call
    * names a settlement exactly when its handler returned and the request asks for one, and it
    * writes the decision it rests on.
    */
  lemma StatusIff(t: Tables, agent: Agent, r: Invocation, w: World)
    requires Consistent(t) && NoColon(agent.internalId) && FreshDecisions(t, w) && FreshExecution(t, r, w)
    requires Replay(t, agent.internalId, r.idempotencyKey).None?
    ensures var (t', o) := Invoke(t, agent, r, w);
            var request := P.Request(agent.internalId, agent.ownerRef, r.action, r.params, r.context, agent.riskLevel);
            var decision := P.EvaluationAudit(t.policies, t.audits, request, w.decisionId);
            var i := BuildInstruction(r, IdFor(r, w), agent, w.render);
            var allowed := agent.active && decision.decision == P.ALLOW && w.capabilityOk;
            var walletMissing := i.Some? && i.value.rail != L.PointsRail && !w.walletBound;
            var rolledBack := i.Some? && RolledBack(t'.books, L.IdOf(i.value, w.newSettlementId));
            && o.Returned?
            && (o.value.status == DENIED <==> !allowed || walletMissing)
            && (o.value.status == FAILED <==> allowed && !walletMissing && (!w.handlerReturns || rolledBack))
            && (o.value.status == SUCCESS <==> allowed && !walletMissing && w.handlerReturns && !rolledBack)
            && o.value.settlementId
               == (if allowed && !walletMissing && w.handlerReturns && i.Some?
                   then Some(L.IdOf(i.value, w.newSettlementId)) else None)
            && o.value.decisionId == (if allowed && walletMissing then w.denialId else w.decisionId)
            && t'.audits
               == t.audits + [if agent.active then decision else P.MakeAudit(request, w.decisionId, P.DENY, None)]
                  + (if allowed && walletMissing then [P.MakeAudit(request, w.denialId, P.DENY, None)] else [])
  {
    var request := PermissionRequest(r, agent);
    KeyIsFree(t, agent.internalId, r.idempotencyKey);
    if agent.active {
      var decision := P.EvaluationAudit(t.policies, t.audits, request, w.decisionId);
      EvaluationShape(t, request, w.decisionId);
      AuditAppended(t, decision);
      FindAuditAppend(t.audits, decision, w.denialId);
      DecisionShape(t.(audits := t.audits + [decision]), agent, r, IdFor(r, w), decision, w,
                    BuildInstruction(r, IdFor(r, w), agent, w.render));
    } else {
      var denial := P.MakeAudit(request, w.decisionId, P.DENY, None);
      AuditAppended(t, denial);
      DeniedShape(t.(audits := t.audits + [denial]), r, IdFor(r, w), agent, denial);
    }
  }

  /** Nothing is executed or recorded as denied but on a decision stored for that agent and action. */
  lemma NeedsStoredDecision(t: Tables, r: Invocation, id: string, agent: Agent, a: P.Audit, w: World)
    ensures (forall row | row in t.audits && row.decisionId == a.decisionId ::
               row.agentId != agent.internalId || row.action != r.action || row.decision != a.decision) ==>
              Execute(t, r, id, agent, a, w) == (t, Threw) && RecordDenied(t, r, id, agent, a) == (t, Threw)
    ensures a.decision != P.ALLOW ==> Execute(t, r, id, agent, a, w) == (t, Threw)
  {
    if Persisted(t, agent.internalId, r.action, a) {
      assert FindAudit(t.audits, a.decisionId).value in t.audits;
    }
  }
}
