/** The LAEL service: the invoke pipeline over its tables, step by step. */
module Lael {
  import opened Wrappers
  import opened Json
  import L = Ledger
  import P = Permission
  import S = Settlement
  import opened Pipeline
  import opened PipelineSafety

  class LAEL {
    const settlement: S.SettlementService
    const permission: P.PermissionService
    var executions: seq<Execution>
    var idempotency: map<string, IdempotencyRow>
    ghost var invoked: set<string>

    ghost function View(): Tables
      reads this, settlement, permission
    {
      Tables(settlement.View(), permission.policies, permission.audits, executions, idempotency, invoked)
    }

    constructor ()
      ensures View() == EMPTY_TABLES && fresh(settlement) && fresh(permission)
    {
      settlement := new S.SettlementService();
      permission := new P.PermissionService();
      executions, idempotency, invoked := [], map[], {};
    }

    /** The execution insert and `recordIdempotency`: each primary key throws when taken. */
    method RecordExecution(key: string, e: Execution) returns (o: Outcome<Execution>)
      modifies this
      ensures (View(), o) == Record(old(View()), key, e)
    {
      if FindExecution(executions, e.executionId).Some? {
        return Threw;
      }
      executions := executions + [e];
      var scoped := ScopedKey(key, e.agentId);
      if scoped in idempotency {
        return Threw;
      }
      idempotency := idempotency[scoped := IdempotencyRow(e.executionId, e.agentId)];
      o := Returned(e);
    }

    method DecisionPersisted(agentId: string, action: string, a: P.Audit) returns (ok: bool)
      ensures ok == Persisted(View(), agentId, action, a)
    {
      var row := FindAudit(permission.audits, a.decisionId);
      ok := row.Some? && row.value.agentId == agentId && row.value.action == action && row.value.decision == a.decision;
    }

    /** `recordDenied` and the key row after it. */
    method Deny(r: Invocation, executionId: string, agent: Agent, a: P.Audit) returns (o: Outcome<Execution>)
      modifies this
      ensures (View(), o) == RecordDenied(old(View()), r, executionId, agent, a)
    {
      var ok := DecisionPersisted(agent.internalId, r.action, a);
      if !ok {
        return Threw;
      }
      o := RecordExecution(r.idempotencyKey,
                           Execution(executionId, agent.internalId, r.action, DENIED, a.decisionId, None));
    }

    /** `execute`, settling in its `afterHandler`. */
    method RunAction(r: Invocation, executionId: string, agent: Agent, a: P.Audit, w: World)
      returns (o: Outcome<Execution>)
      modifies this, settlement
      ensures (View(), o) == Execute(old(View()), r, executionId, agent, a, w)
    {
      var ok := DecisionPersisted(agent.internalId, r.action, a);
      if !ok || a.decision != P.ALLOW {
        return Threw;
      }
      var status, settlementId := SUCCESS, None;
      if !w.handlerReturns {
        status := FAILED;
      } else {
        var instruction := BuildInstruction(r, executionId, agent, w.render);
        if instruction.Some? {
          invoked := invoked + InsertedId(settlement.View(), instruction.value, w.newSettlementId);
          var record := settlement.Settle(instruction.value, w.newSettlementId, w.answer);
          if record.Threw? {
            status := FAILED;
          } else {
            status := if record.value.status == L.ROLLED_BACK then FAILED else SUCCESS;
            settlementId := Some(record.value.settlementId);
          }
        }
      }
      o := RecordExecution(r.idempotencyKey,
                           Execution(executionId, agent.internalId, r.action, status, a.decisionId, settlementId));
    }

    /** `invoke`. On consistent tables and with fresh ids it keeps them consistent. */
    method InvokeAgent(agent: Agent, r: Invocation, w: World) returns (o: Outcome<Execution>)
      modifies this, settlement, permission
      ensures (View(), o) == Invoke(old(View()), agent, r, w)
      ensures old(Consistent(View())) && old(WellUsed(View(), PipelineOp.InvokeAgent(agent, r, w))) ==>
                Consistent(View())
    {
      if Consistent(View()) && WellUsed(View(), PipelineOp.InvokeAgent(agent, r, w)) {
        StepKeeps(View(), PipelineOp.InvokeAgent(agent, r, w));
      }
      o := InvokeSteps(agent, r, w);
    }

    method InvokeSteps(agent: Agent, r: Invocation, w: World) returns (o: Outcome<Execution>)
      modifies this, settlement, permission
      ensures (View(), o) == Invoke(old(View()), agent, r, w)
    {
      var scoped := ScopedKey(r.idempotencyKey, agent.internalId);
      if scoped in idempotency && idempotency[scoped].agentId == agent.internalId {
        var existing := FindExecution(executions, idempotency[scoped].executionId);
        if existing.Some? {
          return Returned(existing.value);
        }
      }
      var executionId := if r.executionId.Some? then r.executionId.value else w.newExecutionId;
      var request := P.Request(agent.internalId, agent.ownerRef, r.action, r.params, r.context, agent.riskLevel);
      if !agent.active {
        var denial := permission.RecordDenial(request, w.decisionId);
        o := Deny(r, executionId, agent, denial);
        return;
      }
      var decision := permission.EvaluatePermission(request, w.decisionId);
      o := Continue(agent, r, executionId, decision, w);
    }

    /** `transferSettlement`. On consistent tables it keeps them consistent. */
    method TransferSettlement(c: TransferCall) returns (r: Outcome<L.Record>)
      modifies this, settlement
      ensures (View(), r) == Transfer(old(View()), c)
      ensures old(Consistent(View())) ==> Consistent(View())
    {
      if Consistent(View()) {
        TransferKeeps(View(), c);
      }
      r := SettleTransfer(c);
    }

    method SettleTransfer(c: TransferCall) returns (r: Outcome<L.Record>)
      modifies this, settlement
      ensures (View(), r) == Transfer(old(View()), c)
    {
      var instruction := c.instruction;
      if instruction.settlementId.None? && c.key.Some? && c.key.value != "" {
        instruction := instruction.(settlementId := Some(c.derive(c.key.value, instruction.executionId)));
      }
      r := settlement.Settle(instruction, c.newId, c.answer);
    }

    /** The rest of `invoke` once the decision is stored. */
    method Continue(agent: Agent, r: Invocation, executionId: string, decision: P.Audit, w: World)
      returns (o: Outcome<Execution>)
      modifies this, settlement, permission
      ensures (View(), o) == AfterDecision(old(View()), agent, r, executionId, decision, w)
    {
      if decision.decision != P.ALLOW || !w.capabilityOk {
        o := Deny(r, executionId, agent, decision);
        return;
      }
      var instruction := BuildInstruction(r, executionId, agent, w.render);
      if instruction.Some? && instruction.value.rail != L.PointsRail && !w.walletBound {
        var request := P.Request(agent.internalId, agent.ownerRef, r.action, r.params, r.context, agent.riskLevel);
        var denial := permission.RecordDenial(request, w.denialId);
        o := Deny(r, executionId, agent, denial);
        return;
      }
      o := RunAction(r, executionId, agent, decision, w);
    }
  }
}
