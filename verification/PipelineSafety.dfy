/** What every run of the invoke pipeline keeps. */
module PipelineSafety {
  import opened Wrappers
  import opened Json
  import L = Ledger
  import P = Permission
  import opened Pipeline

  // ----- Appending rows

  lemma {:induction false} FindExecutionAppend(rows: seq<Execution>, e: Execution, id: string)
    ensures FindExecution(rows + [e], id)
            == if FindExecution(rows, id).Some? then FindExecution(rows, id)
               else if e.executionId == id then Some(e) else None
  {
    if rows == [] {
      assert rows + [e] == [e];
    } else {
      FindExecutionAppend(rows[1..], e, id);
      assert (rows + [e])[1..] == rows[1..] + [e];
    }
  }

  lemma {:induction false} FindAuditAppend(rows: seq<P.Audit>, a: P.Audit, id: string)
    ensures FindAudit(rows + [a], id)
            == if FindAudit(rows, id).Some? then FindAudit(rows, id) else if a.decisionId == id then Some(a) else None
  {
    if rows == [] {
      assert rows + [a] == [a];
    } else {
      FindAuditAppend(rows[1..], a, id);
      assert (rows + [a])[1..] == rows[1..] + [a];
    }
  }

  // ----- Scoped keys

  predicate NoColon(s: string) {
    ':' !in s
  }

  /** Agent ids carry no colon, so a scoped key names one agent and one key. */
  lemma ScopedKeyInjective(a: string, k: string, b: string, l: string)
    requires NoColon(a) && NoColon(b) && ScopedKey(k, a) == ScopedKey(l, b)
    ensures a == b && k == l
  {
    var s, t := ScopedKey(k, a), ScopedKey(l, b);
    assert s[|a|] == ':' && t[|b|] == ':';
    assert forall i | 0 <= i < |a| :: s[i] == a[i] && a[i] != ':';
    assert forall i | 0 <= i < |b| :: t[i] == b[i] && b[i] != ':';
    assert s[..|a|] == a && t[..|b|] == b;
    assert s[|a| + 1..] == k && t[|b| + 1..] == l;
  }

  /** An agent id with a colon shares its scoped keys with another, shorter one. */
  lemma ColonsCollide(a: string, k: string, i: nat)
    requires i < |a| && a[i] == ':'
    ensures |a[..i]| < |a| && ScopedKey(a[i + 1..] + ":" + k, a[..i]) == ScopedKey(k, a)
  {
    assert a == a[..i] + ":" + a[i + 1..];
  }

  /** Why agent ids must not have a colon: exactly then no shorter agent id shares a scoped key with them. */
  lemma NoColonIff(a: string)
    ensures NoColon(a) <==> forall b, k, l | |b| < |a| :: ScopedKey(k, b) != ScopedKey(l, a)
  {
    if NoColon(a) {
      forall b, k, l | |b| < |a|
        ensures ScopedKey(k, b) != ScopedKey(l, a)
      {
        assert ScopedKey(k, b)[|b|] == ':' && ScopedKey(l, a)[|b|] == a[|b|];
        assert a[|b|] in a;
      }
    } else {
      var i :| 0 <= i < |a| && a[i] == ':';
      ColonsCollide(a, "", i);
    }
  }

  // ----- The invariant

  /** An execution rests on a stored decision for its agent and action; unless denied, that decision is ALLOW. */
  predicate Decided(t: Tables, e: Execution) {
    var a := FindAudit(t.audits, e.decisionId);
    && a.Some? && a.value.agentId == e.agentId && a.value.action == e.action
    && (e.status != DENIED ==> a.value.decision == P.ALLOW && !P.IsHighRiskAction(e.action))
  }

  /**
    * A settlement belongs to an execution that names it and was not denied; a completed points
    * transfer to a successful one.
    */
  predicate Justified(t: Tables, s: L.Record) {
    var e := FindExecution(t.executions, s.executionId);
    && e.Some? && e.value.settlementId == Some(s.settlementId)
    && e.value.status != DENIED && (L.Counts(s) ==> e.value.status == SUCCESS)
  }

  /** A key row points to an execution of its own agent, and its key is scoped by that agent. */
  predicate KeyRow(t: Tables, scoped: string, row: IdempotencyRow) {
    var e := FindExecution(t.executions, row.executionId);
    && e.Some? && e.value.agentId == row.agentId && NoColon(row.agentId)
    && |row.agentId| < |scoped| && scoped == ScopedKey(scoped[|row.agentId| + 1..], row.agentId)
  }

  ghost predicate Keyed(t: Tables, e: Execution) {
    exists scoped :: scoped in t.idempotency && t.idempotency[scoped].executionId == e.executionId
  }

  predicate UniqueExecutions(t: Tables) {
    forall i, j | 0 <= i < j < |t.executions| :: t.executions[i].executionId != t.executions[j].executionId
  }

  predicate AllDecided(t: Tables) {
    forall e | e in t.executions :: Decided(t, e)
  }

  ghost predicate AllKeyed(t: Tables) {
    forall e | e in t.executions :: Keyed(t, e)
  }

  predicate AllJustified(t: Tables) {
    forall s | s in t.books.settlements && s.settlementId in t.invoked :: Justified(t, s)
  }

  /** The history names stored settlements only. */
  predicate InvokedStored(t: Tables) {
    forall id | id in t.invoked :: L.FindRecord(t.books.settlements, id).Some?
  }

  predicate AllKeyRows(t: Tables) {
    forall scoped | scoped in t.idempotency :: KeyRow(t, scoped, t.idempotency[scoped])
  }

  /** Different key rows lead to different executions. */
  predicate DistinctKeyRows(t: Tables) {
    forall k, l | k in t.idempotency && l in t.idempotency && k != l ::
      t.idempotency[k].executionId != t.idempotency[l].executionId
  }

  ghost predicate Consistent(t: Tables) {
    && UniqueExecutions(t) && AllDecided(t) && AllKeyed(t) && AllJustified(t) && InvokedStored(t)
    && AllKeyRows(t) && DistinctKeyRows(t) && L.Sound(t.books)
  }

  function IdFor(r: Invocation, w: World): string {
    OrElse(r.executionId, w.newExecutionId)
  }

  predicate FreshDecisions(t: Tables, w: World) {
    FindAudit(t.audits, w.decisionId).None? && FindAudit(t.audits, w.denialId).None? && w.decisionId != w.denialId
  }

  predicate FreshExecution(t: Tables, r: Invocation, w: World) {
    FindExecution(t.executions, IdFor(r, w)).None?
  }

  // ----- One call

  ghost predicate KeepsAudits(rows: seq<P.Audit>, more: seq<P.Audit>) {
    forall id | FindAudit(rows, id).Some? :: FindAudit(more, id) == FindAudit(rows, id)
  }

  ghost predicate KeepsExecutions(rows: seq<Execution>, more: seq<Execution>) {
    forall id | FindExecution(rows, id).Some? :: FindExecution(more, id) == FindExecution(rows, id)
  }

  ghost predicate KeepsKeys(keys: map<string, IdempotencyRow>, more: map<string, IdempotencyRow>) {
    forall scoped | scoped in keys :: scoped in more && more[scoped] == keys[scoped]
  }

  /** The tables only grow, and stored rows stay as they are. */
  ghost predicate Grows(t: Tables, t': Tables) {
    && t.audits <= t'.audits && t.executions <= t'.executions && t.books.settlements <= t'.books.settlements
    && t.invoked <= t'.invoked
    && KeepsAudits(t.audits, t'.audits)
    && KeepsExecutions(t.executions, t'.executions)
    && KeepsKeys(t.idempotency, t'.idempotency)
  }

  /** What the settling part of one call may do to the books and the history, given the execution it reports. */
  predicate BooksStep(t: Tables, t': Tables, e: Execution) {
    || (t'.books == t.books && t'.invoked == t.invoked)
    || (&& |t'.books.settlements| == |t.books.settlements| + 1
        && t'.books.settlements[..|t.books.settlements|] == t.books.settlements
        && var s := t'.books.settlements[|t.books.settlements|];
        && L.FindRecord(t.books.settlements, s.settlementId).None?
        && t'.invoked == t.invoked + {s.settlementId}
        && s.executionId == e.executionId && e.settlementId == Some(s.settlementId) && e.status != DENIED
        && (L.Counts(s) ==> e.status == SUCCESS)
        && (t'.books.accounts != t.books.accounts ==> L.Counts(s)))
  }

  /** The state between writing the last decision and the execution row. */
  ghost predicate ReadyToRecord(t: Tables, m: Tables, e: Execution, key: string) {
    && m.executions == t.executions && m.idempotency == t.idempotency && m.policies == t.policies
    && t.audits <= m.audits
    && KeepsAudits(t.audits, m.audits)
    && Decided(m, e) && BooksStep(t, m, e) && L.Sound(m.books)
    && Replay(t, e.agentId, key).None? && NoColon(e.agentId)
  }

  lemma KeyIsFree(t: Tables, agentId: string, key: string)
    requires Consistent(t) && Replay(t, agentId, key).None? && NoColon(agentId)
    ensures ScopedKey(key, agentId) !in t.idempotency
  {
    var scoped := ScopedKey(key, agentId);
    if scoped in t.idempotency {
      var row := t.idempotency[scoped];
      assert KeyRow(t, scoped, row);
      ScopedKeyInjective(agentId, key, row.agentId, scoped[|row.agentId| + 1..]);
    }
  }

  lemma ScopedKeySplits(key: string, agentId: string)
    ensures ScopedKey(key, agentId)[|agentId| + 1..] == key
  {
  }

  lemma RecordShape(t: Tables, m: Tables, e: Execution, key: string)
    requires Consistent(t) && ReadyToRecord(t, m, e, key) && FindExecution(t.executions, e.executionId).None?
    ensures var (t', o) := Record(m, key, e);
            && o == Returned(e) && t'.executions == t.executions + [e]
            && t'.audits == m.audits && t'.books == m.books && t'.policies == t.policies && t'.invoked == m.invoked
            && t'.idempotency == t.idempotency[ScopedKey(key, e.agentId) := IdempotencyRow(e.executionId, e.agentId)]
            && ScopedKey(key, e.agentId) !in t.idempotency
  {
    KeyIsFree(t, e.agentId, key);
  }

  lemma ExecutionsKept(rows: seq<Execution>, e: Execution)
    ensures KeepsExecutions(rows, rows + [e])
  {
    forall id | FindExecution(rows, id).Some?
      ensures FindExecution(rows + [e], id) == FindExecution(rows, id)
    {
      FindExecutionAppend(rows, e, id);
    }
  }

  lemma KeysKept(keys: map<string, IdempotencyRow>, scoped: string, row: IdempotencyRow)
    requires scoped !in keys
    ensures KeepsKeys(keys, keys[scoped := row])
  {
  }

  lemma StepExtends(t: Tables, m: Tables, e: Execution)
    requires BooksStep(t, m, e)
    ensures t.books.settlements <= m.books.settlements && t.invoked <= m.invoked
  {
  }

  lemma RecordGrows(t: Tables, m: Tables, e: Execution, key: string)
    requires Consistent(t) && ReadyToRecord(t, m, e, key) && FindExecution(t.executions, e.executionId).None?
    ensures Grows(t, Record(m, key, e).0)
  {
    RecordShape(t, m, e, key);
    ExecutionsKept(t.executions, e);
    KeysKept(t.idempotency, ScopedKey(key, e.agentId), IdempotencyRow(e.executionId, e.agentId));
    StepExtends(t, m, e);
  }

  lemma RecordedDecided(t: Tables, m: Tables, e: Execution, key: string)
    requires Consistent(t) && ReadyToRecord(t, m, e, key) && FindExecution(t.executions, e.executionId).None?
    ensures AllDecided(Record(m, key, e).0) && UniqueExecutions(Record(m, key, e).0)
  {
    RecordShape(t, m, e, key);
    var t' := Record(m, key, e).0;
    forall e' | e' in t'.executions
      ensures Decided(t', e')
    {
      if e' in t.executions {
        assert Decided(t, e');
      }
    }
  }

  lemma KeyedStays(t: Tables, t': Tables, e: Execution)
    requires AllKeyed(t) && e in t.executions && KeepsKeys(t.idempotency, t'.idempotency)
    ensures Keyed(t', e)
  {
  }

  lemma RecordedKeyed(t: Tables, m: Tables, e: Execution, key: string)
    requires Consistent(t) && ReadyToRecord(t, m, e, key) && FindExecution(t.executions, e.executionId).None?
    ensures AllKeyed(Record(m, key, e).0)
  {
    RecordShape(t, m, e, key);
    var t' := Record(m, key, e).0;
    var scoped := ScopedKey(key, e.agentId);
    assert scoped in t'.idempotency && t'.idempotency[scoped].executionId == e.executionId;
    forall e' | e' in t'.executions
      ensures Keyed(t', e')
    {
      if e' in t.executions {
        KeyedStays(t, t', e');
      }
    }
  }

  lemma RecordedSettlement(t: Tables, m: Tables, e: Execution, key: string, s: L.Record)
    requires Consistent(t) && ReadyToRecord(t, m, e, key) && FindExecution(t.executions, e.executionId).None?
    requires s in m.books.settlements && s.settlementId in m.invoked
    ensures Justified(Record(m, key, e).0, s)
  {
    RecordShape(t, m, e, key);
    FindExecutionAppend(t.executions, e, s.executionId);
    if s in t.books.settlements {
      assert s.settlementId in t.invoked;
      assert Justified(t, s);
    } else {
      assert s == m.books.settlements[|t.books.settlements|];
    }
  }

  lemma RecordedKey(t: Tables, m: Tables, e: Execution, key: string, scoped: string)
    requires Consistent(t) && ReadyToRecord(t, m, e, key) && FindExecution(t.executions, e.executionId).None?
    requires scoped in Record(m, key, e).0.idempotency
    ensures KeyRow(Record(m, key, e).0, scoped, Record(m, key, e).0.idempotency[scoped])
  {
    RecordShape(t, m, e, key);
    FindExecutionAppend(t.executions, e, Record(m, key, e).0.idempotency[scoped].executionId);
    if scoped == ScopedKey(key, e.agentId) {
      ScopedKeySplits(key, e.agentId);
    } else {
      assert KeyRow(t, scoped, t.idempotency[scoped]);
    }
  }

  lemma RecordedJustified(t: Tables, m: Tables, e: Execution, key: string)
    requires Consistent(t) && ReadyToRecord(t, m, e, key) && FindExecution(t.executions, e.executionId).None?
    ensures Record(m, key, e).0.books == m.books && AllJustified(Record(m, key, e).0)
  {
    RecordShape(t, m, e, key);
    forall s | s in m.books.settlements && s.settlementId in m.invoked
      ensures Justified(Record(m, key, e).0, s)
    {
      RecordedSettlement(t, m, e, key, s);
    }
  }

  lemma RecordedKeyRows(t: Tables, m: Tables, e: Execution, key: string)
    requires Consistent(t) && ReadyToRecord(t, m, e, key) && FindExecution(t.executions, e.executionId).None?
    ensures AllKeyRows(Record(m, key, e).0)
  {
    var t' := Record(m, key, e).0;
    forall scoped | scoped in t'.idempotency
      ensures KeyRow(t', scoped, t'.idempotency[scoped])
    {
      RecordedKey(t, m, e, key, scoped);
    }
  }

  lemma RecordedStored(t: Tables, m: Tables, e: Execution, key: string)
    requires Consistent(t) && ReadyToRecord(t, m, e, key) && FindExecution(t.executions, e.executionId).None?
    ensures InvokedStored(Record(m, key, e).0)
  {
    RecordShape(t, m, e, key);
    forall id | id in m.invoked
      ensures L.FindRecord(m.books.settlements, id).Some?
    {
      if id in t.invoked {
        assert L.FindRecord(t.books.settlements, id).Some?;
        L.FindInExtension(t.books.settlements, m.books.settlements, id);
      } else {
        assert m.books.settlements[|t.books.settlements|].settlementId == id;
      }
    }
  }

  lemma RecordedDistinct(t: Tables, m: Tables, e: Execution, key: string)
    requires Consistent(t) && ReadyToRecord(t, m, e, key) && FindExecution(t.executions, e.executionId).None?
    ensures DistinctKeyRows(Record(m, key, e).0)
  {
    RecordShape(t, m, e, key);
    forall k | k in t.idempotency
      ensures t.idempotency[k].executionId != e.executionId
    {
      assert KeyRow(t, k, t.idempotency[k]);
    }
  }

  lemma RecordKeepsConsistent(t: Tables, m: Tables, e: Execution, key: string)
    requires Consistent(t) && ReadyToRecord(t, m, e, key) && FindExecution(t.executions, e.executionId).None?
    ensures Consistent(Record(m, key, e).0)
  {
    RecordedDecided(t, m, e, key);
    RecordedKeyed(t, m, e, key);
    RecordedJustified(t, m, e, key);
    RecordedStored(t, m, e, key);
    RecordedKeyRows(t, m, e, key);
    RecordedDistinct(t, m, e, key);
  }

  /** A decision just written is found again, and older ones still are. */
  lemma AuditAppended(t: Tables, a: P.Audit)
    requires FindAudit(t.audits, a.decisionId).None?
    ensures FindAudit(t.audits + [a], a.decisionId) == Some(a)
    ensures KeepsAudits(t.audits, t.audits + [a])
  {
    forall id
      ensures FindAudit(t.audits + [a], id)
              == if FindAudit(t.audits, id).Some? then FindAudit(t.audits, id)
                 else if a.decisionId == id then Some(a) else None
    {
      FindAuditAppend(t.audits, a, id);
    }
  }

  /** Settling changes the books only by one record of this execution, and accounts only when it completes. */
  lemma SettlingStep(t: Tables, m: Tables, i: L.Instruction, newId: string, answer: Option<L.AdapterAnswer>,
                     e: Execution)
    requires L.Sound(t.books) && i.amount > 0.0
    requires m.books == L.AfterSettle(t.books, i, newId, answer)
    requires m.invoked == t.invoked + InsertedId(t.books, i, newId)
    requires L.SettleResult(t.books, i, newId, answer).Returned?
    requires var settled := L.SettleResult(t.books, i, newId, answer).value;
             && e.executionId == i.executionId && e.settlementId == Some(settled.settlementId)
             && e.status == if settled.status == L.ROLLED_BACK then FAILED else SUCCESS
    ensures L.Sound(m.books) && BooksStep(t, m, e)
  {
    L.SettleKeepsSound(t.books, i, newId, answer);
  }

  lemma DeniedRecords(t: Tables, t1: Tables, r: Invocation, id: string, agent: Agent, a: P.Audit) returns (e: Execution)
    requires Consistent(t) && NoColon(agent.internalId)
    requires Replay(t, agent.internalId, r.idempotencyKey).None?
    requires a.agentId == agent.internalId && a.action == r.action
    requires t1 == t.(audits := t1.audits) && t.audits <= t1.audits && FindAudit(t1.audits, a.decisionId) == Some(a)
    requires KeepsAudits(t.audits, t1.audits)
    ensures RecordDenied(t1, r, id, agent, a) == Record(t1, r.idempotencyKey, e)
    ensures ReadyToRecord(t, t1, e, r.idempotencyKey)
    ensures e.executionId == id && e.agentId == agent.internalId && e.action == r.action && e.status == DENIED
  {
    e := Execution(id, agent.internalId, r.action, DENIED, a.decisionId, None);
  }

  /** Every call that is no replay comes down to recording one execution, denied or executed. */
  lemma InvokeRecords(t: Tables, agent: Agent, r: Invocation, w: World) returns (m: Tables, e: Execution)
    requires Consistent(t) && NoColon(agent.internalId) && FreshDecisions(t, w)
    requires Replay(t, agent.internalId, r.idempotencyKey).None?
    ensures Invoke(t, agent, r, w) == Record(m, r.idempotencyKey, e)
    ensures ReadyToRecord(t, m, e, r.idempotencyKey)
    ensures e.executionId == IdFor(r, w) && e.agentId == agent.internalId && e.action == r.action
    ensures e.status == DENIED ==> m.books == t.books && m.invoked == t.invoked
  {
    var id := IdFor(r, w);
    var request := PermissionRequest(r, agent);
    if !agent.active {
      var denial := P.MakeAudit(request, w.decisionId, P.DENY, None);
      AuditAppended(t, denial);
      m := t.(audits := t.audits + [denial]);
      e := DeniedRecords(t, m, r, id, agent, denial);
    } else {
      var decision := P.EvaluationAudit(t.policies, t.audits, request, w.decisionId);
      EvaluationShape(t, request, w.decisionId);
      AuditAppended(t, decision);
      m, e := DecisionRecords(t, t.(audits := t.audits + [decision]), agent, r, id, decision, w);
    }
  }

  lemma EvaluationShape(t: Tables, request: P.Request, decisionId: string)
    ensures var a := P.EvaluationAudit(t.policies, t.audits, request, decisionId);
            && a.decisionId == decisionId && a.agentId == request.agentId && a.action == request.action
            && (a.decision == P.ALLOW ==> !P.IsHighRiskAction(request.action))
  {
  }

  lemma DenialRecords(t: Tables, t1: Tables, agent: Agent, r: Invocation, id: string, denial: P.Audit)
    returns (m: Tables, e: Execution)
    requires Consistent(t) && NoColon(agent.internalId)
    requires Replay(t, agent.internalId, r.idempotencyKey).None?
    requires denial.agentId == agent.internalId && denial.action == r.action
    requires t1 == t.(audits := t1.audits) && t.audits <= t1.audits && KeepsAudits(t.audits, t1.audits)
    requires FindAudit(t1.audits, denial.decisionId).None?
    ensures m == t1.(audits := t1.audits + [denial])
    ensures RecordDenied(m, r, id, agent, denial) == Record(m, r.idempotencyKey, e)
    ensures ReadyToRecord(t, m, e, r.idempotencyKey)
    ensures e.executionId == id && e.agentId == agent.internalId && e.action == r.action && e.status == DENIED
  {
    AuditAppended(t1, denial);
    m := t1.(audits := t1.audits + [denial]);
    e := DeniedRecords(t, m, r, id, agent, denial);
  }

  lemma DecisionRecords(t: Tables, t1: Tables, agent: Agent, r: Invocation, id: string, decision: P.Audit, w: World)
    returns (m: Tables, e: Execution)
    requires Consistent(t) && NoColon(agent.internalId) && FreshDecisions(t, w)
    requires Replay(t, agent.internalId, r.idempotencyKey).None?
    requires decision.decisionId == w.decisionId && decision.agentId == agent.internalId && decision.action == r.action
    requires decision.decision == P.ALLOW ==> !P.IsHighRiskAction(r.action)
    requires t1 == t.(audits := t.audits + [decision]) && FindAudit(t1.audits, decision.decisionId) == Some(decision)
    requires KeepsAudits(t.audits, t1.audits)
    ensures AfterDecision(t1, agent, r, id, decision, w) == Record(m, r.idempotencyKey, e)
    ensures ReadyToRecord(t, m, e, r.idempotencyKey)
    ensures e.executionId == id && e.agentId == agent.internalId && e.action == r.action
    ensures e.status == DENIED ==> m.books == t.books
  {
    if decision.decision != P.ALLOW || !w.capabilityOk {
      m := t1;
      e := DeniedRecords(t, m, r, id, agent, decision);
    } else if MissingWallet(r, id, agent, w) {
      FindAuditAppend(t.audits, decision, w.denialId);
      m, e := DenialRecords(t, t1, agent, r, id, P.MakeAudit(PermissionRequest(r, agent), w.denialId, P.DENY, None));
    } else {
      m, e := ExecuteRecords(t, t1, r, id, agent, decision, w);
    }
  }

  lemma ExecuteRecords(t: Tables, t1: Tables, r: Invocation, id: string, agent: Agent, decision: P.Audit, w: World)
    returns (m: Tables, e: Execution)
    requires Consistent(t) && NoColon(agent.internalId)
    requires Replay(t, agent.internalId, r.idempotencyKey).None?
    requires decision.agentId == agent.internalId && decision.action == r.action && decision.decision == P.ALLOW
    requires !P.IsHighRiskAction(r.action)
    requires t1 == t.(audits := t.audits + [decision]) && FindAudit(t1.audits, decision.decisionId) == Some(decision)
    requires KeepsAudits(t.audits, t1.audits)
    ensures Execute(t1, r, id, agent, decision, w) == Record(m, r.idempotencyKey, e)
    ensures ReadyToRecord(t, m, e, r.idempotencyKey)
    ensures e.executionId == id && e.agentId == agent.internalId && e.action == r.action && e.status != DENIED
  {
    m := t1;
    var instruction := BuildInstruction(r, id, agent, w.render);
    if !w.handlerReturns {
      e := Execution(id, agent.internalId, r.action, FAILED, decision.decisionId, None);
    } else if instruction.None? {
      e := Execution(id, agent.internalId, r.action, SUCCESS, decision.decisionId, None);
    } else {
      m := t1.(books := L.AfterSettle(t.books, instruction.value, w.newSettlementId, w.answer),
               invoked := t.invoked + InsertedId(t.books, instruction.value, w.newSettlementId));
      var settled := L.SettleResult(t.books, instruction.value, w.newSettlementId, w.answer).value;
      e := Execution(id, agent.internalId, r.action, if settled.status == L.ROLLED_BACK then FAILED else SUCCESS,
                     decision.decisionId, Some(settled.settlementId));
      SettlingStep(t, m, instruction.value, w.newSettlementId, w.answer, e);
    }
  }

  /**
    * One call with fresh ids: it returns the one execution it stored; accounts change only when
    * that execution is SUCCESS, a settlement is added only when its stored decision is ALLOW, and
    * a denied call touches no book. Payments and rewards are always denied.
    */
  lemma InvokeIsSafe(t: Tables, agent: Agent, r: Invocation, w: World)
    requires Consistent(t) && NoColon(agent.internalId)
    requires Replay(t, agent.internalId, r.idempotencyKey).None?
    requires FreshDecisions(t, w) && FreshExecution(t, r, w)
    ensures var (t', o) := Invoke(t, agent, r, w);
            && Consistent(t') && Grows(t, t') && t'.policies == t.policies
            && o.Returned? && t'.executions == t.executions + [o.value]
            && o.value.executionId == IdFor(r, w) && o.value.agentId == agent.internalId && o.value.action == r.action
            && Decided(t', o.value)
            && BooksStep(t, t', o.value)
            && (t'.books.accounts != t.books.accounts ==> o.value.status == SUCCESS)
            && (o.value.status == DENIED ==> t'.books == t.books)
            && (P.IsHighRiskAction(r.action) ==> o.value.status == DENIED)
            && Replay(t', agent.internalId, r.idempotencyKey) == Some(o.value)
  {
    var m, e := InvokeRecords(t, agent, r, w);
    RecordShape(t, m, e, r.idempotencyKey);
    RecordGrows(t, m, e, r.idempotencyKey);
    RecordKeepsConsistent(t, m, e, r.idempotencyKey);
    FindExecutionAppend(t.executions, e, e.executionId);
  }

  /** Replaying a key returns the stored execution and leaves every table as it is. */
  lemma ReplayChangesNothing(t: Tables, agent: Agent, r: Invocation, w: World)
    requires Replay(t, agent.internalId, r.idempotencyKey).Some?
    ensures Invoke(t, agent, r, w) == (t, Returned(Replay(t, agent.internalId, r.idempotencyKey).value))
  {
  }

  /** A call that is no replay returns exactly when its execution id is not taken. */
  lemma InvokeReturnsIffFresh(t: Tables, agent: Agent, r: Invocation, w: World)
    requires Consistent(t) && NoColon(agent.internalId) && FreshDecisions(t, w)
    requires Replay(t, agent.internalId, r.idempotencyKey).None?
    ensures Invoke(t, agent, r, w).1.Returned? <==> FreshExecution(t, r, w)
  {
    var m, e := InvokeRecords(t, agent, r, w);
    if FreshExecution(t, r, w) {
      RecordShape(t, m, e, r.idempotencyKey);
    }
  }

  // ----- Whole runs

  datatype PipelineOp =
    | InvokeAgent(agent: Agent, invocation: Invocation, world: World)
    | GiveCredit(did: string, asset: L.Asset, amount: real)
    | OpenAccount(key: L.AccountKey)
    | AddPolicy(policy: P.Policy)
    | DirectTransfer(transfer: TransferCall)

  function StepPipeline(t: Tables, op: PipelineOp): Tables {
    match op
    case InvokeAgent(agent, r, w) => Invoke(t, agent, r, w).0
    case GiveCredit(did, asset, amount) => t.(books := L.AfterCredit(t.books, did, asset, amount))
    case OpenAccount(key) => t.(books := t.books.(accounts := L.WithAccount(t.books.accounts, key)))
    case AddPolicy(p) => if P.HasPolicy(t.policies, p.policyId) then t else t.(policies := t.policies + [p])
    case DirectTransfer(c) => Transfer(t, c).0
  }

  /**
    * Agent ids carry no colon, and a call that is no replay draws new decision ids and does not
    * reuse an execution id. A retry may come with everything it came with before.
    */
  predicate WellUsed(t: Tables, op: PipelineOp) {
    op.InvokeAgent? ==>
      && NoColon(op.agent.internalId)
      && (Replay(t, op.agent.internalId, op.invocation.idempotencyKey).None? ==>
            FreshDecisions(t, op.world) && FreshExecution(t, op.invocation, op.world))
  }

  predicate WellUsedRun(t: Tables, ops: seq<PipelineOp>)
    decreases |ops|
  {
    ops == [] || (WellUsed(t, ops[0]) && WellUsedRun(StepPipeline(t, ops[0]), ops[1..]))
  }

  function RunPipeline(t: Tables, ops: seq<PipelineOp>): Tables
    decreases |ops|
  {
    if ops == [] then t else RunPipeline(StepPipeline(t, ops[0]), ops[1..])
  }

  lemma InvokeStepKeeps(t: Tables, agent: Agent, r: Invocation, w: World)
    requires Consistent(t) && WellUsed(t, InvokeAgent(agent, r, w))
    ensures Consistent(Invoke(t, agent, r, w).0) && Grows(t, Invoke(t, agent, r, w).0)
  {
    if Replay(t, agent.internalId, r.idempotencyKey).None? {
      InvokeIsSafe(t, agent, r, w);
    }
  }

  lemma StepKeeps(t: Tables, op: PipelineOp)
    requires Consistent(t) && WellUsed(t, op)
    ensures Consistent(StepPipeline(t, op)) && Grows(t, StepPipeline(t, op))
  {
    match op
    case InvokeAgent(agent, r, w) =>
      InvokeStepKeeps(t, agent, r, w);
    case GiveCredit(did, asset, amount) =>
      L.CreditKeepsSound(t.books, did, asset, amount);
      SameRows(t, StepPipeline(t, op));
    case OpenAccount(key) =>
      L.OpenKeepsSound(t.books, key);
      SameRows(t, StepPipeline(t, op));
    case AddPolicy(p) =>
      SameRows(t, StepPipeline(t, op));
    case DirectTransfer(c) =>
      TransferKeeps(t, c);
  }

  /** The books with at most one record added, under an id not used before. */
  predicate AddsRecord(b: L.Books, b': L.Books) {
    || b'.settlements == b.settlements
    || (&& |b'.settlements| == |b.settlements| + 1 && b'.settlements[..|b.settlements|] == b.settlements
        && L.FindRecord(b.settlements, b'.settlements[|b.settlements|].settlementId).None?)
  }

  lemma SettleAddsRecord(b: L.Books, i: L.Instruction, newId: string, answer: Option<L.AdapterAnswer>)
    ensures AddsRecord(b, L.AfterSettle(b, i, newId, answer))
  {
  }

  lemma HistoryStays(t: Tables, t': Tables)
    requires InvokedStored(t) && AllJustified(t) && AddsRecord(t.books, t'.books)
    requires t'.invoked == t.invoked && t'.executions == t.executions
    ensures InvokedStored(t') && AllJustified(t')
  {
    forall id | id in t'.invoked
      ensures L.FindRecord(t'.books.settlements, id).Some?
    {
      assert L.FindRecord(t.books.settlements, id).Some?;
      L.FindInExtension(t.books.settlements, t'.books.settlements, id);
    }
    forall s | s in t'.books.settlements && s.settlementId in t'.invoked
      ensures Justified(t', s)
    {
      assert L.FindRecord(t.books.settlements, s.settlementId).Some?;
      assert s in t.books.settlements;
      assert Justified(t, s);
    }
  }

  /** A direct transfer adds at most one record, and none that the history names. */
  lemma TransferKeeps(t: Tables, c: TransferCall)
    requires Consistent(t)
    ensures Consistent(Transfer(t, c).0) && Grows(t, Transfer(t, c).0)
  {
    var t', i := Transfer(t, c).0, TransferInstruction(c);
    L.SettleKeepsSound(t.books, i, c.newId, c.answer);
    SettleAddsRecord(t.books, i, c.newId, c.answer);
    HistoryStays(t, t');
    KeyedByKeys(t, t');
  }

  lemma KeyedByKeys(t: Tables, t': Tables)
    requires AllKeyed(t) && AllDecided(t) && AllKeyRows(t)
    requires t'.audits == t.audits && t'.executions == t.executions && t'.idempotency == t.idempotency
    ensures AllKeyed(t') && AllDecided(t') && AllKeyRows(t')
  {
    forall e | e in t'.executions
      ensures Keyed(t', e) && Decided(t', e)
    {
      KeyedStays(t, t', e);
    }
    forall scoped | scoped in t'.idempotency
      ensures KeyRow(t', scoped, t'.idempotency[scoped])
    {
      assert KeyRow(t, scoped, t.idempotency[scoped]);
    }
  }

  lemma SameRows(t: Tables, t': Tables)
    requires Consistent(t) && L.Sound(t'.books)
    requires t'.audits == t.audits && t'.executions == t.executions && t'.idempotency == t.idempotency
    requires t'.books.settlements == t.books.settlements && t'.invoked == t.invoked
    ensures Consistent(t') && Grows(t, t')
  {
    KeyedByKeys(t, t');
  }

  lemma GrowsTransitive(a: Tables, b: Tables, c: Tables)
    requires Grows(a, b) && Grows(b, c)
    ensures Grows(a, c)
  {
  }

  lemma {:induction false} RunKeeps(t: Tables, ops: seq<PipelineOp>)
    requires Consistent(t) && WellUsedRun(t, ops)
    ensures Consistent(RunPipeline(t, ops)) && Grows(t, RunPipeline(t, ops))
    decreases |ops|
  {
    if ops == [] {
    } else {
      StepKeeps(t, ops[0]);
      RunKeeps(StepPipeline(t, ops[0]), ops[1..]);
      GrowsTransitive(t, StepPipeline(t, ops[0]), RunPipeline(t, ops));
    }
  }

  /**
    * Safety over whole runs, direct transfers included. In every reachable state: every balance is
    * explained by credits and completed transfers alone; every settlement that `invoke` inserted
    * belongs to an execution that names it, whose stored decision for its agent and action is ALLOW
    * and which is no payment or reward; every completed points transfer among them to a SUCCESS
    * execution. So no execution is ever paid twice.
    */
  lemma ReachableIsConsistent(ops: seq<PipelineOp>)
    requires WellUsedRun(EMPTY_TABLES, ops)
    ensures var t := RunPipeline(EMPTY_TABLES, ops);
            && Consistent(t)
            && forall s | s in t.books.settlements && s.settlementId in t.invoked ::
                 var e := FindExecution(t.executions, s.executionId);
                 && e.Some? && e.value.settlementId == Some(s.settlementId) && !P.IsHighRiskAction(e.value.action)
                 && var a := FindAudit(t.audits, e.value.decisionId);
                 && a.Some? && a.value.decision == P.ALLOW
                 && a.value.agentId == e.value.agentId && a.value.action == e.value.action
                 && (L.Counts(s) ==> e.value.status == SUCCESS)
  {
    L.ReachableIsSound([]);
    assert Consistent(EMPTY_TABLES);
    RunKeeps(EMPTY_TABLES, ops);
    var t := RunPipeline(EMPTY_TABLES, ops);
    forall s | s in t.books.settlements && s.settlementId in t.invoked
      ensures Justified(t, s) && Decided(t, FindExecution(t.executions, s.executionId).value)
    {
      assert Justified(t, s);
      var e := FindExecution(t.executions, s.executionId).value;
      assert Decided(t, e);
    }
  }

  /** A stored execution is the one its id finds. */
  lemma FoundById(t: Tables, e: Execution)
    requires UniqueExecutions(t) && e in t.executions
    ensures FindExecution(t.executions, e.executionId) == Some(e)
  {
  }

  lemma SameAgentScopes(k: string, l: string, agentId: string)
    requires ScopedKey(k, agentId) == ScopedKey(l, agentId)
    ensures k == l
  {
    ScopedKeySplits(k, agentId);
    ScopedKeySplits(l, agentId);
  }

  /** In every reachable state each stored execution is replayed by one key of its agent and by no other. */
  lemma OneKeyPerExecution(ops: seq<PipelineOp>, e: Execution) returns (key: string)
    requires WellUsedRun(EMPTY_TABLES, ops) && e in RunPipeline(EMPTY_TABLES, ops).executions
    ensures var t := RunPipeline(EMPTY_TABLES, ops);
            forall l :: Replay(t, e.agentId, l) == Some(e) <==> l == key
  {
    ReachableIsConsistent(ops);
    var t := RunPipeline(EMPTY_TABLES, ops);
    assert Keyed(t, e);
    var scoped :| scoped in t.idempotency && t.idempotency[scoped].executionId == e.executionId;
    FoundById(t, e);
    assert KeyRow(t, scoped, t.idempotency[scoped]);
    key := scoped[|e.agentId| + 1..];
    forall l
      ensures Replay(t, e.agentId, l) == Some(e) <==> l == key
    {
      if Replay(t, e.agentId, l) == Some(e) {
        assert ScopedKey(l, e.agentId) == scoped;
        SameAgentScopes(l, key, e.agentId);
      }
    }
  }

  /**
    * Idempotency: after a call has returned, and after any further use of the pipeline, calling
    * again with that agent and key, whatever else the request says, returns the first execution
    * and changes no table.
    */
  lemma InvokeOnce(t: Tables, agent: Agent, r: Invocation, w: World, between: seq<PipelineOp>,
                   agent': Agent, again: Invocation, w': World)
    requires Consistent(t) && WellUsed(t, InvokeAgent(agent, r, w))
    requires agent'.internalId == agent.internalId && again.idempotencyKey == r.idempotencyKey
    requires WellUsedRun(Invoke(t, agent, r, w).0, between)
    ensures var (t', first) := Invoke(t, agent, r, w);
            var later := RunPipeline(t', between);
            Invoke(later, agent', again, w') == (later, first)
  {
    var (t', first) := Invoke(t, agent, r, w);
    if Replay(t, agent.internalId, r.idempotencyKey).None? {
      InvokeIsSafe(t, agent, r, w);
    }
    RunKeeps(t', between);
    var later := RunPipeline(t', between);
    var scoped := ScopedKey(r.idempotencyKey, agent.internalId);
    assert scoped in t'.idempotency && later.idempotency[scoped] == t'.idempotency[scoped];
    ReplayChangesNothing(later, agent', again, w');
  }

  // ----- The budget cap over whole runs

  /** The agent is always invoked for this owner. */
  predicate InvokedFor(op: PipelineOp, agentId: string, owner: string) {
    op.InvokeAgent? && op.agent.internalId == agentId ==> op.agent.ownerRef == owner
  }

  /** One call adds at most one allowed budget, and only within the cap. */
  lemma InvokeKeepsCap(t: Tables, agent: Agent, r: Invocation, w: World, agentId: string, owner: string, bound: real)
    requires P.Capped(t.policies, owner, bound) && P.Sum(t.audits, agentId) <= bound
    requires agent.internalId == agentId ==> agent.ownerRef == owner
    ensures P.Sum(Invoke(t, agent, r, w).0.audits, agentId) <= bound
  {
    var request := PermissionRequest(r, agent);
    var decision := P.EvaluationAudit(t.policies, t.audits, request, w.decisionId);
    var denial, late := P.MakeAudit(request, w.decisionId, P.DENY, None),
                        P.MakeAudit(request, w.denialId, P.DENY, None);
    P.SumAppend(t.audits, denial, agentId);
    P.SumAppend(t.audits, decision, agentId);
    P.SumAppend(t.audits + [decision], late, agentId);
    if agent.internalId == agentId {
      P.EvaluationKeepsCap(t.policies, t.audits, request, w.decisionId, bound);
    }
    InvokeAudits(t, agent, r, w);
  }

  /** Neither policies nor audits change once the last decision is stored. */
  predicate SamePolicyTables(t: Tables, t': Tables) {
    t'.policies == t.policies && t'.audits == t.audits
  }

  lemma DeniedTables(t: Tables, r: Invocation, executionId: string, agent: Agent, a: P.Audit)
    ensures SamePolicyTables(t, RecordDenied(t, r, executionId, agent, a).0)
  {
  }

  lemma ExecuteTables(t: Tables, r: Invocation, executionId: string, agent: Agent, a: P.Audit, w: World)
    ensures SamePolicyTables(t, Execute(t, r, executionId, agent, a, w).0)
  {
  }

  lemma DecisionTables(t: Tables, agent: Agent, r: Invocation, executionId: string, decision: P.Audit, w: World)
    ensures var t' := AfterDecision(t, agent, r, executionId, decision, w).0;
            var denial := P.MakeAudit(PermissionRequest(r, agent), w.denialId, P.DENY, None);
            t'.policies == t.policies && (t'.audits == t.audits || t'.audits == t.audits + [denial])
  {
    var denial := P.MakeAudit(PermissionRequest(r, agent), w.denialId, P.DENY, None);
    DeniedTables(t, r, executionId, agent, decision);
    DeniedTables(t.(audits := t.audits + [denial]), r, executionId, agent, denial);
    ExecuteTables(t, r, executionId, agent, decision, w);
  }

  /** What one call appends to the audit table. */
  lemma InvokeAudits(t: Tables, agent: Agent, r: Invocation, w: World)
    ensures var request := PermissionRequest(r, agent);
            var decision := P.EvaluationAudit(t.policies, t.audits, request, w.decisionId);
            var t' := Invoke(t, agent, r, w).0;
            && t'.policies == t.policies
            && (|| t'.audits == t.audits
                || t'.audits == t.audits + [P.MakeAudit(request, w.decisionId, P.DENY, None)]
                || t'.audits == t.audits + [decision]
                || t'.audits == t.audits + [decision] + [P.MakeAudit(request, w.denialId, P.DENY, None)])
  {
    var request := PermissionRequest(r, agent);
    var denial := P.MakeAudit(request, w.decisionId, P.DENY, None);
    var decision := P.EvaluationAudit(t.policies, t.audits, request, w.decisionId);
    DeniedTables(t.(audits := t.audits + [denial]), r, IdFor(r, w), agent, denial);
    DecisionTables(t.(audits := t.audits + [decision]), agent, r, IdFor(r, w), decision, w);
  }

  lemma {:induction false} RunKeepsPolicies(t: Tables, ops: seq<PipelineOp>)
    ensures t.policies <= RunPipeline(t, ops).policies
    decreases |ops|
  {
    if ops == [] {
    } else {
      if ops[0].InvokeAgent? {
        InvokeAudits(t, ops[0].agent, ops[0].invocation, ops[0].world);
      }
      RunKeepsPolicies(StepPipeline(t, ops[0]), ops[1..]);
    }
  }

  /**
    * The total budget cap over the whole pipeline: whatever is invoked, credited and created, the
    * allowed budgets of an agent stay within the cap carried by its owner's policies.
    */
  lemma {:induction false} PipelineBudgetCap(t: Tables, ops: seq<PipelineOp>, agentId: string, owner: string,
                                             bound: real)
    requires P.Sum(t.audits, agentId) <= bound
    requires P.Capped(RunPipeline(t, ops).policies, owner, bound)
    requires forall i | 0 <= i < |ops| :: InvokedFor(ops[i], agentId, owner)
    ensures P.Sum(RunPipeline(t, ops).audits, agentId) <= bound
    decreases |ops|
  {
    if ops == [] {
    } else {
      var next := StepPipeline(t, ops[0]);
      RunKeepsPolicies(t, ops);
      assert P.Capped(t.policies, owner, bound);
      if ops[0].InvokeAgent? {
        assert InvokedFor(ops[0], agentId, owner);
        InvokeKeepsCap(t, ops[0].agent, ops[0].invocation, ops[0].world, agentId, owner, bound);
      }
      PipelineBudgetCap(next, ops[1..], agentId, owner, bound);
    }
  }
}
