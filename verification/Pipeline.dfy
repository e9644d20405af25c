/** The invoke pipeline: idempotency, permission, settlement and the execution record. */
module Pipeline {
  import opened Wrappers
  import opened Json
  import L = Ledger
  import P = Permission

  datatype ExecutionStatus = SUCCESS | FAILED | DENIED

  datatype Execution = Execution(executionId: string, agentId: string, action: string, status: ExecutionStatus,
                                 decisionId: string, settlementId: Option<string>)

  datatype IdempotencyRow = IdempotencyRow(executionId: string, agentId: string)

  datatype Agent = Agent(internalId: string, ownerRef: string, active: bool, riskLevel: P.RiskLevel)

  datatype Invocation = Invocation(executionId: Option<string>, targetDid: Option<string>, action: string,
                                   params: Fields, context: Fields, idempotencyKey: string)

  /** A direct transfer, with the hash that derives a record id from a key, a drawn id and the adapter's answer. */
  datatype TransferCall = TransferCall(instruction: L.Instruction, key: Option<string>,
                                       derive: (string, string) -> string, newId: string,
                                       answer: Option<L.AdapterAnswer>)

  /**
    * What one call takes from outside: fresh ids, whether the capability and wallet checks pass,
    * whether the action's handler exists and returns, how a chain adapter answers, and how
    * JavaScript renders a payload value that is not a string.
    */
  datatype World = World(newExecutionId: string, decisionId: string, denialId: string, newSettlementId: string,
                         capabilityOk: bool, walletBound: bool, handlerReturns: bool,
                         answer: Option<L.AdapterAnswer>, render: Json -> string)

  /** The tables, and as history the ids of the settlements that `invoke` inserted. */
  datatype Tables = Tables(books: L.Books, policies: seq<P.Policy>, audits: seq<P.Audit>, executions: seq<Execution>,
                           idempotency: map<string, IdempotencyRow>, invoked: set<string>)

  const EMPTY_TABLES := Tables(L.EMPTY_BOOKS, [], [], [], map[], {})

  // ----- The settlement a request asks for

  function TextAt(f: Fields, key: string, render: Json -> string): Option<string> {
    if key !in f || f[key].Null? then None
    else if f[key].Str? then Some(f[key].s)
    else Some(render(f[key]))
  }

  function ParseAsset(f: Fields): Option<L.Asset> {
    if "asset" !in f || !f["asset"].Str? then None else
      match f["asset"].s
      case "LUFFA_POINTS" => Some(L.LUFFA_POINTS)
      case "ETH" => Some(L.ETH)
      case "USDC" => Some(L.USDC)
      case "USDT" => Some(L.USDT)
      case "SOL" => Some(L.SOL)
      case "SPL_TOKEN" => Some(L.SPL_TOKEN)
      case _ => None
  }

  function ParseRail(f: Fields): Option<L.Rail> {
    if "rail" !in f || !f["rail"].Str? then None else
      match f["rail"].s
      case "luffa-points" => Some(L.PointsRail)
      case "evm-native" => Some(L.EvmNative)
      case "evm-erc20" => Some(L.EvmErc20)
      case "solana-native" => Some(L.SolanaNative)
      case "solana-spl" => Some(L.SolanaSpl)
      case _ => None
  }

  function DefaultRail(asset: L.Asset, f: Fields): L.Rail {
    if asset == L.LUFFA_POINTS then L.PointsRail
    else if asset == L.SOL then L.SolanaNative
    else if asset == L.SPL_TOKEN || ("chainType" in f && f["chainType"] == Str("solana")) then L.SolanaSpl
    else if asset == L.ETH then L.EvmNative
    else L.EvmErc20
  }

  /** The names the request uses. */
  function AssetName(asset: L.Asset): string {
    match asset
    case LUFFA_POINTS => "LUFFA_POINTS"
    case ETH => "ETH"
    case USDC => "USDC"
    case USDT => "USDT"
    case SOL => "SOL"
    case SPL_TOKEN => "SPL_TOKEN"
  }

  function RailName(rail: L.Rail): string {
    match rail
    case PointsRail => "luffa-points"
    case EvmNative => "evm-native"
    case EvmErc20 => "evm-erc20"
    case SolanaNative => "solana-native"
    case SolanaSpl => "solana-spl"
  }

  /** An asset is read exactly from its own name. */
  lemma AssetNamed(f: Fields, asset: L.Asset)
    ensures ParseAsset(f) == Some(asset) <==> "asset" in f && f["asset"] == Str(AssetName(asset))
  {
    var name := AssetName(asset);
    assert if |name| == 12 then asset == L.LUFFA_POINTS else if |name| == 9 then asset == L.SPL_TOKEN
           else if |name| == 4 then asset == if name[3] == 'C' then L.USDC else L.USDT
           else |name| == 3 && asset == if name[0] == 'E' then L.ETH else L.SOL;
  }

  lemma RailNamed(f: Fields, rail: L.Rail)
    ensures ParseRail(f) == Some(rail) <==> "rail" in f && f["rail"] == Str(RailName(rail))
  {
    var name := RailName(rail);
    assert if |name| == 12 then rail == L.PointsRail else if |name| == 13 then rail == L.SolanaNative
           else if |name| == 9 then rail == L.EvmErc20
           else |name| == 10 && rail == if name[0] == 'e' then L.EvmNative else L.SolanaSpl;
  }

  /** Without a named rail: points stay on the ledger, the chain family follows asset and chain type. */
  lemma DefaultRailFits(asset: L.Asset, f: Fields)
    ensures var rail := DefaultRail(asset, f);
            var solana := "chainType" in f && f["chainType"] == Str("solana");
            && (rail == L.PointsRail <==> asset == L.LUFFA_POINTS)
            && (rail == L.SolanaNative || rail == L.SolanaSpl
                <==> asset == L.SOL || asset == L.SPL_TOKEN || (solana && asset != L.LUFFA_POINTS))
            && (rail == L.SolanaNative || rail == L.EvmNative <==> asset == L.SOL || (asset == L.ETH && !solana))
  {
  }

  /**
    * `buildSettlementInstruction`: only positive amounts to a named payee, paid by the owner unless
    * the request says otherwise, in points on the points rail unless it names another asset or rail.
    */
  function BuildInstruction(r: Invocation, executionId: string, agent: Agent, render: Json -> string)
    : (i: Option<L.Instruction>)
    ensures i.Some? ==> i.value.amount > 0.0 && i.value.payeeDid != "" && i.value.executionId == executionId
    ensures i.Some? ==>
              var source := P.SettlementSource(r.params, r.context);
              && NumberAt(source, "amount") == Some(i.value.amount)
              && ("payerDid" !in source ==> i.value.payerDid == agent.ownerRef)
              && ("payeeDid" !in source ==> r.targetDid == Some(i.value.payeeDid))
              && i.value.settlementId == StringAt(source, "settlementId")
              && (ParseAsset(source).None? ==> i.value.asset == L.LUFFA_POINTS)
              && (ParseAsset(source).Some? ==> ParseAsset(source).value == i.value.asset)
              && (ParseRail(source).Some? ==> ParseRail(source).value == i.value.rail)
              && (ParseRail(source).None? ==> (i.value.rail == L.PointsRail <==> i.value.asset == L.LUFFA_POINTS))
    ensures i.Some? && ObjectAt(r.params, "settlement").None? && ObjectAt(r.context, "settlement").None? ==>
              P.IsHighRiskAction(r.action)
  {
    var explicit := Or(ObjectAt(r.params, "settlement"), ObjectAt(r.context, "settlement"));
    var source := OrElse(explicit, r.params);
    if explicit.None? && !P.IsHighRiskAction(r.action) then None else
      var amount := NumberAt(source, "amount");
      if amount.None? || amount.value <= 0.0 then None else
        var payer := OrElse(TextAt(source, "payerDid", render), agent.ownerRef);
        var payee := OrElse(Or(TextAt(source, "payeeDid", render), r.targetDid), "");
        if payee == "" then None else
          var asset := OrElse(ParseAsset(source), L.LUFFA_POINTS);
          var rail := OrElse(ParseRail(source), DefaultRail(asset, source));
          Some(L.Instruction(StringAt(source, "settlementId"), executionId, payer, payee, asset, amount.value, rail))
  }

  /** A field as text: a string as it is, another value rendered, and the fallback for a missing or null one. */
  predicate ReadsAs(text: string, f: Fields, key: string, render: Json -> string, fallback: string) {
    if key !in f || f[key].Null? then text == fallback
    else if f[key].Str? then text == f[key].s
    else text == render(f[key])
  }

  /**
    * A request asks for a settlement exactly when it has a settlement object or is a payment or reward,
    * with a positive amount and somebody to pay. The parties are those it names, else the owner pays
    * the target.
    */
  lemma InstructionIff(r: Invocation, executionId: string, agent: Agent, render: Json -> string)
    ensures var stated, other := ObjectAt(r.params, "settlement"), ObjectAt(r.context, "settlement");
            var source := if stated.Some? then stated.value else if other.Some? then other.value else r.params;
            var i := BuildInstruction(r, executionId, agent, render);
            && (i.Some? <==>
                  && (stated.Some? || other.Some?
                      || r.action == "luffa.trigger_payment" || r.action == "luffa.reward_user")
                  && "amount" in source && source["amount"].Num? && source["amount"].n > 0.0
                  && !ReadsAs("", source, "payeeDid", render, OrElse(r.targetDid, "")))
            && (i.Some? ==>
                  && i.value.executionId == executionId && Num(i.value.amount) == source["amount"]
                  && ReadsAs(i.value.payerDid, source, "payerDid", render, agent.ownerRef)
                  && ReadsAs(i.value.payeeDid, source, "payeeDid", render, OrElse(r.targetDid, ""))
                  && (ParseRail(source).None? ==> i.value.rail == DefaultRail(i.value.asset, source)))
  {
  }

  // ----- The steps of one call

  function ScopedKey(key: string, agentId: string): string {
    agentId + ":" + key
  }

  function FindExecution(rows: seq<Execution>, id: string): (r: Option<Execution>)
    ensures r.Some? ==> r.value in rows && r.value.executionId == id
    ensures r.None? ==> forall e | e in rows :: e.executionId != id
  {
    if rows == [] then None else if rows[0].executionId == id then Some(rows[0]) else FindExecution(rows[1..], id)
  }

  /** `getExecutionByIdempotency`: the key row of this agent joined with its execution. */
  function Replay(t: Tables, agentId: string, key: string): Option<Execution> {
    var scoped := ScopedKey(key, agentId);
    if scoped in t.idempotency && t.idempotency[scoped].agentId == agentId
    then FindExecution(t.executions, t.idempotency[scoped].executionId)
    else None
  }

  function FindAudit(rows: seq<P.Audit>, id: string): (r: Option<P.Audit>)
    ensures r.Some? ==> r.value in rows && r.value.decisionId == id
    ensures r.None? ==> forall a | a in rows :: a.decisionId != id
  {
    if rows == [] then None else if rows[0].decisionId == id then Some(rows[0]) else FindAudit(rows[1..], id)
  }

  /** `assertPersistedPermissionDecision`. */
  predicate Persisted(t: Tables, agentId: string, action: string, a: P.Audit) {
    var row := FindAudit(t.audits, a.decisionId);
    row.Some? && row.value.agentId == agentId && row.value.action == action && row.value.decision == a.decision
  }

  function PermissionRequest(r: Invocation, agent: Agent): P.Request {
    P.Request(agent.internalId, agent.ownerRef, r.action, r.params, r.context, agent.riskLevel)
  }

  /** Insert the execution and its key; a primary key already taken throws and leaves what was written before. */
  function Record(t: Tables, key: string, e: Execution): (Tables, Outcome<Execution>) {
    if FindExecution(t.executions, e.executionId).Some? then (t, Threw) else
      var t' := t.(executions := t.executions + [e]);
      var scoped := ScopedKey(key, e.agentId);
      if scoped in t.idempotency then (t', Threw)
      else (t'.(idempotency := t.idempotency[scoped := IdempotencyRow(e.executionId, e.agentId)]), Returned(e))
  }

  function RecordDenied(t: Tables, r: Invocation, executionId: string, agent: Agent, a: P.Audit)
    : (Tables, Outcome<Execution>)
  {
    if !Persisted(t, agent.internalId, r.action, a) then (t, Threw)
    else Record(t, r.idempotencyKey, Execution(executionId, agent.internalId, r.action, DENIED, a.decisionId, None))
  }

  /** The id of the record that settling inserts, if any. */
  function InsertedId(b: L.Books, i: L.Instruction, newId: string): set<string> {
    if L.FindRecord(b.settlements, L.IdOf(i, newId)).Some? then {} else {L.IdOf(i, newId)}
  }

  /** `execute` with the settling `afterHandler` of `invoke`. */
  function Execute(t: Tables, r: Invocation, executionId: string, agent: Agent, a: P.Audit, w: World)
    : (Tables, Outcome<Execution>)
  {
    if !Persisted(t, agent.internalId, r.action, a) || a.decision != P.ALLOW then (t, Threw) else
      var instruction := BuildInstruction(r, executionId, agent, w.render);
      if !w.handlerReturns then
        Record(t, r.idempotencyKey, Execution(executionId, agent.internalId, r.action, FAILED, a.decisionId, None))
      else if instruction.None? then
        Record(t, r.idempotencyKey, Execution(executionId, agent.internalId, r.action, SUCCESS, a.decisionId, None))
      else
        var settled := L.SettleResult(t.books, instruction.value, w.newSettlementId, w.answer);
        var t' := t.(books := L.AfterSettle(t.books, instruction.value, w.newSettlementId, w.answer),
                     invoked := t.invoked + InsertedId(t.books, instruction.value, w.newSettlementId));
        if settled.Threw? then
          Record(t', r.idempotencyKey, Execution(executionId, agent.internalId, r.action, FAILED, a.decisionId, None))
        else
          var status := if settled.value.status == L.ROLLED_BACK then FAILED else SUCCESS;
          Record(t', r.idempotencyKey,
                 Execution(executionId, agent.internalId, r.action, status, a.decisionId,
                           Some(settled.value.settlementId)))
  }

  predicate MissingWallet(r: Invocation, executionId: string, agent: Agent, w: World) {
    var instruction := BuildInstruction(r, executionId, agent, w.render);
    instruction.Some? && instruction.value.rail != L.PointsRail && !w.walletBound
  }

  /** The rest of `invoke` once an active agent's decision is stored. */
  function AfterDecision(t: Tables, agent: Agent, r: Invocation, executionId: string, decision: P.Audit, w: World)
    : (Tables, Outcome<Execution>)
  {
    if decision.decision != P.ALLOW || !w.capabilityOk then RecordDenied(t, r, executionId, agent, decision)
    else if MissingWallet(r, executionId, agent, w) then
      var denial := P.MakeAudit(PermissionRequest(r, agent), w.denialId, P.DENY, None);
      RecordDenied(t.(audits := t.audits + [denial]), r, executionId, agent, denial)
    else Execute(t, r, executionId, agent, decision, w)
  }

  /** `invoke`, for an agent already resolved. */
  function Invoke(t: Tables, agent: Agent, r: Invocation, w: World): (Tables, Outcome<Execution>) {
    var existing := Replay(t, agent.internalId, r.idempotencyKey);
    if existing.Some? then (t, Returned(existing.value)) else
      var executionId := OrElse(r.executionId, w.newExecutionId);
      var request := PermissionRequest(r, agent);
      if !agent.active then
        var denial := P.MakeAudit(request, w.decisionId, P.DENY, None);
        RecordDenied(t.(audits := t.audits + [denial]), r, executionId, agent, denial)
      else
        var decision := P.EvaluationAudit(t.policies, t.audits, request, w.decisionId);
        AfterDecision(t.(audits := t.audits + [decision]), agent, r, executionId, decision, w)
  }

  // ----- Direct transfers

  /** An idempotency key gives the record id, unless the caller names one. */
  function TransferInstruction(c: TransferCall): L.Instruction {
    var i := c.instruction;
    if i.settlementId.None? && c.key.Some? && c.key.value != ""
    then i.(settlementId := Some(c.derive(c.key.value, i.executionId))) else i
  }

  /** `transferSettlement`: straight to the books, under whatever execution id the caller gives. */
  function Transfer(t: Tables, c: TransferCall): (Tables, Outcome<L.Record>) {
    var i := TransferInstruction(c);
    (t.(books := L.AfterSettle(t.books, i, c.newId, c.answer)), L.SettleResult(t.books, i, c.newId, c.answer))
  }
}
