/** Execution records as rows, and the leaf hash that must survive storage. */
module LeafHash {
  import opened Wrappers
  import opened CanonicalJson
  import J = Json

  /** JSON text: `JSON.stringify` and `JSON.parse`, as any two functions. */
  datatype Codec = Codec(render: Value -> string, parse: string -> Option<Value>)

  /** This value survives being stored as text. */
  predicate Survives(codec: Codec, v: Value) {
    codec.render(v) != "" && codec.parse(codec.render(v)) == Some(v)
  }

  datatype ExecutionRecord = ExecutionRecord(
    executionId: string, agentId: string, targetDid: Option<string>, action: string, params: Value,
    rawInput: Option<string>,
    result: Value, status: string, decisionId: string, settlementId: Option<string>, chainType: Option<string>,
    chainId: Option<string>, txHash: Option<string>, walletAddress: Option<string>, gasUsed: Option<string>,
    blockNumber: Option<real>, zkProof: Option<string>, teeAttestation: Option<string>, durationMs: real,
    createdAt: string, schemaVersion: string, apiVersion: string,
    feedback: Option<Value>, merkleRoot: Option<string>, merkleIndex: Option<int>)

  /** The stored form: payloads as JSON text, a missing field as NULL. */
  datatype Row = Row(
    executionId: string, agentId: string, targetDid: Option<string>, action: string, params: string,
    rawInput: Option<string>,
    result: Option<string>, status: string, decisionId: string, settlementId: Option<string>, chainType: Option<string>,
    chainId: Option<string>, txHash: Option<string>, walletAddress: Option<string>, gasUsed: Option<string>,
    blockNumber: Option<real>, zkProof: Option<string>, teeAttestation: Option<string>, durationMs: Option<real>,
    createdAt: string, schemaVersion: Option<string>, apiVersion: Option<string>,
    feedback: Option<string>, merkleLeafHash: string, merkleRoot: Option<string>, merkleIndex: Option<int>)

  // ----- The leaf

  /** A field of the leaf; one that is undefined is left out of the JSON text. */
  datatype Slot = Slot(key: string, value: Option<Value>)

  function Text(value: Option<string>): Option<Value> {
    if value.Some? then Some(Str(value.value)) else None
  }

  function Number(value: Option<real>): Option<Value> {
    if value.Some? then Some(CanonicalJson.Num(value.value)) else None
  }

  /** The fields `createExecutionLeafHash` hashes, in its order: all but feedback and the Merkle position. */
  function LeafSlot(r: ExecutionRecord, i: int): Slot {
    match i
    case 0 => Slot("executionId", Some(Str(r.executionId)))
    case 1 => Slot("agentId", Some(Str(r.agentId)))
    case 2 => Slot("targetDid", Text(r.targetDid))
    case 3 => Slot("action", Some(Str(r.action)))
    case 4 => Slot("params", Some(r.params))
    case 5 => Slot("rawInput", Text(r.rawInput))
    case 6 => Slot("result", Some(r.result))
    case 7 => Slot("status", Some(Str(r.status)))
    case 8 => Slot("permissionDecisionId", Some(Str(r.decisionId)))
    case 9 => Slot("settlementId", Text(r.settlementId))
    case 10 => Slot("chainType", Text(r.chainType))
    case 11 => Slot("chainId", Text(r.chainId))
    case 12 => Slot("txHash", Text(r.txHash))
    case 13 => Slot("walletAddress", Text(r.walletAddress))
    case 14 => Slot("gasUsed", Text(r.gasUsed))
    case 15 => Slot("blockNumber", Number(r.blockNumber))
    case 16 => Slot("zkProof", Text(r.zkProof))
    case 17 => Slot("teeAttestation", Text(r.teeAttestation))
    case 18 => Slot("durationMs", Some(CanonicalJson.Num(r.durationMs)))
    case 19 => Slot("createdAt", Some(Str(r.createdAt)))
    case 20 => Slot("schemaVersion", Some(Str(r.schemaVersion)))
    case _ => Slot("apiVersion", Some(Str(r.apiVersion)))
  }

  function LeafSlots(r: ExecutionRecord): (slots: seq<Slot>)
    ensures |slots| == 22 && forall i | 0 <= i < 22 :: slots[i] == LeafSlot(r, i)
  {
    seq(22, i => LeafSlot(r, i))
  }

  /** The entries that are there. */
  function Present(slots: seq<Slot>): seq<Entry> {
    if slots == [] then []
    else if slots[0].value.None? then Present(slots[1..])
    else [Entry(slots[0].key, slots[0].value.value)] + Present(slots[1..])
  }

  /** The value that is rendered, its text, and the leaf hash. */
  function LeafValue(le: KeyOrder, r: ExecutionRecord): Value {
    Sort(Obj(Present(LeafSlots(r))), le)
  }

  function LeafText(codec: Codec, le: KeyOrder, r: ExecutionRecord): string {
    codec.render(LeafValue(le, r))
  }

  function LeafHashOf(H: string -> string, codec: Codec, le: KeyOrder, r: ExecutionRecord): string {
    H(LeafText(codec, le, r))
  }

  // ----- Storage

  function StableJson(codec: Codec, le: KeyOrder, v: Value): string {
    codec.render(Sort(v, le))
  }

  /** The row inserted when an execution is written: no feedback and no Merkle position yet. */
  function WriteRow(H: string -> string, codec: Codec, le: KeyOrder, r: ExecutionRecord): Row {
    Row(r.executionId, r.agentId, r.targetDid, r.action, StableJson(codec, le, r.params), r.rawInput,
        Some(StableJson(codec, le, r.result)), r.status, r.decisionId, r.settlementId, r.chainType,
        r.chainId, r.txHash, r.walletAddress, r.gasUsed, r.blockNumber, r.zkProof, r.teeAttestation, Some(r.durationMs),
        r.createdAt, Some(r.schemaVersion), Some(r.apiVersion),
        None, LeafHashOf(H, codec, le, r.(feedback := None, merkleRoot := None, merkleIndex := None)), None, None)
  }

  /** The later updates of a row. */
  datatype Update = SetMerkle(root: string, index: int) | SetFeedback(feedback: Value)

  function Apply(codec: Codec, le: KeyOrder, row: Row, u: Update): Row {
    match u
    case SetMerkle(root, index) => row.(merkleRoot := Some(root), merkleIndex := Some(index))
    case SetFeedback(feedback) => row.(feedback := Some(StableJson(codec, le, feedback)))
  }

  function ApplyAll(codec: Codec, le: KeyOrder, row: Row, us: seq<Update>): Row
    decreases |us|
  {
    if us == [] then row else ApplyAll(codec, le, Apply(codec, le, row, us[0]), us[1..])
  }

  /** `parseJson` with an empty object to fall back on. */
  function ParseObject(codec: Codec, text: Option<string>): Value {
    if text.None? || text.value == "" || codec.parse(text.value).None? then Obj([]) else codec.parse(text.value).value
  }

  /** `mapExecutionRow`. */
  function MapRow(codec: Codec, row: Row): ExecutionRecord {
    ExecutionRecord(
      row.executionId, row.agentId, row.targetDid, row.action, ParseObject(codec, Some(row.params)), row.rawInput,
      ParseObject(codec, row.result), row.status, row.decisionId, row.settlementId, row.chainType,
      row.chainId, row.txHash, row.walletAddress, row.gasUsed, row.blockNumber, row.zkProof, row.teeAttestation,
      J.OrElse(row.durationMs, 0.0), row.createdAt, J.OrElse(row.schemaVersion, "1.0"), J.OrElse(row.apiVersion, "v1"),
      if row.feedback.Some? && row.feedback.value != "" then codec.parse(row.feedback.value) else None,
      row.merkleRoot, row.merkleIndex)
  }

  // ----- Stability

  predicate SortAlike(a: Slot, b: Slot, le: KeyOrder) {
    a.key == b.key && a.value.Some? == b.value.Some?
    && (a.value.Some? ==> Sort(a.value.value, le) == Sort(b.value.value, le))
  }

  lemma {:induction false} NestedAlike(a: seq<Slot>, b: seq<Slot>, le: KeyOrder)
    requires |a| == |b| && forall i | 0 <= i < |a| :: SortAlike(a[i], b[i], le)
    ensures SortNested(Present(a), le) == SortNested(Present(b), le)
  {
    if a == [] {
    } else {
      assert SortAlike(a[0], b[0], le);
      assert forall i | 0 <= i < |a| - 1 :: a[1..][i] == a[i + 1] && b[1..][i] == b[i + 1];
      NestedAlike(a[1..], b[1..], le);
    }
  }

  /** Replacing the payloads by their sorted form does not change the sorted leaf. */
  lemma SortedPayloadsSameLeaf(r: ExecutionRecord, s: ExecutionRecord, le: KeyOrder)
    requires TotalPreorder(le)
    requires s.(params := r.params, result := r.result, feedback := r.feedback, merkleRoot := r.merkleRoot,
                merkleIndex := r.merkleIndex) == r
    requires s.params == Sort(r.params, le) && s.result == Sort(r.result, le)
    ensures LeafValue(le, s) == LeafValue(le, r)
  {
    SortIdempotent(r.params, le);
    SortIdempotent(r.result, le);
    forall i | 0 <= i < 22
      ensures SortAlike(LeafSlot(r, i), LeafSlot(s, i), le)
    {
    }
    NestedAlike(LeafSlots(r), LeafSlots(s), le);
  }

  /** Feedback and the Merkle position are not in the leaf. */
  lemma SameSlots(r: ExecutionRecord, s: ExecutionRecord)
    requires s.(feedback := r.feedback, merkleRoot := r.merkleRoot, merkleIndex := r.merkleIndex) == r
    ensures LeafSlots(s) == LeafSlots(r)
  {
    forall i | 0 <= i < 22
      ensures LeafSlot(s, i) == LeafSlot(r, i)
    {
    }
  }

  lemma {:induction false} UpdatesKeepFields(codec: Codec, le: KeyOrder, row: Row, us: seq<Update>)
    ensures ApplyAll(codec, le, row, us)
            == row.(feedback := ApplyAll(codec, le, row, us).feedback,
                    merkleRoot := ApplyAll(codec, le, row, us).merkleRoot,
                    merkleIndex := ApplyAll(codec, le, row, us).merkleIndex)
    decreases |us|
  {
    if us == [] {
    } else {
      UpdatesKeepFields(codec, le, Apply(codec, le, row, us[0]), us[1..]);
    }
  }

  /** The latest feedback and the latest Merkle position are the ones read back, if the feedback survives as text. */
  lemma {:induction false} LatestUpdateShows(codec: Codec, le: KeyOrder, row: Row, us: seq<Update>, i: nat)
    requires i < |us| && forall j | i < j < |us| :: us[j].SetMerkle? != us[i].SetMerkle?
    ensures var last := ApplyAll(codec, le, row, us);
            match us[i]
            case SetMerkle(root, index) =>
              MapRow(codec, last).merkleRoot == Some(root) && MapRow(codec, last).merkleIndex == Some(index)
            case SetFeedback(feedback) =>
              Survives(codec, Sort(feedback, le)) ==> MapRow(codec, last).feedback == Some(Sort(feedback, le))
    decreases |us|
  {
    var next := Apply(codec, le, row, us[0]);
    assert forall j | 0 <= j < |us| - 1 :: us[1..][j] == us[j + 1];
    if i > 0 {
      LatestUpdateShows(codec, le, next, us[1..], i - 1);
    } else {
      OtherUpdatesKeep(codec, le, next, us[1..], us[0].SetMerkle?);
    }
  }

  lemma {:induction false} OtherUpdatesKeep(codec: Codec, le: KeyOrder, row: Row, us: seq<Update>, merkle: bool)
    requires forall j | 0 <= j < |us| :: us[j].SetMerkle? != merkle
    ensures var last := ApplyAll(codec, le, row, us);
            if merkle then last.merkleRoot == row.merkleRoot && last.merkleIndex == row.merkleIndex
            else last.feedback == row.feedback
    decreases |us|
  {
    if us == [] {
    } else {
      assert forall j | 0 <= j < |us| - 1 :: us[1..][j] == us[j + 1];
      OtherUpdatesKeep(codec, le, Apply(codec, le, row, us[0]), us[1..], merkle);
    }
  }

  /**
    * A record whose two sorted payloads survive storage as text, written, given feedback and
    * Merkle positions in any order, and read back is the record with its payloads sorted, and
    * hashes to the leaf hash stored at write time.
    */
  lemma LeafHashSurvivesStorage(H: string -> string, codec: Codec, le: KeyOrder, r: ExecutionRecord, us: seq<Update>)
    requires TotalPreorder(le)
    requires Survives(codec, Sort(r.params, le)) && Survives(codec, Sort(r.result, le))
    ensures var row := ApplyAll(codec, le, WriteRow(H, codec, le, r), us);
            && LeafHashOf(H, codec, le, MapRow(codec, row)) == row.merkleLeafHash
            && row.merkleLeafHash == LeafHashOf(H, codec, le, r)
    ensures var back := MapRow(codec, ApplyAll(codec, le, WriteRow(H, codec, le, r), us));
            back.(feedback := r.feedback, merkleRoot := r.merkleRoot, merkleIndex := r.merkleIndex)
            == r.(params := Sort(r.params, le), result := Sort(r.result, le))
  {
    var written := WriteRow(H, codec, le, r);
    UpdatesKeepFields(codec, le, written, us);
    var row := ApplyAll(codec, le, written, us);
    var back := MapRow(codec, row);
    assert back.params == Sort(r.params, le) && back.result == Sort(r.result, le);
    SortedPayloadsSameLeaf(r, back, le);
    SameSlots(r, r.(feedback := None, merkleRoot := None, merkleIndex := None));
  }

  // ----- What a leaf hash binds

  /** Which slot a key is, told by its length and its second character. */
  function SlotOf(key: string): int {
    if |key| < 2 then -1 else
      match |key|
      case 6 => (match key[1] case 'c' => 3 case 'a' => 4 case 'e' => 6 case 't' => 7 case _ => 12)
      case 7 => (match key[1] case 'g' => 1 case 'h' => 11 case 'a' => 14 case _ => 16)
      case 8 => 5
      case 9 => (match key[1] case 'a' => 2 case 'h' => 10 case _ => 19)
      case 10 => if key[1] == 'u' then 18 else 21
      case 11 => if key[1] == 'x' then 0 else 15
      case 12 => 9
      case 13 => if key[1] == 'a' then 13 else 20
      case 14 => 17
      case _ => 8
  }

  /** No two fields of the leaf have one name. */
  predicate DistinctSlots(slots: seq<Slot>) {
    forall i, j | 0 <= i < j < |slots| :: slots[i].key != slots[j].key
  }

  lemma SlotOfKey(r: ExecutionRecord, i: int)
    requires 0 <= i < 22
    ensures SlotOf(LeafSlot(r, i).key) == i
  {
  }

  lemma SlotsAreDistinct(r: ExecutionRecord)
    ensures DistinctSlots(LeafSlots(r))
  {
    forall i, j | 0 <= i < j < 22
      ensures LeafSlot(r, i).key != LeafSlot(r, j).key
    {
      SlotOfKey(r, i);
      SlotOfKey(r, j);
    }
  }

  lemma {:induction false} AbsentSlot(slots: seq<Slot>, key: string)
    requires forall i | 0 <= i < |slots| :: slots[i].key != key
    ensures !HasKey(Present(slots), key)
  {
    if slots == [] {
    } else {
      AbsentSlot(slots[1..], key);
      assert slots[0].value.Some? ==> Present(slots)[1..] == Present(slots[1..]);
    }
  }

  lemma {:induction false} PresentIsDistinct(slots: seq<Slot>)
    requires DistinctSlots(slots)
    ensures DistinctKeys(Present(slots))
  {
    if slots == [] {
    } else {
      var rest := Present(slots[1..]);
      PresentIsDistinct(slots[1..]);
      AbsentSlot(slots[1..], slots[0].key);
      forall i | 0 <= i < |rest|
        ensures rest[i].key != slots[0].key
      {
        HasKeyAt(rest, i);
      }
    }
  }

  lemma {:induction false} PresentIsWellFormed(slots: seq<Slot>)
    requires forall i | 0 <= i < |slots| && slots[i].value.Some? :: WellFormed(slots[i].value.value)
    ensures forall i | 0 <= i < |Present(slots)| :: WellFormed(Present(slots)[i].value)
  {
    if slots == [] {
    } else {
      PresentIsWellFormed(slots[1..]);
    }
  }

  /** What the object says at a key. */
  function Said(slot: Slot): Option<J.Json> {
    if slot.value.Some? then Some(Meaning(slot.value.value)) else None
  }

  function Looked(fields: map<string, J.Json>, key: string): Option<J.Json> {
    if key in fields then Some(fields[key]) else None
  }

  lemma {:induction false} FieldOfSlot(slots: seq<Slot>, i: nat)
    requires DistinctSlots(slots) && i < |slots|
    ensures Looked(Fields(Present(slots)), slots[i].key) == Said(slots[i])
  {
    var rest := slots[1..];
    assert slots[0].value.Some? ==> Present(slots)[1..] == Present(rest);
    if i == 0 {
      AbsentSlot(rest, slots[0].key);
    } else {
      assert rest[i - 1] == slots[i];
      FieldOfSlot(rest, i - 1);
    }
  }

  lemma {:induction false} SaysDecide(a: seq<Slot>, b: seq<Slot>)
    requires |a| == |b| && forall i | 0 <= i < |a| :: a[i].key == b[i].key && Said(a[i]) == Said(b[i])
    ensures Fields(Present(a)) == Fields(Present(b))
  {
    if a == [] {
    } else {
      assert Said(a[0]) == Said(b[0]);
      assert forall i | 0 <= i < |a| - 1 :: a[1..][i] == a[i + 1] && b[1..][i] == b[i + 1];
      SaysDecide(a[1..], b[1..]);
      assert a[0].value.Some? ==> Present(a)[1..] == Present(a[1..]) && Present(b)[1..] == Present(b[1..]);
    }
  }

  /** All but feedback and Merkle position: every field, and the payloads up to the order of their keys. */
  predicate AgreeOnCommitted(r: ExecutionRecord, s: ExecutionRecord) {
    && s.(params := r.params, result := r.result, feedback := r.feedback, merkleRoot := r.merkleRoot,
          merkleIndex := r.merkleIndex) == r
    && Meaning(s.params) == Meaning(r.params) && Meaning(s.result) == Meaning(r.result)
  }

  lemma AgreeingSlots(r: ExecutionRecord, s: ExecutionRecord, i: int)
    requires AgreeOnCommitted(r, s) && 0 <= i < 22
    ensures Said(LeafSlot(r, i)) == Said(LeafSlot(s, i))
  {
  }

  ghost predicate SlotsAgree(r: ExecutionRecord, s: ExecutionRecord, from: int, to: int) {
    forall i | from <= i < to :: Said(LeafSlot(r, i)) == Said(LeafSlot(s, i))
  }

  function TextJson(value: Option<string>): Option<J.Json> {
    if value.Some? then Some(J.Str(value.value)) else None
  }

  function NumberJson(value: Option<real>): Option<J.Json> {
    if value.Some? then Some(J.Num(value.value)) else None
  }

  lemma IdentitySaid(r: ExecutionRecord)
    ensures Said(LeafSlot(r, 0)) == Some(J.Str(r.executionId))
    ensures Said(LeafSlot(r, 1)) == Some(J.Str(r.agentId))
    ensures Said(LeafSlot(r, 2)) == TextJson(r.targetDid)
    ensures Said(LeafSlot(r, 3)) == Some(J.Str(r.action))
    ensures Said(LeafSlot(r, 4)) == Some(Meaning(r.params))
    ensures Said(LeafSlot(r, 5)) == TextJson(r.rawInput)
  {
  }

  lemma IdentityAgrees(r: ExecutionRecord, s: ExecutionRecord)
    requires SlotsAgree(r, s, 0, 6)
    ensures r.executionId == s.executionId && r.agentId == s.agentId && r.targetDid == s.targetDid
    ensures r.action == s.action && Meaning(r.params) == Meaning(s.params) && r.rawInput == s.rawInput
  {
    IdentitySaid(r);
    IdentitySaid(s);
    assert Said(LeafSlot(r, 0)) == Said(LeafSlot(s, 0)) && Said(LeafSlot(r, 1)) == Said(LeafSlot(s, 1));
    assert Said(LeafSlot(r, 2)) == Said(LeafSlot(s, 2)) && Said(LeafSlot(r, 3)) == Said(LeafSlot(s, 3));
    assert Said(LeafSlot(r, 4)) == Said(LeafSlot(s, 4)) && Said(LeafSlot(r, 5)) == Said(LeafSlot(s, 5));
  }

  lemma OutcomeSaid(r: ExecutionRecord)
    ensures Said(LeafSlot(r, 6)) == Some(Meaning(r.result))
    ensures Said(LeafSlot(r, 7)) == Some(J.Str(r.status))
    ensures Said(LeafSlot(r, 8)) == Some(J.Str(r.decisionId))
    ensures Said(LeafSlot(r, 9)) == TextJson(r.settlementId)
  {
  }

  lemma OutcomeAgrees(r: ExecutionRecord, s: ExecutionRecord)
    requires SlotsAgree(r, s, 6, 10)
    ensures Meaning(r.result) == Meaning(s.result) && r.status == s.status && r.decisionId == s.decisionId
    ensures r.settlementId == s.settlementId
  {
    OutcomeSaid(r);
    OutcomeSaid(s);
    assert Said(LeafSlot(r, 6)) == Said(LeafSlot(s, 6)) && Said(LeafSlot(r, 7)) == Said(LeafSlot(s, 7));
    assert Said(LeafSlot(r, 8)) == Said(LeafSlot(s, 8)) && Said(LeafSlot(r, 9)) == Said(LeafSlot(s, 9));
  }

  lemma ChainSaid(r: ExecutionRecord)
    ensures Said(LeafSlot(r, 10)) == TextJson(r.chainType)
    ensures Said(LeafSlot(r, 11)) == TextJson(r.chainId)
    ensures Said(LeafSlot(r, 12)) == TextJson(r.txHash)
    ensures Said(LeafSlot(r, 13)) == TextJson(r.walletAddress)
    ensures Said(LeafSlot(r, 14)) == TextJson(r.gasUsed)
    ensures Said(LeafSlot(r, 15)) == NumberJson(r.blockNumber)
  {
  }

  lemma ChainAgrees(r: ExecutionRecord, s: ExecutionRecord)
    requires SlotsAgree(r, s, 10, 16)
    ensures r.chainType == s.chainType && r.chainId == s.chainId && r.txHash == s.txHash
    ensures r.walletAddress == s.walletAddress && r.gasUsed == s.gasUsed && r.blockNumber == s.blockNumber
  {
    ChainSaid(r);
    ChainSaid(s);
    assert Said(LeafSlot(r, 10)) == Said(LeafSlot(s, 10)) && Said(LeafSlot(r, 11)) == Said(LeafSlot(s, 11));
    assert Said(LeafSlot(r, 12)) == Said(LeafSlot(s, 12)) && Said(LeafSlot(r, 13)) == Said(LeafSlot(s, 13));
    assert Said(LeafSlot(r, 14)) == Said(LeafSlot(s, 14)) && Said(LeafSlot(r, 15)) == Said(LeafSlot(s, 15));
  }

  lemma ProofSaid(r: ExecutionRecord)
    ensures Said(LeafSlot(r, 16)) == TextJson(r.zkProof)
    ensures Said(LeafSlot(r, 17)) == TextJson(r.teeAttestation)
    ensures Said(LeafSlot(r, 18)) == Some(J.Num(r.durationMs))
    ensures Said(LeafSlot(r, 19)) == Some(J.Str(r.createdAt))
    ensures Said(LeafSlot(r, 20)) == Some(J.Str(r.schemaVersion))
    ensures Said(LeafSlot(r, 21)) == Some(J.Str(r.apiVersion))
  {
  }

  lemma ProofAgrees(r: ExecutionRecord, s: ExecutionRecord)
    requires SlotsAgree(r, s, 16, 22)
    ensures r.zkProof == s.zkProof && r.teeAttestation == s.teeAttestation && r.durationMs == s.durationMs
    ensures r.createdAt == s.createdAt && r.schemaVersion == s.schemaVersion && r.apiVersion == s.apiVersion
  {
    ProofSaid(r);
    ProofSaid(s);
    assert Said(LeafSlot(r, 16)) == Said(LeafSlot(s, 16)) && Said(LeafSlot(r, 17)) == Said(LeafSlot(s, 17));
    assert Said(LeafSlot(r, 18)) == Said(LeafSlot(s, 18)) && Said(LeafSlot(r, 19)) == Said(LeafSlot(s, 19));
    assert Said(LeafSlot(r, 20)) == Said(LeafSlot(s, 20)) && Said(LeafSlot(r, 21)) == Said(LeafSlot(s, 21));
  }

  lemma SlotsShowAgreement(r: ExecutionRecord, s: ExecutionRecord)
    requires SlotsAgree(r, s, 0, 22)
    ensures AgreeOnCommitted(r, s)
  {
    IdentityAgrees(r, s);
    OutcomeAgrees(r, s);
    ChainAgrees(r, s);
    ProofAgrees(r, s);
  }

  predicate GoodPayloads(r: ExecutionRecord) {
    WellFormed(r.params) && WellFormed(r.result)
  }

  lemma LeafIsWellFormed(r: ExecutionRecord)
    requires GoodPayloads(r)
    ensures WellFormed(Obj(Present(LeafSlots(r))))
  {
    SlotsAreDistinct(r);
    PresentIsDistinct(LeafSlots(r));
    forall i | 0 <= i < 22 && LeafSlot(r, i).value.Some?
      ensures WellFormed(LeafSlot(r, i).value.value)
    {
    }
    PresentIsWellFormed(LeafSlots(r));
  }

  lemma LeafSaysAgree(r: ExecutionRecord, s: ExecutionRecord)
    requires Fields(Present(LeafSlots(r))) == Fields(Present(LeafSlots(s)))
    ensures SlotsAgree(r, s, 0, 22)
  {
    SlotsAreDistinct(r);
    SlotsAreDistinct(s);
    forall i | 0 <= i < 22
      ensures Said(LeafSlot(r, i)) == Said(LeafSlot(s, i))
    {
      SameKey(r, s, i);
      FieldOfSlot(LeafSlots(r), i);
      FieldOfSlot(LeafSlots(s), i);
    }
  }

  lemma SameKey(r: ExecutionRecord, s: ExecutionRecord, i: int)
    ensures LeafSlot(r, i).key == LeafSlot(s, i).key
  {
  }

  /** Two leaf objects mean the same exactly when the records agree. */
  lemma LeafMeansIff(r: ExecutionRecord, s: ExecutionRecord)
    ensures Fields(Present(LeafSlots(r))) == Fields(Present(LeafSlots(s))) <==> AgreeOnCommitted(r, s)
  {
    if Fields(Present(LeafSlots(r))) == Fields(Present(LeafSlots(s))) {
      LeafSaysAgree(r, s);
      SlotsShowAgreement(r, s);
    }
    if AgreeOnCommitted(r, s) {
      forall i | 0 <= i < 22
        ensures LeafSlot(r, i).key == LeafSlot(s, i).key && Said(LeafSlot(r, i)) == Said(LeafSlot(s, i))
      {
        SameKey(r, s, i);
        AgreeingSlots(r, s, i);
      }
      SaysDecide(LeafSlots(r), LeafSlots(s));
    }
  }

  /**
    * Binding, whatever the comparison: two records with one leaf hash have different texts that
    * collide, or different sorted leaves with one text, or agree on everything the leaf commits to.
    */
  lemma LeafHashBinds(H: string -> string, codec: Codec, le: KeyOrder, r: ExecutionRecord, s: ExecutionRecord)
    requires GoodPayloads(r) && GoodPayloads(s) && LeafHashOf(H, codec, le, r) == LeafHashOf(H, codec, le, s)
    ensures || (LeafText(codec, le, r) != LeafText(codec, le, s)
                && H(LeafText(codec, le, r)) == H(LeafText(codec, le, s)))
            || (LeafValue(le, r) != LeafValue(le, s)
                && codec.render(LeafValue(le, r)) == codec.render(LeafValue(le, s)))
            || AgreeOnCommitted(r, s)
  {
    if LeafValue(le, r) == LeafValue(le, s) {
      LeafIsWellFormed(r);
      LeafIsWellFormed(s);
      SortKeepsMeaning(Obj(Present(LeafSlots(r))), le);
      SortKeepsMeaning(Obj(Present(LeafSlots(s))), le);
      LeafMeansIff(r, s);
    }
  }

  /** The converse, for a comparison without ties: records that agree have one sorted leaf, text and hash. */
  lemma AgreeingLeavesMatch(H: string -> string, codec: Codec, le: KeyOrder, r: ExecutionRecord, s: ExecutionRecord)
    requires TotalOrder(le) && GoodPayloads(r) && GoodPayloads(s) && AgreeOnCommitted(r, s)
    ensures LeafValue(le, r) == LeafValue(le, s)
    ensures LeafHashOf(H, codec, le, r) == LeafHashOf(H, codec, le, s)
  {
    LeafIsWellFormed(r);
    LeafIsWellFormed(s);
    LeafMeansIff(r, s);
    OrderHasNoTies(Obj(Present(LeafSlots(r))), le);
    SortDecidesMeaning(Obj(Present(LeafSlots(r))), Obj(Present(LeafSlots(s))), le);
  }
}
