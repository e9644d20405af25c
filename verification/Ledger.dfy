/** The points ledger as a value: accounts, settlement records and what each call does to them. */
module Ledger {
  import opened Wrappers

  datatype Asset = LUFFA_POINTS | ETH | USDC | USDT | SOL | SPL_TOKEN
  datatype Rail = PointsRail | EvmNative | EvmErc20 | SolanaNative | SolanaSpl
  datatype Status = PENDING | COMPLETED | FAILED | ROLLED_BACK
  datatype LedgerError =
    | NotPositive | NotCreditable | AccountNotFound | AccountFrozen | InsufficientBalance | AdapterFailed

  /** The UNIQUE(did, asset) key of the accounts table. */
  datatype AccountKey = AccountKey(did: string, asset: Asset)
  datatype Account = Account(balance: real, frozen: bool)

  datatype TransactionRef = PointsRef(settlementId: string) | ErrorRef(error: LedgerError) | ChainRef(txHash: string)

  datatype Instruction = Instruction(
    settlementId: Option<string>, executionId: string, payerDid: string, payeeDid: string,
    asset: Asset, amount: real, rail: Rail)

  datatype Record = Record(
    settlementId: string, executionId: string, payerDid: string, payeeDid: string,
    asset: Asset, amount: real, rail: Rail, status: Status, transactionRef: TransactionRef)

  datatype Credit = Credit(did: string, amount: real)

  /** The two tables, and as history the credits that were accepted. */
  datatype Books = Books(accounts: map<AccountKey, Account>, settlements: seq<Record>, credits: seq<Credit>)

  const EMPTY_BOOKS := Books(map[], [], [])

  // ----- Lookups

  function FindRecord(rows: seq<Record>, settlementId: string): (r: Option<Record>)
    ensures r.Some? ==> r.value in rows && r.value.settlementId == settlementId
    ensures r.None? ==> forall row | row in rows :: row.settlementId != settlementId
  {
    if rows == [] then None
    else if rows[0].settlementId == settlementId then Some(rows[0])
    else FindRecord(rows[1..], settlementId)
  }

  /** `getBalance`: a missing account counts as zero. */
  function Balance(accounts: map<AccountKey, Account>, key: AccountKey): real {
    if key in accounts then accounts[key].balance else 0.0
  }

  // ----- The calls

  /** `createAccount`: an existing account is left alone. */
  function WithAccount(accounts: map<AccountKey, Account>, key: AccountKey): map<AccountKey, Account> {
    if key in accounts then accounts else accounts[key := Account(0.0, false)]
  }

  function AddTo(accounts: map<AccountKey, Account>, key: AccountKey, amount: real): map<AccountKey, Account>
    requires key in accounts
  {
    accounts[key := accounts[key].(balance := accounts[key].balance + amount)]
  }

  function CreditError(b: Books, did: string, asset: Asset, amount: real): Option<LedgerError> {
    var key := AccountKey(did, asset);
    if asset != LUFFA_POINTS then Some(NotCreditable)
    else if amount <= 0.0 then Some(NotPositive)
    else if WithAccount(b.accounts, key)[key].frozen then Some(AccountFrozen)
    else None
  }

  function AfterCredit(b: Books, did: string, asset: Asset, amount: real): Books {
    if CreditError(b, did, asset, amount).Some? then b else
      var key := AccountKey(did, asset);
      Books(AddTo(WithAccount(b.accounts, key), key, amount), b.settlements, b.credits + [Credit(did, amount)])
  }

  /** Why the body of a points transfer throws, in the order of its checks. */
  function TransferError(accounts: map<AccountKey, Account>, i: Instruction): Option<LedgerError> {
    var payer, payee := AccountKey(i.payerDid, i.asset), AccountKey(i.payeeDid, i.asset);
    var present := WithAccount(accounts, payee);
    if payer !in present then Some(AccountNotFound)
    else if present[payer].frozen || present[payee].frozen then Some(AccountFrozen)
    else if present[payer].balance < i.amount then Some(InsufficientBalance)
    else None
  }

  function MovePoints(accounts: map<AccountKey, Account>, i: Instruction): map<AccountKey, Account>
    requires TransferError(accounts, i).None?
  {
    var payer, payee := AccountKey(i.payerDid, i.asset), AccountKey(i.payeeDid, i.asset);
    AddTo(AddTo(WithAccount(accounts, payee), payer, -i.amount), payee, i.amount)
  }

  function MakeRecord(i: Instruction, settlementId: string, status: Status, ref: TransactionRef): Record {
    Record(settlementId, i.executionId, i.payerDid, i.payeeDid, i.asset, i.amount, i.rail, status, ref)
  }

  function IdOf(i: Instruction, newId: string): string {
    if i.settlementId.Some? then i.settlementId.value else newId
  }

  /** The record a points transfer writes when its settlement id is new. */
  function TransferRecord(accounts: map<AccountKey, Account>, i: Instruction, settlementId: string): Record {
    match TransferError(accounts, i)
    case None => MakeRecord(i, settlementId, COMPLETED, PointsRef(settlementId))
    case Some(error) => MakeRecord(i, settlementId, ROLLED_BACK, ErrorRef(error))
  }

  /** `transferLuffaPoints`: what it returns, and the books it leaves. */
  function TransferResult(b: Books, i: Instruction, newId: string): Outcome<Record> {
    if i.amount <= 0.0 then Threw
    else
      match FindRecord(b.settlements, IdOf(i, newId))
      case Some(existing) => Returned(existing)
      case None => Returned(TransferRecord(b.accounts, i, IdOf(i, newId)))
  }

  function AfterTransfer(b: Books, i: Instruction, newId: string): Books {
    if i.amount <= 0.0 || FindRecord(b.settlements, IdOf(i, newId)).Some? then b
    else
      Books(if TransferError(b.accounts, i).None? then MovePoints(b.accounts, i) else b.accounts,
            b.settlements + [TransferRecord(b.accounts, i, IdOf(i, newId))],
            b.credits)
  }

  /** What a chain adapter answers, or nothing when some check or the adapter throws. */
  datatype AdapterAnswer = AdapterAnswer(status: Status, txHash: string)

  function AdapterRecord(i: Instruction, settlementId: string, answer: Option<AdapterAnswer>): Record {
    match answer
    case Some(a) => MakeRecord(i, settlementId, a.status, ChainRef(a.txHash))
    case None => MakeRecord(i, settlementId, ROLLED_BACK, ErrorRef(AdapterFailed))
  }

  /** `settle`: points go through the ledger, everything else through an adapter. */
  function SettleResult(b: Books, i: Instruction, newId: string, answer: Option<AdapterAnswer>): Outcome<Record> {
    if i.rail == PointsRail then TransferResult(b, i, newId)
    else if i.amount <= 0.0 then Threw
    else
      match FindRecord(b.settlements, IdOf(i, newId))
      case Some(existing) => Returned(existing)
      case None => Returned(AdapterRecord(i, IdOf(i, newId), answer))
  }

  function AfterSettle(b: Books, i: Instruction, newId: string, answer: Option<AdapterAnswer>): Books {
    if i.rail == PointsRail then AfterTransfer(b, i, newId)
    else if i.amount <= 0.0 || FindRecord(b.settlements, IdOf(i, newId)).Some? then b
    else b.(settlements := b.settlements + [AdapterRecord(i, IdOf(i, newId), answer)])
  }

  // ----- Runs

  datatype Op =
    | OpenAccount(key: AccountKey)
    | GiveCredit(did: string, asset: Asset, amount: real)
    | Settle(instruction: Instruction, newId: string, answer: Option<AdapterAnswer>)

  function Step(b: Books, op: Op): Books {
    match op
    case OpenAccount(key) => b.(accounts := WithAccount(b.accounts, key))
    case GiveCredit(did, asset, amount) => AfterCredit(b, did, asset, amount)
    case Settle(i, newId, answer) => AfterSettle(b, i, newId, answer)
  }

  function Run(b: Books, ops: seq<Op>): Books
    decreases |ops|
  {
    if ops == [] then b else Run(Step(b, ops[0]), ops[1..])
  }

  // ----- Accounting

  predicate Counts(r: Record) {
    r.rail == PointsRail && r.status == COMPLETED
  }

  /** What completed points records brought an account, net. */
  function Net(rows: seq<Record>, key: AccountKey): real {
    if rows == [] then 0.0 else
      var r := rows[|rows| - 1];
      Net(rows[..|rows| - 1], key)
      + (if Counts(r) && key == AccountKey(r.payeeDid, r.asset) then r.amount else 0.0)
      - (if Counts(r) && key == AccountKey(r.payerDid, r.asset) then r.amount else 0.0)
  }

  function Credited(credits: seq<Credit>, key: AccountKey): real {
    if credits == [] then 0.0 else
      var c := credits[|credits| - 1];
      Credited(credits[..|credits| - 1], key) + (if key == AccountKey(c.did, LUFFA_POINTS) then c.amount else 0.0)
  }

  function TotalCredits(credits: seq<Credit>): real {
    if credits == [] then 0.0 else TotalCredits(credits[..|credits| - 1]) + credits[|credits| - 1].amount
  }

  ghost function TotalOver(keys: set<AccountKey>, accounts: map<AccountKey, Account>): real {
    if keys == {} then 0.0 else
      var k :| k in keys;
      Balance(accounts, k) + TotalOver(keys - {k}, accounts)
  }

  ghost function TotalSupply(b: Books): real {
    TotalOver(b.accounts.Keys, b.accounts)
  }

  predicate UniqueIds(rows: seq<Record>) {
    forall i, j | 0 <= i < j < |rows| :: rows[i].settlementId != rows[j].settlementId
  }

  /** What every reachable state keeps. */
  ghost predicate Sound(b: Books) {
    && (forall key: AccountKey {:trigger Balance(b.accounts, key)} ::
        Balance(b.accounts, key) == Credited(b.credits, key) + Net(b.settlements, key))
    && (forall key: AccountKey {:trigger Balance(b.accounts, key)} :: Balance(b.accounts, key) >= 0.0)
    && (forall key: AccountKey {:trigger Balance(b.accounts, key)} ::
        key.asset != LUFFA_POINTS ==> Balance(b.accounts, key) == 0.0)
    && TotalSupply(b) == TotalCredits(b.credits)
    && UniqueIds(b.settlements)
  }

  lemma {:induction false} TotalRemove(keys: set<AccountKey>, accounts: map<AccountKey, Account>, k: AccountKey)
    requires k in keys
    ensures TotalOver(keys, accounts) == Balance(accounts, k) + TotalOver(keys - {k}, accounts)
    decreases keys
  {
    var j :| j in keys && TotalOver(keys, accounts) == Balance(accounts, j) + TotalOver(keys - {j}, accounts);
    if j == k {
    } else {
      TotalRemove(keys - {j}, accounts, k);
      TotalRemove(keys - {k}, accounts, j);
      assert keys - {j} - {k} == keys - {k} - {j};
    }
  }

  lemma {:induction false} TotalCongruent(keys: set<AccountKey>, a: map<AccountKey, Account>,
                                          b: map<AccountKey, Account>)
    requires forall k | k in keys :: Balance(a, k) == Balance(b, k)
    ensures TotalOver(keys, a) == TotalOver(keys, b)
    decreases keys
  {
    if keys == {} {
    } else {
      var k :| k in keys;
      TotalCongruent(keys - {k}, a, b);
      TotalRemove(keys, a, k);
      TotalRemove(keys, b, k);
    }
  }

  /** Opening an account adds nothing to the supply, adding to one adds just that. */
  lemma TotalAfterOpen(accounts: map<AccountKey, Account>, key: AccountKey)
    ensures var present := WithAccount(accounts, key);
            TotalOver(present.Keys, present) == TotalOver(accounts.Keys, accounts)
  {
    if key !in accounts {
      var present := WithAccount(accounts, key);
      TotalRemove(present.Keys, present, key);
      assert present.Keys - {key} == accounts.Keys;
      TotalCongruent(accounts.Keys, present, accounts);
    }
  }

  lemma TotalAfterAdd(accounts: map<AccountKey, Account>, key: AccountKey, amount: real)
    requires key in accounts
    ensures var added := AddTo(accounts, key, amount);
            TotalOver(added.Keys, added) == TotalOver(accounts.Keys, accounts) + amount
  {
    var added := AddTo(accounts, key, amount);
    assert added.Keys == accounts.Keys;
    TotalRemove(added.Keys, added, key);
    TotalRemove(accounts.Keys, accounts, key);
    TotalCongruent(accounts.Keys - {key}, added, accounts);
  }

  lemma NetAppend(rows: seq<Record>, r: Record, key: AccountKey)
    ensures Net(rows + [r], key) == Net(rows, key)
      + (if Counts(r) && key == AccountKey(r.payeeDid, r.asset) then r.amount else 0.0)
      - (if Counts(r) && key == AccountKey(r.payerDid, r.asset) then r.amount else 0.0)
  {
  }

  lemma CreditedAppend(credits: seq<Credit>, c: Credit, key: AccountKey)
    ensures Credited(credits + [c], key)
            == Credited(credits, key) + (if key == AccountKey(c.did, LUFFA_POINTS) then c.amount else 0.0)
    ensures TotalCredits(credits + [c]) == TotalCredits(credits) + c.amount
  {
  }

  lemma UniqueAppend(rows: seq<Record>, r: Record)
    requires UniqueIds(rows) && FindRecord(rows, r.settlementId).None?
    ensures UniqueIds(rows + [r])
  {
  }

  lemma OpenKeepsSound(b: Books, key: AccountKey)
    requires Sound(b)
    ensures Sound(b.(accounts := WithAccount(b.accounts, key)))
  {
    TotalAfterOpen(b.accounts, key);
    var present := WithAccount(b.accounts, key);
    forall k: AccountKey
      ensures Balance(present, k) == Balance(b.accounts, k)
    {
    }
  }

  lemma CreditKeepsSound(b: Books, did: string, asset: Asset, amount: real)
    requires Sound(b)
    ensures Sound(AfterCredit(b, did, asset, amount))
  {
    if CreditError(b, did, asset, amount).None? {
      var key := AccountKey(did, asset);
      var after := AfterCredit(b, did, asset, amount);
      var present := WithAccount(b.accounts, key);
      TotalAfterOpen(b.accounts, key);
      TotalAfterAdd(present, key, amount);
      forall k: AccountKey
        ensures Balance(after.accounts, k) == Balance(b.accounts, k) + (if k == key then amount else 0.0)
        ensures Credited(after.credits, k) == Credited(b.credits, k) + (if k == key then amount else 0.0)
      {
        CreditedAppend(b.credits, Credit(did, amount), k);
      }
      CreditedAppend(b.credits, Credit(did, amount), key);
    }
  }

  /** A completed transfer needs a points account: no other asset ever has a positive balance. */
  lemma CompletedIsPoints(b: Books, i: Instruction)
    requires Sound(b) && i.amount > 0.0 && TransferError(b.accounts, i).None?
    ensures i.asset == LUFFA_POINTS
  {
    assert Balance(b.accounts, AccountKey(i.payerDid, i.asset)) < i.amount || i.asset == LUFFA_POINTS;
  }

  lemma MovedBalances(accounts: map<AccountKey, Account>, i: Instruction, k: AccountKey)
    requires TransferError(accounts, i).None?
    ensures Balance(MovePoints(accounts, i), k) == Balance(accounts, k)
      + (if k == AccountKey(i.payeeDid, i.asset) then i.amount else 0.0)
      - (if k == AccountKey(i.payerDid, i.asset) then i.amount else 0.0)
  {
  }

  lemma MovedTotal(accounts: map<AccountKey, Account>, i: Instruction)
    requires TransferError(accounts, i).None?
    ensures var moved := MovePoints(accounts, i); TotalOver(moved.Keys, moved) == TotalOver(accounts.Keys, accounts)
  {
    var payer, payee := AccountKey(i.payerDid, i.asset), AccountKey(i.payeeDid, i.asset);
    var present := WithAccount(accounts, payee);
    TotalAfterOpen(accounts, payee);
    TotalAfterAdd(present, payer, -i.amount);
    TotalAfterAdd(AddTo(present, payer, -i.amount), payee, i.amount);
  }

  lemma TransferKeepsSound(b: Books, i: Instruction, newId: string)
    requires Sound(b) && i.rail == PointsRail
    ensures Sound(AfterTransfer(b, i, newId))
  {
    var after := AfterTransfer(b, i, newId);
    if after != b {
      var r := TransferRecord(b.accounts, i, IdOf(i, newId));
      UniqueAppend(b.settlements, r);
      var done := TransferError(b.accounts, i).None?;
      if done {
        CompletedIsPoints(b, i);
        MovedTotal(b.accounts, i);
      }
      forall k: AccountKey
        ensures Balance(after.accounts, k) == Credited(b.credits, k) + Net(after.settlements, k)
        ensures Balance(after.accounts, k) >= 0.0
        ensures k.asset != LUFFA_POINTS ==> Balance(after.accounts, k) == 0.0
      {
        NetAppend(b.settlements, r, k);
        assert Balance(b.accounts, k) >= 0.0;
        if done {
          MovedBalances(b.accounts, i, k);
        }
      }
    }
  }

  lemma SettleKeepsSound(b: Books, i: Instruction, newId: string, answer: Option<AdapterAnswer>)
    requires Sound(b)
    ensures Sound(AfterSettle(b, i, newId, answer))
  {
    if i.rail == PointsRail {
      TransferKeepsSound(b, i, newId);
    } else {
      var after := AfterSettle(b, i, newId, answer);
      if after != b {
        var r := AdapterRecord(i, IdOf(i, newId), answer);
        UniqueAppend(b.settlements, r);
        forall k: AccountKey
          ensures Net(after.settlements, k) == Net(b.settlements, k)
        {
          NetAppend(b.settlements, r, k);
        }
      }
    }
  }

  lemma StepKeepsSound(b: Books, op: Op)
    requires Sound(b)
    ensures Sound(Step(b, op))
  {
    match op
    case OpenAccount(key) => OpenKeepsSound(b, key);
    case GiveCredit(did, asset, amount) => CreditKeepsSound(b, did, asset, amount);
    case Settle(i, newId, answer) => SettleKeepsSound(b, i, newId, answer);
  }

  lemma {:induction false} RunKeepsSound(b: Books, ops: seq<Op>)
    requires Sound(b)
    ensures Sound(Run(b, ops))
    decreases |ops|
  {
    if ops == [] {
    } else {
      StepKeepsSound(b, ops[0]);
      RunKeepsSound(Step(b, ops[0]), ops[1..]);
    }
  }

  /** Every reachable ledger balances. */
  lemma ReachableIsSound(ops: seq<Op>)
    ensures Sound(Run(EMPTY_BOOKS, ops))
  {
    RunKeepsSound(EMPTY_BOOKS, ops);
  }

  // ----- Rollback and replay

  /** The record is of this instruction, under this id. */
  predicate RecordOf(r: Record, i: Instruction, id: string) {
    && r.settlementId == id && r.executionId == i.executionId && r.payerDid == i.payerDid
    && r.payeeDid == i.payeeDid && r.asset == i.asset && r.amount == i.amount && r.rail == i.rail
  }

  /** Both accounts of the transfer that are there are not frozen. */
  predicate NoneFrozen(accounts: map<AccountKey, Account>, i: Instruction) {
    forall k | k in accounts && k.asset == i.asset && (k.did == i.payerDid || k.did == i.payeeDid) ::
      !accounts[k].frozen
  }

  /**
    * A points transfer completes exactly when its checks pass: it then moves the amount from payer to
    * payee. Otherwise it changes no account at all, and its record says which check failed first.
    */
  lemma TransferAllOrNothing(b: Books, i: Instruction, newId: string)
    requires i.amount > 0.0 && FindRecord(b.settlements, IdOf(i, newId)).None?
    ensures var payer, payee := AccountKey(i.payerDid, i.asset), AccountKey(i.payeeDid, i.asset);
            var r := TransferResult(b, i, newId);
            var after := AfterTransfer(b, i, newId);
            var found := payer in b.accounts || i.payerDid == i.payeeDid;
            && r.Returned? && after.settlements == b.settlements + [r.value] && after.credits == b.credits
            && RecordOf(r.value, i, IdOf(i, newId))
            && (r.value.status == COMPLETED || r.value.status == ROLLED_BACK)
            && (r.value.status == COMPLETED <==>
                  found && NoneFrozen(b.accounts, i) && Balance(b.accounts, payer) >= i.amount)
            && (r.value.status == COMPLETED ==>
                  && r.value.transactionRef == PointsRef(r.value.settlementId)
                  && forall k: AccountKey ::
                       Balance(after.accounts, k) == Balance(b.accounts, k)
                         + (if k == payee then i.amount else 0.0) - (if k == payer then i.amount else 0.0))
            && (r.value.status == ROLLED_BACK ==>
                  && after.accounts == b.accounts
                  && r.value.transactionRef == ErrorRef(if !found then AccountNotFound
                                                        else if !NoneFrozen(b.accounts, i) then AccountFrozen
                                                        else InsufficientBalance))
  {
    if TransferError(b.accounts, i).None? {
      forall k: AccountKey
        ensures Balance(MovePoints(b.accounts, i), k) == Balance(b.accounts, k)
                  + (if k == AccountKey(i.payeeDid, i.asset) then i.amount else 0.0)
                  - (if k == AccountKey(i.payerDid, i.asset) then i.amount else 0.0)
      {
        MovedBalances(b.accounts, i, k);
      }
    }
  }

  /**
    * On a chain rail no account changes: one record of the instruction is added, with the adapter's
    * status and transaction, or rolled back when the adapter gives no answer.
    */
  lemma ChainSettlement(b: Books, i: Instruction, newId: string, answer: Option<AdapterAnswer>)
    requires i.rail != PointsRail && i.amount > 0.0 && FindRecord(b.settlements, IdOf(i, newId)).None?
    ensures var r := SettleResult(b, i, newId, answer);
            && r.Returned? && RecordOf(r.value, i, IdOf(i, newId))
            && AfterSettle(b, i, newId, answer) == b.(settlements := b.settlements + [r.value])
            && (answer.None? ==> r.value.status == ROLLED_BACK && r.value.transactionRef == ErrorRef(AdapterFailed))
            && (answer.Some? ==>
                  r.value.status == answer.value.status && r.value.transactionRef == ChainRef(answer.value.txHash))
  {
    assert RecordOf(AdapterRecord(i, IdOf(i, newId), answer), i, IdOf(i, newId));
  }

  /** A credit is accepted exactly for a positive amount of points to no frozen account, and adds just that. */
  lemma CreditIff(b: Books, did: string, asset: Asset, amount: real)
    ensures var key, after := AccountKey(did, asset), AfterCredit(b, did, asset, amount);
            && (after != b <==>
                  asset == LUFFA_POINTS && amount > 0.0 && !(key in b.accounts && b.accounts[key].frozen))
            && after.settlements == b.settlements
            && (after != b ==>
                  && after.credits == b.credits + [Credit(did, amount)]
                  && forall k: AccountKey ::
                       Balance(after.accounts, k) == Balance(b.accounts, k) + if k == key then amount else 0.0)
  {
  }

  lemma {:induction false} RunAppends(b: Books, ops: seq<Op>)
    ensures b.settlements <= Run(b, ops).settlements
    decreases |ops|
  {
    if ops == [] {
    } else {
      RunAppends(Step(b, ops[0]), ops[1..]);
    }
  }

  lemma {:induction false} FindInExtension(rows: seq<Record>, more: seq<Record>, id: string)
    requires rows <= more && FindRecord(rows, id).Some?
    ensures FindRecord(more, id) == FindRecord(rows, id)
  {
    if rows[0].settlementId == id {
    } else {
      FindInExtension(rows[1..], more[1..], id);
    }
  }

  lemma FoundAfterSettle(b: Books, i: Instruction, newId: string, answer: Option<AdapterAnswer>)
    requires SettleResult(b, i, newId, answer).Returned?
    ensures var after := AfterSettle(b, i, newId, answer);
            FindRecord(after.settlements, IdOf(i, newId)) == Some(SettleResult(b, i, newId, answer).value)
  {
  }

  /** A positive amount is never refused by a throw, and what settling returns is what its id finds afterwards. */
  lemma SettledIsStored(b: Books, i: Instruction, newId: string, answer: Option<AdapterAnswer>)
    requires i.amount > 0.0
    ensures var o := SettleResult(b, i, newId, answer);
            && o.Returned? && o.value.settlementId == IdOf(i, newId)
            && FindRecord(AfterSettle(b, i, newId, answer).settlements, IdOf(i, newId)) == Some(o.value)
  {
    FoundAfterSettle(b, i, newId, answer);
  }

  /**
    * Replay: once a settlement id has been settled, any later call with that id, after any other
    * calls and whatever it asks for, returns the first record and changes nothing.
    */
  lemma SettleOnce(b: Books, i: Instruction, newId: string, answer: Option<AdapterAnswer>, between: seq<Op>,
                   again: Instruction, newId': string, answer': Option<AdapterAnswer>)
    requires SettleResult(b, i, newId, answer).Returned?
    requires again.settlementId == Some(IdOf(i, newId)) && again.amount > 0.0
    ensures var later := Run(AfterSettle(b, i, newId, answer), between);
            && SettleResult(later, again, newId', answer') == SettleResult(b, i, newId, answer)
            && AfterSettle(later, again, newId', answer') == later
  {
    var after := AfterSettle(b, i, newId, answer);
    FoundAfterSettle(b, i, newId, answer);
    RunAppends(after, between);
    FindInExtension(after.settlements, Run(after, between).settlements, IdOf(i, newId));
  }
}
