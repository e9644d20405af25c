/** The settlement service over its tables. */
module Settlement {
  import opened Wrappers
  import opened Ledger

  class SettlementService {
    var accounts: map<AccountKey, Account>
    var settlements: seq<Record>
    ghost var credits: seq<Credit>

    ghost function View(): Books
      reads this
    {
      Books(accounts, settlements, credits)
    }

    constructor ()
      ensures View() == EMPTY_BOOKS
    {
      accounts, settlements, credits := map[], [], [];
    }

    /** `createAccount`. */
    method CreateAccount(did: string, asset: Asset)
      modifies this
      ensures View() == old(View()).(accounts := WithAccount(old(accounts), AccountKey(did, asset)))
    {
      if AccountKey(did, asset) !in accounts {
        accounts := accounts[AccountKey(did, asset) := Account(0.0, false)];
      }
    }

    /** `credit`: the transaction is rolled back when the account turns out to be frozen. */
    method CreditAccount(did: string, asset: Asset, amount: real) returns (error: Option<LedgerError>)
      modifies this
      ensures error == CreditError(old(View()), did, asset, amount)
      ensures View() == AfterCredit(old(View()), did, asset, amount)
      ensures error.Some? ==> View() == old(View())
    {
      if asset != LUFFA_POINTS {
        return Some(NotCreditable);
      }
      if amount <= 0.0 {
        return Some(NotPositive);
      }
      var begin := accounts;
      CreateAccount(did, asset);
      var account := accounts[AccountKey(did, asset)];
      if account.frozen {
        accounts := begin;
        return Some(AccountFrozen);
      }
      accounts := accounts[AccountKey(did, asset) := account.(balance := account.balance + amount)];
      credits := credits + [Credit(did, amount)];
      error := None;
    }

    /** The closure run inside the transaction of a points transfer: it may throw half way. */
    method TransferBody(i: Instruction, settlementId: string) returns (r: Outcome<Record>, error: LedgerError)
      modifies this
      ensures credits == old(credits)
      ensures match TransferError(old(accounts), i)
              case Some(e) => r == Threw && error == e
              case None =>
                && r == Returned(MakeRecord(i, settlementId, COMPLETED, PointsRef(settlementId)))
                && accounts == MovePoints(old(accounts), i) && settlements == old(settlements) + [r.value]
      ensures r.Threw? ==> settlements == old(settlements)
    {
      error := InsufficientBalance;
      CreateAccount(i.payeeDid, i.asset);
      var payerKey, payeeKey := AccountKey(i.payerDid, i.asset), AccountKey(i.payeeDid, i.asset);
      if payerKey !in accounts {
        return Threw, AccountNotFound;
      }
      var payer, payee := accounts[payerKey], accounts[payeeKey];
      if payer.frozen || payee.frozen {
        return Threw, AccountFrozen;
      }
      if payer.balance < i.amount {
        return Threw, InsufficientBalance;
      }
      accounts := accounts[payerKey := accounts[payerKey].(balance := accounts[payerKey].balance - i.amount)];
      accounts := accounts[payeeKey := accounts[payeeKey].(balance := accounts[payeeKey].balance + i.amount)];
      var completed := MakeRecord(i, settlementId, COMPLETED, PointsRef(settlementId));
      settlements := settlements + [completed];
      r := Returned(completed);
    }

    /** `transferLuffaPoints`: all or nothing, and once per settlement id. */
    method TransferLuffaPoints(i: Instruction, newId: string) returns (r: Outcome<Record>)
      modifies this
      ensures r == TransferResult(old(View()), i, newId)
      ensures View() == AfterTransfer(old(View()), i, newId)
    {
      if i.amount <= 0.0 {
        return Threw;
      }
      var settlementId := IdOf(i, newId);
      var existing := FindRecord(settlements, settlementId);
      if existing.Some? {
        return Returned(existing.value);
      }
      var begin := accounts;
      var record, error := TransferBody(i, settlementId);
      if record.Threw? {
        accounts := begin;
        var rolledBack := MakeRecord(i, settlementId, ROLLED_BACK, ErrorRef(error));
        settlements := settlements + [rolledBack];
        return Returned(rolledBack);
      }
      r := record;
    }

    /** `settle`, with the adapter's answer as an input. */
    method Settle(i: Instruction, newId: string, answer: Option<AdapterAnswer>) returns (r: Outcome<Record>)
      modifies this
      ensures r == SettleResult(old(View()), i, newId, answer)
      ensures View() == AfterSettle(old(View()), i, newId, answer)
      ensures old(Sound(View())) ==> Sound(View())
    {
      if Sound(View()) {
        SettleKeepsSound(View(), i, newId, answer);
      }
      if i.rail == PointsRail {
        r := TransferLuffaPoints(i, newId);
        return;
      }
      if i.amount <= 0.0 {
        return Threw;
      }
      var settlementId := IdOf(i, newId);
      var existing := FindRecord(settlements, settlementId);
      if existing.Some? {
        return Returned(existing.value);
      }
      var record := AdapterRecord(i, settlementId, answer);
      settlements := settlements + [record];
      r := Returned(record);
    }
  }
}
