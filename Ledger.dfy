/**
 * The account service over its repository. The repository table is the
 * field `accounts`, and `nextId` is the id the store hands out next. Each
 * method does what the service does: fetch the account rows by name,
 * check for errors, change a copy of the row and save it back. Each is
 * proved to make exactly the transition LedgerSpec describes, and to keep
 * the store well formed.
 */
module LedgerService {
  import opened AccountModel
  import LedgerSpec

  /** What a void operation reports for a given transition. */
  function OutcomeOf(r: Result<Store>): (o: Outcome)
  {
    match r
    case Success(_) => Pass
    case Failure(e) => Fail(e)
  }

  /** The store after a transition: unchanged when the operation failed. */
  function StoreAfter(s: Store, r: Result<Store>): (s': Store)
  {
    match r
    case Success(s') => s'
    case Failure(_) => s
  }

  class Ledger {
    var accounts: Table
    var nextId: nat

    function State(): (s: Store)
      reads this
    {
      Store(accounts, nextId)
    }

    ghost predicate Valid()
      reads this
    {
      WellFormed(State())
    }

    constructor ()
      ensures Valid() && State() == EmptyStore()
    {
      accounts := map[];
      nextId := 1;
    }

    /** The repository's lookup by name. */
    function FindByName(name: string): (r: Option<Account>)
      reads this
      ensures r.Some? <==> name in accounts
      ensures r.Some? ==> r.value == accounts[name]
    {
      LedgerSpec.FindByName(State(), name)
    }

    /** The repository's upsert: the row is filed under its name, replacing any row there. */
    method Save(account: Account)
      modifies this
      ensures accounts == old(accounts)[account.name := account]
      ensures nextId == old(nextId)
    {
      accounts := accounts[account.name := account];
    }

    method Create(name: string, currency: string, treasury: bool) returns (outcome: Outcome)
      requires Valid()
      modifies this
      ensures Valid()
      ensures var r := LedgerSpec.Create(old(State()), name, currency, treasury);
        outcome == OutcomeOf(r) && State() == StoreAfter(old(State()), r)
    {
      LedgerSpec.CreateKeepsWellFormed(State(), name, currency, treasury);
      if FindByName(name).Some? {
        return Fail(AccountAlreadyExists);
      }
      var account := Account(nextId, name, currency, 0, treasury);
      nextId := nextId + 1;
      Save(account);
      outcome := Pass;
    }

    method Find(name: string) returns (r: Result<Account>)
      ensures r == LedgerSpec.Find(State(), name)
    {
      var found := FindByName(name);
      if found.None? {
        return Failure(AccountNotFound);
      }
      r := Success(found.value);
    }

    method Deposit(name: string, amount: int) returns (outcome: Outcome)
      requires Valid()
      modifies this
      ensures Valid()
      ensures var r := LedgerSpec.Deposit(old(State()), name, amount);
        outcome == OutcomeOf(r) && State() == StoreAfter(old(State()), r)
    {
      LedgerSpec.DepositKeepsWellFormed(State(), name, amount);
      var found := FindByName(name);
      if found.None? {
        return Fail(AccountNotFound);
      }
      var account := found.value;
      account := account.(balance := account.balance + amount);
      Save(account);
      outcome := Pass;
    }

    method Withdraw(name: string, amount: int) returns (outcome: Outcome)
      requires Valid()
      modifies this
      ensures Valid()
      ensures var r := LedgerSpec.Withdraw(old(State()), name, amount);
        outcome == OutcomeOf(r) && State() == StoreAfter(old(State()), r)
    {
      LedgerSpec.WithdrawKeepsWellFormed(State(), name, amount);
      var found := FindByName(name);
      if found.None? {
        return Fail(AccountNotFound);
      }
      var account := found.value;
      if !account.treasury {
        if account.balance - amount < 0 {
          return Fail(NegativeBalance);
        }
      }
      account := account.(balance := account.balance - amount);
      Save(account);
      outcome := Pass;
    }

    method Transfer(from: string, to: string, amount: int) returns (outcome: Outcome)
      requires Valid()
      modifies this
      ensures Valid()
      ensures var r := LedgerSpec.Transfer(old(State()), from, to, amount);
        outcome == OutcomeOf(r) && State() == StoreAfter(old(State()), r)
    {
      var fromFound := FindByName(from);
      var toFound := FindByName(to);
      if fromFound.None? || toFound.None? {
        return Fail(AccountNotFound);
      }
      var fromEntity, toEntity := fromFound.value, toFound.value;
      assert fromEntity.name == from && toEntity.name == to;
      if !fromEntity.treasury {
        if fromEntity.balance - amount < 0 {
          return Fail(NegativeBalance);
        }
      }
      fromEntity := fromEntity.(balance := fromEntity.balance - amount);
      toEntity := toEntity.(balance := toEntity.balance + amount);
      Save(fromEntity);
      Save(toEntity);
      outcome := Pass;
      assert State() == LedgerSpec.Transfer(old(State()), from, to, amount).value;
      LedgerSpec.TransferKeepsWellFormed(old(State()), from, to, amount);
    }
  }
}
