/**
 * The five ledger operations of the account service as transitions of the
 * store, and what they promise: the error conditions, the new balances,
 * that nothing else changes, the store invariants they keep and the sum of
 * balances they move.
 *
 * A failing operation yields only an error, no new store: the service
 * checks everything before it changes anything.
 */
module LedgerSpec {
  import opened AccountModel

  /** The repository's lookup by name: absence is a value, not an error. */
  function FindByName(s: Store, name: string): (r: Option<Account>)
    ensures r.Some? <==> name in s.accounts
    ensures r.Some? ==> r.value == s.accounts[name]
  {
    if name in s.accounts then Some(s.accounts[name]) else None
  }

  /** Open an account with a zero balance under a name nobody uses yet. */
  function Create(s: Store, name: string, currency: string, treasury: bool): (r: Result<Store>)
    ensures r.Failure? <==> name in s.accounts
    ensures r.Failure? ==> r.error == AccountAlreadyExists
    ensures r.Success? ==>
      && r.value.accounts.Keys == s.accounts.Keys + {name}
      && (var a := r.value.accounts[name];
          a.name == name && a.currency == currency && a.balance == 0 && a.treasury == treasury
          && a.id == s.nextId)
      && (forall n :: n in s.accounts ==> r.value.accounts[n] == s.accounts[n])
      && r.value.nextId > s.nextId
  {
    if name in s.accounts then
      Failure(AccountAlreadyExists)
    else
      var account := Account(s.nextId, name, currency, 0, treasury);
      Success(Store(s.accounts[name := account], s.nextId + 1))
  }

  /** The account stored under the name. */
  function Find(s: Store, name: string): (r: Result<Account>)
    ensures r.Success? <==> name in s.accounts
    ensures r.Success? ==> r.value == s.accounts[name]
    ensures r.Failure? ==> r.error == AccountNotFound
  {
    match FindByName(s, name)
    case None => Failure(AccountNotFound)
    case Some(account) => Success(account)
  }

  /** Put the amount into the account, with no check on its sign. */
  function Deposit(s: Store, name: string, amount: int): (r: Result<Store>)
    ensures r.Failure? <==> name !in s.accounts
    ensures r.Failure? ==> r.error == AccountNotFound
    ensures r.Success? ==>
      && r.value.accounts.Keys == s.accounts.Keys
      && r.value.nextId == s.nextId
      && r.value.accounts[name] == s.accounts[name].(balance := s.accounts[name].balance + amount)
      && (forall n :: n in s.accounts && n != name ==> r.value.accounts[n] == s.accounts[n])
  {
    match FindByName(s, name)
    case None => Failure(AccountNotFound)
    case Some(account) =>
      var changed := account.(balance := account.balance + amount);
      Success(s.(accounts := s.accounts[name := changed]))
  }

  /** The guard of withdraw and transfer: a non-treasury account may not end below zero. */
  predicate WouldGoNegative(a: Account, amount: int)
  {
    !a.treasury && a.balance - amount < 0
  }

  /** Take the amount out of the account, unless that overdraws a non-treasury account. */
  function Withdraw(s: Store, name: string, amount: int): (r: Result<Store>)
    ensures r == Failure(AccountNotFound) <==> name !in s.accounts
    ensures r == Failure(NegativeBalance) <==>
      name in s.accounts && !s.accounts[name].treasury && s.accounts[name].balance < amount
    ensures r.Failure? ==> r.error in {AccountNotFound, NegativeBalance}
    ensures r.Success? ==>
      && r.value.accounts.Keys == s.accounts.Keys
      && r.value.nextId == s.nextId
      && r.value.accounts[name] == s.accounts[name].(balance := s.accounts[name].balance - amount)
      && (forall n :: n in s.accounts && n != name ==> r.value.accounts[n] == s.accounts[n])
  {
    match FindByName(s, name)
    case None => Failure(AccountNotFound)
    case Some(account) =>
      if WouldGoNegative(account, amount) then
        Failure(NegativeBalance)
      else
        var changed := account.(balance := account.balance - amount);
        Success(s.(accounts := s.accounts[name := changed]))
  }

  /**
   * Move the amount from one account to another. The model takes the two
   * rows it reads to be separate copies, written back sender first, so on
   * a transfer of an account to itself the receiver's copy is the one that
   * stays. (Were both look-ups to yield one shared object, a self-transfer
   * would leave the balance as it was; that reading is not modelled.)
   */
  function Transfer(s: Store, from: string, to: string, amount: int): (r: Result<Store>)
    ensures r == Failure(AccountNotFound) <==> from !in s.accounts || to !in s.accounts
    ensures r == Failure(NegativeBalance) <==>
      && from in s.accounts && to in s.accounts
      && !s.accounts[from].treasury && s.accounts[from].balance < amount
    ensures r.Failure? ==> r.error in {AccountNotFound, NegativeBalance}
    ensures r.Success? ==>
      && r.value.accounts.Keys == s.accounts.Keys
      && r.value.nextId == s.nextId
      && r.value.accounts[to] == s.accounts[to].(balance := s.accounts[to].balance + amount)
      && (from != to ==>
            r.value.accounts[from] == s.accounts[from].(balance := s.accounts[from].balance - amount))
      && (forall n :: n in s.accounts && n != from && n != to ==> r.value.accounts[n] == s.accounts[n])
  {
    var fromFound := FindByName(s, from);
    var toFound := FindByName(s, to);
    if fromFound.None? || toFound.None? then
      Failure(AccountNotFound)
    else if WouldGoNegative(fromFound.value, amount) then
      Failure(NegativeBalance)
    else
      var fromChanged := fromFound.value.(balance := fromFound.value.balance - amount);
      var toChanged := toFound.value.(balance := toFound.value.balance + amount);
      Success(s.(accounts := s.accounts[from := fromChanged][to := toChanged]))
  }

  // ---------------------------------------------------------------------
  // The store invariant

  lemma CreateKeepsWellFormed(s: Store, name: string, currency: string, treasury: bool)
    requires WellFormed(s)
    ensures Create(s, name, currency, treasury).Success? ==> WellFormed(Create(s, name, currency, treasury).value)
  {
  }

  lemma DepositKeepsWellFormed(s: Store, name: string, amount: int)
    requires WellFormed(s)
    ensures Deposit(s, name, amount).Success? ==> WellFormed(Deposit(s, name, amount).value)
  {
  }

  lemma WithdrawKeepsWellFormed(s: Store, name: string, amount: int)
    requires WellFormed(s)
    ensures Withdraw(s, name, amount).Success? ==> WellFormed(Withdraw(s, name, amount).value)
  {
  }

  lemma TransferKeepsWellFormed(s: Store, from: string, to: string, amount: int)
    requires WellFormed(s)
    ensures Transfer(s, from, to, amount).Success? ==> WellFormed(Transfer(s, from, to, amount).value)
  {
  }

  // ---------------------------------------------------------------------
  // Non-treasury balances stay at or above zero

  lemma CreateKeepsSolvent(s: Store, name: string, currency: string, treasury: bool)
    requires Solvent(s.accounts)
    ensures Create(s, name, currency, treasury).Success? ==> Solvent(Create(s, name, currency, treasury).value.accounts)
  {
  }

  /** The guard makes withdraw safe whatever the sign of the amount. */
  lemma WithdrawKeepsSolvent(s: Store, name: string, amount: int)
    requires Solvent(s.accounts)
    ensures Withdraw(s, name, amount).Success? ==> Solvent(Withdraw(s, name, amount).value.accounts)
  {
  }

  /** The sender is guarded; the receiver is safe only if the amount is not negative. */
  lemma TransferKeepsSolvent(s: Store, from: string, to: string, amount: int)
    requires Solvent(s.accounts)
    requires amount >= 0
    ensures Transfer(s, from, to, amount).Success? ==> Solvent(Transfer(s, from, to, amount).value.accounts)
  {
  }

  /** Deposit has no guard, so it keeps the invariant only for a non-negative amount. */
  lemma DepositKeepsSolvent(s: Store, name: string, amount: int)
    requires Solvent(s.accounts)
    requires amount >= 0
    ensures Deposit(s, name, amount).Success? ==> Solvent(Deposit(s, name, amount).value.accounts)
  {
  }

  /** A negative deposit that exceeds the balance overdraws a non-treasury account. */
  lemma NegativeDepositOverdraws(s: Store, name: string, amount: int)
    requires name in s.accounts && !s.accounts[name].treasury
    requires s.accounts[name].balance + amount < 0
    ensures Deposit(s, name, amount).Success?
    ensures !Solvent(Deposit(s, name, amount).value.accounts)
  {
  }

  // ---------------------------------------------------------------------
  // Where the money goes

  lemma DepositAddsToTotal(s: Store, name: string, amount: int)
    ensures Deposit(s, name, amount).Success? ==>
      Total(Deposit(s, name, amount).value.accounts) == Total(s.accounts) + amount
  {
    if name in s.accounts {
      var a := s.accounts[name];
      TotalUpdate(s.accounts, name, a.(balance := a.balance + amount));
    }
  }

  lemma WithdrawTakesFromTotal(s: Store, name: string, amount: int)
    ensures Withdraw(s, name, amount).Success? ==>
      Total(Withdraw(s, name, amount).value.accounts) == Total(s.accounts) - amount
  {
    if name in s.accounts {
      var a := s.accounts[name];
      TotalUpdate(s.accounts, name, a.(balance := a.balance - amount));
    }
  }

  /** A transfer between two distinct accounts moves money without creating or destroying any. */
  lemma TransferConservesTotal(s: Store, from: string, to: string, amount: int)
    requires from != to
    ensures Transfer(s, from, to, amount).Success? ==>
      Total(Transfer(s, from, to, amount).value.accounts) == Total(s.accounts)
  {
    if from in s.accounts && to in s.accounts {
      var f := s.accounts[from];
      var t := s.accounts[to];
      var f' := f.(balance := f.balance - amount);
      TotalUpdate(s.accounts, from, f');
      TotalUpdate(s.accounts[from := f'], to, t.(balance := t.balance + amount));
    }
  }

  /**
   * On the separate-copies reading, a transfer of an account to itself
   * keeps only the receiver's copy: the balance grows by the amount, and
   * so does the sum of all balances.
   */
  lemma SelfTransferCredits(s: Store, name: string, amount: int)
    requires name in s.accounts
    requires !WouldGoNegative(s.accounts[name], amount)
    ensures Transfer(s, name, name, amount) == Deposit(s, name, amount)
    ensures Total(Transfer(s, name, name, amount).value.accounts) == Total(s.accounts) + amount
  {
    var a := s.accounts[name];
    var debited := a.(balance := a.balance - amount);
    var credited := a.(balance := a.balance + amount);
    assert s.accounts[name := debited][name := credited] == s.accounts[name := credited];
    DepositAddsToTotal(s, name, amount);
  }

  // ---------------------------------------------------------------------
  // How the operations relate

  /** Once both accounts exist, a transfer is a withdraw from the sender followed by a deposit to the receiver. */
  lemma TransferIsWithdrawThenDeposit(s: Store, from: string, to: string, amount: int)
    requires from in s.accounts && to in s.accounts && from != to
    ensures Transfer(s, from, to, amount).Success? == Withdraw(s, from, amount).Success?
    ensures Withdraw(s, from, amount).Success? ==>
      Transfer(s, from, to, amount) == Deposit(Withdraw(s, from, amount).value, to, amount)
    ensures Withdraw(s, from, amount).Failure? ==>
      Transfer(s, from, to, amount) == Withdraw(s, from, amount)
  {
  }

  /** Depositing an amount and withdrawing it again restores the store. */
  lemma DepositWithdrawRoundTrip(s: Store, name: string, amount: int)
    requires name in s.accounts
    requires s.accounts[name].treasury || s.accounts[name].balance >= 0
    ensures Deposit(s, name, amount).Success?
    ensures Withdraw(Deposit(s, name, amount).value, name, amount) == Success(s)
  {
    var a := s.accounts[name];
    var credited := a.(balance := a.balance + amount);
    assert credited.(balance := credited.balance - amount) == a;
    assert s.accounts[name := credited][name := a] == s.accounts;
    assert s.(accounts := s.accounts) == s;
  }

  /** Creating an account and finding it gives back what was created. */
  lemma CreateThenFind(s: Store, name: string, currency: string, treasury: bool)
    requires name !in s.accounts
    ensures var r := Find(Create(s, name, currency, treasury).value, name);
      && r.Success?
      && r.value == Account(s.nextId, name, currency, 0, treasury)
  {
  }

  /**
   * A second create under the same name fails. Being a failure it carries
   * no new store, so the account from the first create stays as it was;
   * Ledger.Create states that for the table itself.
   */
  lemma CreateTwiceFails(s: Store, name: string, c1: string, t1: bool, c2: string, t2: bool)
    requires name !in s.accounts
    ensures Create(Create(s, name, c1, t1).value, name, c2, t2) == Failure(AccountAlreadyExists)
  {
  }
}
