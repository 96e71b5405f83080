/**
 * The data model of the account ledger: the account record, the three
 * error kinds the service reports, and the contents of the account table.
 *
 * Money is an exact integer number of minor units; a currency is its code.
 */
module AccountModel {

  /** One row of the accounts table. */
  datatype Account = Account(
    id: nat,           // assigned by the store when the account is first saved
    name: string,      // unique across the table
    currency: string,  // a currency code such as "EUR"
    balance: int,      // may be negative only on a treasury account
    treasury: bool)    // a treasury account may go below zero

  /** One variant per exception class of the service. */
  datatype Error = AccountNotFound | AccountAlreadyExists | NegativeBalance

  /** A lookup that may find nothing. */
  datatype Option<T> = None | Some(value: T)

  /** The value an operation returns, or the exception it throws. */
  datatype Result<T> = Success(value: T) | Failure(error: Error)

  /** The outcome of an operation that returns nothing. */
  datatype Outcome = Pass | Fail(error: Error)

  type Table = map<string, Account>

  /** The whole persistent state: the table and the next id the store hands out. */
  datatype Store = Store(accounts: Table, nextId: nat)

  /** The store with no accounts in it: well formed, solvent, holding no money. */
  function EmptyStore(): (s: Store)
    ensures WellFormed(s) && Solvent(s.accounts) && Total(s.accounts) == 0
  {
    Store(map[], 1)
  }

  /**
   * Every row is filed under its own name, every id was handed out
   * before, and no two rows share an id.
   */
  ghost predicate WellFormed(s: Store)
  {
    && (forall n :: n in s.accounts ==> s.accounts[n].name == n && s.accounts[n].id < s.nextId)
    && (forall n, m :: n in s.accounts && m in s.accounts && n != m ==>
          s.accounts[n].id != s.accounts[m].id)
  }

  /** The ledger's invariant: no non-treasury account is below zero. */
  ghost predicate Solvent(t: Table)
  {
    forall n :: n in t && !t[n].treasury ==> t[n].balance >= 0
  }

  /** The sum of all balances in the table. */
  ghost function Total(t: Table): (r: int)
    decreases |t|
  {
    if t == map[] then 0
    else
      var n :| n in t;
      t[n].balance + Total(t - {n})
  }

  /** Taking out any one row leaves the sum short by exactly that row's balance. */
  lemma {:induction false} TotalRemove(t: Table, k: string)
    requires k in t
    ensures Total(t) == t[k].balance + Total(t - {k})
    decreases |t|
  {
    var n :| n in t && Total(t) == t[n].balance + Total(t - {n});
    if n != k {
      TotalRemove(t - {n}, k);
      TotalRemove(t - {k}, n);
      assert t - {n} - {k} == t - {k} - {n};
    }
  }

  /** Replacing one row changes the sum by the difference of the two balances. */
  lemma TotalUpdate(t: Table, k: string, a: Account)
    ensures k in t ==> Total(t[k := a]) == Total(t) - t[k].balance + a.balance
    ensures k !in t ==> Total(t[k := a]) == Total(t) + a.balance
  {
    TotalRemove(t[k := a], k);
    if k in t {
      TotalRemove(t, k);
      assert t[k := a] - {k} == t - {k};
    } else {
      assert t[k := a] - {k} == t;
    }
  }

}
