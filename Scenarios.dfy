/**
 * Client methods of the account service over a fresh ledger: the
 * service's unit tests and a few illustrative scenarios, proved from the
 * methods' contracts alone.
 */
module LedgerScenarios {
  import opened AccountModel
  import opened LedgerService

  /** Open A and B, put 100 into A, transfer 20 from A to B. */
  method TransferBetweenAccounts() returns (a: int, b: int)
    ensures a == 80 && b == 20
  {
    var ledger := new Ledger();
    var o := ledger.Create("A", "EUR", false);
    o := ledger.Deposit("A", 100);
    o := ledger.Create("B", "EUR", false);
    o := ledger.Transfer("A", "B", 20);
    assert o == Pass;
    var foundA := ledger.Find("A");
    var foundB := ledger.Find("B");
    a, b := foundA.value.balance, foundB.value.balance;
  }

  /** A treasury account may be overdrawn. */
  method TreasuryOverdraw() returns (outcome: Outcome, balance: int)
    ensures outcome == Pass && balance == -20
  {
    var ledger := new Ledger();
    var o := ledger.Create("T", "EUR", true);
    outcome := ledger.Withdraw("T", 20);
    var found := ledger.Find("T");
    balance := found.value.balance;
  }

  /** The two rows every unit test of the service starts from. */
  function TestAccounts(): (s: Store)
    ensures WellFormed(s) && Solvent(s.accounts)
  {
    Store(map["Test 1" := Account(1, "Test 1", "EUR", 0, false),
              "Test 2" := Account(2, "Test 2", "EUR", 100, true)], 3)
  }

  /** Set up "Test 1", a non-treasury account at 0, and "Test 2", a treasury account at 100. */
  method SetUpTestAccounts() returns (ledger: Ledger)
    ensures fresh(ledger) && ledger.Valid() && ledger.State() == TestAccounts()
  {
    ledger := new Ledger();
    var o := ledger.Create("Test 1", "EUR", false);
    o := ledger.Create("Test 2", "EUR", true);
    o := ledger.Deposit("Test 2", 100);
    assert ledger.accounts == TestAccounts().accounts;
  }

  method FindAccountByName() returns (found: Result<Account>)
    ensures found.Success? && found.value.name == "Test 2"
  {
    var ledger := SetUpTestAccounts();
    found := ledger.Find("Test 2");
  }

  method FindAccountByNameNotFound() returns (missing: Result<Account>)
    ensures missing == Failure(AccountNotFound)
  {
    var ledger := SetUpTestAccounts();
    missing := ledger.Find("Non existing account");
  }

  method CreateNewAccount() returns (created: Result<Account>)
    ensures created.Success? && created.value.name == "Test 3" && created.value.balance == 0
  {
    var ledger := SetUpTestAccounts();
    var o := ledger.Create("Test 3", "EUR", false);
    created := ledger.Find("Test 3");
  }

  method CreateNewAccountAlreadyExists() returns (again: Outcome, kept: Result<Account>)
    ensures again == Fail(AccountAlreadyExists)
    ensures kept == Success(TestAccounts().accounts["Test 1"])
  {
    var ledger := SetUpTestAccounts();
    again := ledger.Create("Test 1", "EUR", false);
    kept := ledger.Find("Test 1");
  }

  method DepositMoney() returns (balance: int)
    ensures balance == 100
  {
    var ledger := SetUpTestAccounts();
    var o := ledger.Deposit("Test 1", 100);
    var r := ledger.Find("Test 1");
    balance := r.value.balance;
  }

  method WithdrawMoney() returns (balance: int)
    ensures balance == 50
  {
    var ledger := SetUpTestAccounts();
    var o := ledger.Withdraw("Test 2", 50);
    var r := ledger.Find("Test 2");
    balance := r.value.balance;
  }

  /** Refused withdrawals and transfers leave both balances as they were. */
  method RefusedOverdraw() returns (w: Outcome, t: Outcome, a: int, b: int)
    ensures w == Fail(NegativeBalance) && t == Fail(NegativeBalance)
    ensures a == 10 && b == 0
  {
    var ledger := new Ledger();
    var o := ledger.Create("A", "EUR", false);
    o := ledger.Create("B", "EUR", false);
    o := ledger.Deposit("A", 10);
    w := ledger.Withdraw("A", 11);
    t := ledger.Transfer("A", "B", 11);
    var foundA := ledger.Find("A");
    var foundB := ledger.Find("B");
    a, b := foundA.value.balance, foundB.value.balance;
  }
}
