# Account ledger

A Dafny model of the account service of a small Spring Boot ledger
backend. The service keeps a table of accounts keyed by a unique name;
each account has an id, a currency, a balance and a treasury flag. It
offers five operations:

- **create** opens an account with balance 0, unless the name is taken (`AccountAlreadyExists`);
- **find** returns the stored account, or fails with `AccountNotFound`;
- **deposit** adds the amount to the balance, with no check on the amount;
- **withdraw** subtracts the amount, but refuses (`NegativeBalance`) when a non-treasury account would end below zero;
- **transfer** applies the withdraw guard to the sender, then debits the sender and credits the receiver.

Every operation reads rows from the repository, checks for errors,
changes a copy and saves it back. A failing operation changes nothing.

Files:

- `AccountModel.dfy` holds the data model: `Account`, the three errors, `Result`/`Outcome`, and the `Store` (the table plus the next id to hand out). It also holds the store invariant `WellFormed`, the ledger invariant `Solvent` (no non-treasury balance below zero), and `Total`, the sum of all balances, with its update lemmas.
- `LedgerSpec.dfy` holds the five operations as pure transitions `Store -> Result<Store>`. Their contracts give the error conditions, the new balances and that every other row is unchanged. Lemmas cover invariant preservation, where the money goes, and how the operations relate.
- `Ledger.dfy` holds class `Ledger`, whose fields `accounts` and `nextId` stand in for the Spring Data repository. Its methods follow the Java code statement by statement. Each is proved to perform exactly the `LedgerSpec` transition and to keep `WellFormed`.
- `Scenarios.dfy` holds client methods of `Ledger`: the service's unit tests (`AccountServiceTest.java`) and a few illustrative scenarios. Their results are proved from the method contracts alone.

Modelling decisions:

- Money is an exact integer number of minor units. The guard `balance - amount < 0` keeps the source's form, and over integers it means `balance < amount`.
- Amounts may be negative, because the source does not reject them. So `Withdraw` keeps `Solvent` for any amount. `Deposit` and `Transfer` keep it only for non-negative amounts. `NegativeDepositOverdraws` shows how a negative deposit breaks it.
- Transfer of an account to itself: the source does not decide whether the two look-ups return separate copies or one shared object. The model assumes separate copies, with the receiver's copy saved last. The account therefore ends at balance + amount, which is the same as a deposit (`SelfTransferCredits`). Conservation of the total (`TransferConservesTotal`) is stated for distinct accounts only.
- `save` is an upsert keyed by name. At every call site of `Save`, the row saved either keeps the id and name it was read with or has both new (`create`), so there this matches the source's upsert by id. Ids come from the counter `nextId` when `create` saves a new row.
- `Account.java` has no `setCurrencyString` or `setMoneyDouble`. The service still calls them to set the currency code and a zero balance, and the model does exactly that.

## Model

| member | source | states |
|---|---|---|
| LedgerSpec.FindByName | springbootexercise/src/main/java/es/enrique/springbootexercise/dao/AccountRepository.java:16-22 | the lookup finds something exactly when the name is in the table, and then it is that row |
| LedgerSpec.Create | springbootexercise/src/main/java/es/enrique/springbootexercise/service/impl/AccountServiceImpl.java:26-38 | fails with AccountAlreadyExists exactly when the name is taken. Otherwise it adds exactly one row, with the given name, currency and treasury flag, balance 0 and a fresh id, and every other row is unchanged |
| LedgerSpec.Find | springbootexercise/src/main/java/es/enrique/springbootexercise/service/impl/AccountServiceImpl.java:41-47 | succeeds exactly when the name is present and returns the stored row; otherwise fails with AccountNotFound; being a function of the store it changes nothing |
| LedgerSpec.Deposit | springbootexercise/src/main/java/es/enrique/springbootexercise/service/impl/AccountServiceImpl.java:50-59 | fails with AccountNotFound exactly when the name is missing. Otherwise only that row's balance changes, to old + amount, and every other field and row is unchanged |
| LedgerSpec.Withdraw | springbootexercise/src/main/java/es/enrique/springbootexercise/service/impl/AccountServiceImpl.java:62-79 | AccountNotFound exactly when the name is missing. NegativeBalance exactly when the account is non-treasury and balance < amount. Otherwise only that balance changes, to old - amount, with no lower bound for treasury accounts |
| LedgerSpec.Transfer | springbootexercise/src/main/java/es/enrique/springbootexercise/service/impl/AccountServiceImpl.java:82-102 | AccountNotFound exactly when either name is missing. NegativeBalance exactly when both exist and the non-treasury sender has balance < amount. Otherwise the receiver is credited, the sender (when distinct) debited, and every other row unchanged |
| LedgerSpec.CreateKeepsWellFormed | springbootexercise/src/main/java/es/enrique/springbootexercise/service/impl/AccountServiceImpl.java:27-37 | create keeps every row under its own name with a distinct id below the counter |
| LedgerSpec.DepositKeepsWellFormed | springbootexercise/src/main/java/es/enrique/springbootexercise/service/impl/AccountServiceImpl.java:57-58 | deposit keeps the store well formed |
| LedgerSpec.WithdrawKeepsWellFormed | springbootexercise/src/main/java/es/enrique/springbootexercise/service/impl/AccountServiceImpl.java:76-77 | withdraw keeps the store well formed |
| LedgerSpec.TransferKeepsWellFormed | springbootexercise/src/main/java/es/enrique/springbootexercise/service/impl/AccountServiceImpl.java:98-101 | transfer keeps the store well formed |
| LedgerSpec.CreateKeepsSolvent | springbootexercise/src/main/java/es/enrique/springbootexercise/service/AccountService.java:22 | a new account starts at 0, so no non-treasury balance goes below zero |
| LedgerSpec.WithdrawKeepsSolvent | springbootexercise/src/main/java/es/enrique/springbootexercise/service/impl/AccountServiceImpl.java:69-77 | after a successful withdraw of any amount, no non-treasury balance is below zero |
| LedgerSpec.TransferKeepsSolvent | springbootexercise/src/main/java/es/enrique/springbootexercise/service/impl/AccountServiceImpl.java:91-101 | with a non-negative amount, a successful transfer leaves no non-treasury balance below zero |
| LedgerSpec.DepositKeepsSolvent | springbootexercise/src/main/java/es/enrique/springbootexercise/service/impl/AccountServiceImpl.java:57 | with a non-negative amount, a deposit leaves no non-treasury balance below zero |
| LedgerSpec.NegativeDepositOverdraws | springbootexercise/src/main/java/es/enrique/springbootexercise/service/impl/AccountServiceImpl.java:57 | an unguarded negative deposit larger than the balance succeeds and leaves a non-treasury account below zero |
| LedgerSpec.DepositAddsToTotal | springbootexercise/src/main/java/es/enrique/springbootexercise/service/impl/AccountServiceImpl.java:57 | a successful deposit raises the sum of all balances by the amount |
| LedgerSpec.WithdrawTakesFromTotal | springbootexercise/src/main/java/es/enrique/springbootexercise/service/impl/AccountServiceImpl.java:76 | a successful withdraw lowers the sum of all balances by the amount |
| LedgerSpec.TransferConservesTotal | springbootexercise/src/main/java/es/enrique/springbootexercise/service/impl/AccountServiceImpl.java:98-101 | a successful transfer between distinct accounts keeps the sum of all balances |
| LedgerSpec.SelfTransferCredits | springbootexercise/src/main/java/es/enrique/springbootexercise/service/impl/AccountServiceImpl.java:84-101 | assuming the two look-ups return separate copies, a transfer of an account to itself acts as a deposit because the receiver's copy is saved last, and it raises the sum of balances by the amount |
| LedgerSpec.TransferIsWithdrawThenDeposit | springbootexercise/src/main/java/es/enrique/springbootexercise/service/impl/AccountServiceImpl.java:84-101 | between two existing, distinct accounts, transfer fails or succeeds as withdraw on the sender does, and on success equals withdraw followed by deposit |
| LedgerSpec.DepositWithdrawRoundTrip | springbootexercise/src/main/java/es/enrique/springbootexercise/service/impl/AccountServiceImpl.java:50-77 | depositing an amount into an account that is treasury or not overdrawn, then withdrawing it, restores the store exactly |
| LedgerSpec.CreateThenFind | springbootexercise/src/main/java/es/enrique/springbootexercise/service/AccountService.java:17-32 | after creating a fresh name, find returns an account with that name and currency, balance 0 and the given treasury flag |
| LedgerSpec.CreateTwiceFails | springbootexercise/src/main/java/es/enrique/springbootexercise/service/impl/AccountServiceImpl.java:27-30 | a second create under the same name fails with AccountAlreadyExists, carrying no new store; that the table stays unchanged is stated by LedgerService.Ledger.Create |
| LedgerService.Ledger.constructor | springbootexercise/src/main/java/es/enrique/springbootexercise/dao/AccountRepository.java:14 | the repository starts empty and well formed |
| LedgerService.Ledger.FindByName | springbootexercise/src/main/java/es/enrique/springbootexercise/dao/AccountRepository.java:22 | the lookup on the current table finds something exactly when the name is present, and then it is that row |
| LedgerService.Ledger.Save | springbootexercise/src/main/java/es/enrique/springbootexercise/dao/AccountRepository.java:14 | save files the row under its name, replacing any row there, and does not move the id counter |
| LedgerService.Ledger.Create | springbootexercise/src/main/java/es/enrique/springbootexercise/service/impl/AccountServiceImpl.java:26-38 | the method reports create's outcome, keeps the store well formed, and leaves the table as LedgerSpec.Create says, which is unchanged on failure |
| LedgerService.Ledger.Find | springbootexercise/src/main/java/es/enrique/springbootexercise/service/impl/AccountServiceImpl.java:41-47 | the method returns what LedgerSpec.Find gives on the current table and modifies nothing |
| LedgerService.Ledger.Deposit | springbootexercise/src/main/java/es/enrique/springbootexercise/service/impl/AccountServiceImpl.java:50-59 | the method reports deposit's outcome, keeps the store well formed, and performs LedgerSpec.Deposit, changing nothing on failure |
| LedgerService.Ledger.Withdraw | springbootexercise/src/main/java/es/enrique/springbootexercise/service/impl/AccountServiceImpl.java:62-79 | the method reports withdraw's outcome, keeps the store well formed, and performs LedgerSpec.Withdraw, changing nothing on failure |
| LedgerService.Ledger.Transfer | springbootexercise/src/main/java/es/enrique/springbootexercise/service/impl/AccountServiceImpl.java:82-102 | the method reports transfer's outcome, keeps the store well formed, and performs LedgerSpec.Transfer, with neither account changed on failure |
| LedgerScenarios.TransferBetweenAccounts | springbootexercise/src/main/java/es/enrique/springbootexercise/service/impl/AccountServiceImpl.java:82-102 | open A and B, deposit 100 to A, transfer 20: A holds 80 and B holds 20 |
| LedgerScenarios.TreasuryOverdraw | springbootexercise/src/main/java/es/enrique/springbootexercise/service/impl/AccountServiceImpl.java:62-77 | a fresh treasury account can withdraw 20 and ends at -20 |
| LedgerScenarios.SetUpTestAccounts | springbootexercise/src/test/java/es/enrique/springbootexercise/service/AccountServiceTest.java:27-44 | the test fixture: "Test 1" non-treasury at 0, "Test 2" treasury at 100 |
| LedgerScenarios.FindAccountByName | springbootexercise/src/test/java/es/enrique/springbootexercise/service/AccountServiceTest.java:49-63 | find("Test 2") returns the account named "Test 2" |
| LedgerScenarios.FindAccountByNameNotFound | springbootexercise/src/test/java/es/enrique/springbootexercise/service/AccountServiceTest.java:68-73 | finding an unknown name fails with AccountNotFound |
| LedgerScenarios.CreateNewAccount | springbootexercise/src/test/java/es/enrique/springbootexercise/service/AccountServiceTest.java:78-90 | creating "Test 3" stores an account of that name at balance 0 |
| LedgerScenarios.CreateNewAccountAlreadyExists | springbootexercise/src/test/java/es/enrique/springbootexercise/service/AccountServiceTest.java:96-101 | creating "Test 1" again fails with AccountAlreadyExists and the stored "Test 1" is unchanged |
| LedgerScenarios.DepositMoney | springbootexercise/src/test/java/es/enrique/springbootexercise/service/AccountServiceTest.java:106-118 | depositing 100 into "Test 1" gives balance 100 |
| LedgerScenarios.WithdrawMoney | springbootexercise/src/test/java/es/enrique/springbootexercise/service/AccountServiceTest.java:123-138 | withdrawing 50 from the treasury account "Test 2" at 100 gives balance 50 |
| LedgerScenarios.RefusedOverdraw | springbootexercise/src/main/java/es/enrique/springbootexercise/service/impl/AccountServiceImpl.java:69-74 | a non-treasury account at 10 cannot withdraw or transfer 11, and both balances stay as they were |

## Left out

- HTTP routing and status codes (`AccountController.java`): web plumbing around the service.
- JPA persistence, the Spring Data repository and its id generation strategy. The table is an in-memory map, and the id is a counter that create advances.
- Floating-point `Double` amounts, Joda `Money`/`CurrencyUnit` and their scale and rounding rules. Money is an exact integer number of minor units, and a currency is its code string.
- Non-atomic persistence and concurrency: a crash between the two saves of transfer, and interleaved requests. The model runs one operation at a time.
- Null arguments: a `null` treasury flag, which would make the `getTreasury()` test throw, and null names or amounts. Every argument is a value.
- Exception messages: the three exceptions are the three `Error` variants.
- Account getters and setters: the account is a plain datatype.
- LedgerSpec.Transfer: on a transfer of an account to itself it models only the separate-copies reading (balance + amount). When both look-ups yield one shared managed object, as inside a single persistence context, the balance ends unchanged; that case is not modelled.
