# Account store of the payment service, modelled in Dafny

The payment service keeps accounts in a database table. Each account has a
UUID, the ISO 4217 numeric code of its currency and a balance. The account
repository (`repositories/accounts.go`) reads and writes that table. It offers
five operations:

- `CreateAccount` refuses a balance that is zero or below with
  `ErrNegativeBalance` and the nil UUID. Otherwise it inserts the account and
  returns the ID the database gave it.
- `UpdateAccount` refuses a balance that is zero or below in the same way.
  Otherwise it overwrites the stored row with the same ID.
- `AccountByID` and `AccountByIDTx` read one account. The second read runs
  inside a transaction and locks the row. Both report a missing row as
  `ErrInvalidAccountID`.
- `ListOfAccounts` returns one page of accounts, ordered by ascending ID,
  using an offset and a limit.

The model has three modules:

- `Uuids` (`uuids.dfy`) holds account IDs and their order. A UUID is its 16
  bytes read as one big-endian unsigned number below 2^128. That numeric order
  is the byte order PostgreSQL uses for `ORDER BY id`. This module also defines
  the ascending listing of a set of IDs (`Ascending`) and proves that such a
  listing exists and is unique.
- `Paging` (`paging.dfy`) holds `OffsetLimit` and `Window`, the rows that
  `OFFSET`/`LIMIT` keep.
- `Accounts` (`accounts.dfy`) holds the `Account` record, the errors and the
  table as a `map<Uuid, Account>`. The class `AccountsRepository` keeps that
  map in its field `rows`. The two writing operations are methods that change
  `rows`. The three reads are functions of `rows`. The class invariant
  `Valid()` says three things:
  - every row is stored under its own ID;
  - no row has the nil UUID;
  - every stored balance is strictly greater than zero.

  Both writing methods keep `Valid()` whether they succeed or fail.

Balances are `shopspring/decimal` values. These are exact decimals, so the
model uses `real`. The only thing the code does with a balance is compare it
with zero.

## Model

| member | source | states |
|---|---|---|
| `Accounts.AccountsRepository.constructor` | repositories/accounts.go:14-20 | The repository starts on an existing table that meets the store's invariant, and its state is that table. |
| `Accounts.AccountsRepository.CreateAccount` | repositories/accounts.go:22-31 | A balance of zero or below gives the nil UUID and `ErrNegativeBalance`, and the table is unchanged. A database failure gives the input record's ID and an error, and the table is unchanged. Otherwise the call returns the fresh ID the database assigned, and the table is the old table plus exactly that account under that ID. The table changes exactly when the call succeeds. The invariant holds afterwards in every case. |
| `Accounts.AccountsRepository.UpdateAccount` | repositories/accounts.go:33-38 | A balance of zero or below gives `ErrNegativeBalance` and changes nothing. A database failure gives an error and changes nothing. Otherwise the call succeeds and replaces only the row with the account's ID; if there is no such row, nothing changes. The set of IDs never changes. The invariant holds afterwards in every case. |
| `Accounts.AccountsRepository.AccountByID` | repositories/accounts.go:40-52 | The call succeeds exactly when there is no database failure and the ID is stored, and then returns the stored row. A missing ID gives `ErrInvalidAccountID` and a database failure gives a database error. Under the invariant, the returned account has the requested ID and a positive balance. |
| `Accounts.AccountsRepository.AccountByIDTx` | repositories/accounts.go:54-73 | It returns the same result as `AccountByID`: the stored row, `ErrInvalidAccountID` for a missing ID, or a database error. Under the invariant, the returned account has the requested ID and a positive balance. |
| `Accounts.AccountsRepository.ListOfAccounts` | repositories/accounts.go:75-86 | The call succeeds exactly when there is no database failure and neither the offset nor the limit is negative. The page has strictly ascending IDs. It holds at most `limit` rows when `limit` is positive. Each row is a stored account with a positive balance. Row `i` of the page is row `offset + i` of the whole listing. The page is cut short only at the end of the table. |
| `Paging.Window` | repositories/accounts.go:81-82 | Row `i` of the window is row `offset + i` of the input. The window holds at most `limit` rows when `limit` is positive. It stops early only when the input runs out. A zero limit puts no bound on the window. |
| `Paging.WindowSplit` | repositories/accounts.go:81-82 | Two consecutive pages, each with a positive limit, join into the page that spans both. So, as long as the table does not change between the page requests, paging through the listing neither skips nor repeats a row. |
| `Accounts.ListingOrdered` | repositories/accounts.go:83 | The full listing has one row per stored account. The rows are in strictly ascending ID order. Each row is the account stored under its ID. |
| `Accounts.ListingComplete` | repositories/accounts.go:79-84 | Every stored account appears in the full listing. |
| `Uuids.EnumerationExists` | repositories/accounts.go:83 | Every finite set of IDs can be listed in strictly ascending order. |
| `Uuids.EnumerationUnique` | repositories/accounts.go:83 | Two strictly ascending listings of the same set of IDs are equal, and each has as many entries as the set. |
| `Uuids.AscendingUnique` | repositories/accounts.go:83 | Any strictly ascending sequence with exactly the elements of a set is that set's `Ascending` listing. So "ORDER BY id ASC" fixes the order of the rows completely. |
| `Uuids.AscendingInsert` | repositories/accounts.go:29 | Adding a new ID to a set inserts that ID into the ascending listing at its position and moves no other ID. |
| `Accounts.ListingAfterInsert` | repositories/accounts.go:29-30 | After an account with a new ID is stored, the listing is the old listing with that account inserted at one position. No other row moves. |
| `Accounts.ListingAfterReplace` | repositories/accounts.go:37 | After the row under an existing ID is overwritten, the listing is the old listing with only that row replaced, at the same position. |
| `Accounts.PageFacts` | repositories/accounts.go:80-84 | Every page of the listing has strictly ascending IDs. Each of its rows is a stored account with a positive balance. |

## Left out

- The transfer engine, the payment store and the currency conversion are not
  part of this model. They include the locking order, currency conversion,
  two-digit rounding and the insufficient-funds check. Their source is not
  among the modelled files; only their end-to-end effects appear in the
  integration tests.
- `api/accounts.go` is not part of this model. It holds HTTP route
  registration and JSON request decoding.
- `services/currencies.go` is not part of this model. It passes one call
  through to a currency repository whose code is not available.
- `integration_tests/payments_test.go` is not part of this model. It makes
  HTTP round trips and runs requests in concurrent goroutines.
- Contexts, transaction handles, the `FOR UPDATE` row lock and transaction
  commit or rollback are left out. They concern concurrency and the database
  engine. `AccountByIDTx` is modelled only by the row it reads, and
  `UpdateAccount` writes straight to the table.
- How the database chooses a new ID is left out. `CreateAccount` takes the ID
  as the parameter `newId`. The method requires that ID to be in no row yet and
  to differ from the nil UUID. The model does not say whether the ID comes from
  the input record or from a column default.
- Database errors other than "no rows" become the single error `ErrDatabase`.
  The boolean parameter `storageFault` decides whether one occurs; which
  conditions cause one is not modelled. On such an error the table is left
  unchanged, and `CreateAccount` returns the ID field of its input record, as
  the code does.
- The source does not show what happens when an `UPDATE` matches no row. The
  model follows the SQL meaning of such an update: nothing changes and no error
  is reported.
- The offset and limit semantics come from the query builder, not from the
  modelled file. The builder writes an `OFFSET` or `LIMIT` clause only for a
  non-zero value. So a limit of 0 returns every row from the offset on. The
  database rejects a negative offset or limit, and the model reports that as
  `ErrDatabase`.
- `Accounts.AccountsRepository.ListOfAccounts` is a ghost function. The sorted
  order of a set of IDs is given by its specification (the unique ascending
  listing), not by executable code.
- `CreateAccount` and `UpdateAccount` return `ErrNegativeBalance` for a zero
  balance as well as a negative one; the model follows the code.
- The model assumes that every write to the accounts table goes through
  `CreateAccount` or `UpdateAccount`. The code that changes balances during a
  transfer is not part of this model, so the invariant `Valid()` (every stored
  balance strictly positive) is proved only for these two writes.
