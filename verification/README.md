# Ledger balance maintenance of the budget app's transaction repository

The budget application stores money movements ("transactions") against
accounts. Each account row keeps a running balance in its `initial_balance`
column. The transaction repository mutates that column on every mutation:

- `create` inserts an entry and adds its signed amount to the balance. An
  `"EXPENSE"` subtracts its amount; any other kind adds it.
- `update` first rejects three cases, in this order: an unknown entry,
  another user's entry, and an attempt to move the entry to another account.
  Otherwise it takes the stored entry's effect off the balance, merges the
  payload into the entry (PATCH semantics), and applies the merged entry's
  effect.
- `delete` takes the entry's effect off the balance and removes the entry.
- `listByAccount` returns at most 50 entries of one user on one account. They
  are ordered by transaction date, newest first, then by creation time,
  newest first.

Each mutation runs inside one database transaction, so a failure leaves
nothing behind.

The model is functional:

- `LedgerTypes` holds the data model. A `Store` holds the balances by account,
  the entries by id and the auto-increment counter. The module also holds the
  create and update payloads and the error kinds.
- `Balance` holds the signed delta and the reversal the code applies, and the
  net of the current entries on an account. It also states the balance
  invariant `Consistent(s, base)`: every account's balance equals its balance
  at creation (`base`) plus the deltas of the entries that reference it.
- `TransactionRepository` models `create`, `update` and `delete` as pure
  functions. Each returns a `Reply`: the store after the call and a `Result`.
  A failure hands back the unchanged store, as the all-or-nothing transaction
  does. `listByAccount` is a method over the stored entries.
- `LedgerInvariant` proves that every call preserves the invariant, whether
  it succeeds or fails, and so does any sequence of calls. It also proves when
  each call can fail on a store the database schema could produce, that a
  delete undoes a create, that updates are idempotent, and that two creates
  reach the same balances in either order.

Amounts are integers in minor currency units. Dates and timestamps are
opaque integers. The clock that stamps `created_at` is a parameter of
`Create`.

Three points about what the code does, and does not do:

- The code validates neither the amount nor the kind. Only the exact string
  `"EXPENSE"` subtracts; every other kind adds.
- `create` does no ownership check on the account. When the account row is
  missing, the call fails and rolls back.
- `update` reverses the stored entry once (transactionRepository.ts lines
  93-99) and applies the merged entry once (lines 127-133). `Update`'s
  contract pins the net change to exactly `Delta(next) - Delta(old)`.

## Model

| member | source | states |
|---|---|---|
| TransactionRepository.Adjust | src/main/repositories/transactionRepository.ts:59-65 | the increment/decrement moves only the named account's balance, by exactly the given delta |
| TransactionRepository.ListByAccount | src/main/repositories/transactionRepository.ts:26-43 | at most 50 rows; each row is a stored entry of that user and that account; rows are distinct and ordered by date then creation time, newest first; an omitted matching entry means the listing is full and every listed row sorts ahead of it |
| TransactionRepository.Create | src/main/repositories/transactionRepository.ts:45-71 | fails, with the store unchanged, exactly when the next id is taken or the account is missing; on success adds exactly one new entry carrying the payload's fields, leaves existing entries untouched, and moves only the target account's balance, by minus the amount for "EXPENSE" and plus the amount otherwise |
| TransactionRepository.Merge | src/main/repositories/transactionRepository.ts:101-124 | kind, amount, category and description keep the stored value when unspecified and take the given value otherwise; an explicit null clears the category or description; the date changes only when a date is supplied; owner, account and creation time never change |
| TransactionRepository.Update | src/main/repositories/transactionRepository.ts:73-137 | an unknown id, another owner and a different account are rejected in that order with the store unchanged; success stores the merged entry and changes only the entry's account balance, by exactly the merged entry's delta minus the stored entry's delta |
| TransactionRepository.Delete | src/main/repositories/transactionRepository.ts:139-161 | an unknown id fails with the store unchanged; success removes exactly that entry and moves only its account's balance, adding back an expense's amount and taking away any other kind's amount; no ownership check |
| Balance.ReversalCancelsDelta | src/main/repositories/transactionRepository.ts:149-155 | `Reversal`, the increment-for-expense/decrement-otherwise written in update and delete, is the exact additive inverse of `Delta`, the decrement-for-expense/increment-otherwise signed-delta rule written in create and in update's re-application |
| Balance.NetOfPick | src/main/repositories/transactionRepository.ts:59-65 | the net of a set of entries on an account, which the balance writes keep in step with, can be split at any member |
| Balance.NetOfFrame | src/main/repositories/transactionRepository.ts:59-65 | the net over a set of ids, which the balance writes keep in step with, depends only on the entries stored at those ids |
| Balance.AccountNetInsert | src/main/repositories/transactionRepository.ts:47-65 | inserting an entry under a fresh id adds exactly its contribution to each account's net |
| Balance.AccountNetRemove | src/main/repositories/transactionRepository.ts:149-159 | removing an entry takes exactly its contribution away from each account's net |
| Balance.AccountNetReplace | src/main/repositories/transactionRepository.ts:93-133 | replacing an entry swaps its old contribution for the new one in each account's net |
| LedgerInvariant.CreatePreservesConsistency | src/main/repositories/transactionRepository.ts:46-68 | if every balance equals its base plus the deltas of its entries, this still holds after any create, successful or not |
| LedgerInvariant.UpdatePreservesConsistency | src/main/repositories/transactionRepository.ts:74-136 | the balance invariant holds after any update, successful or not |
| LedgerInvariant.DeletePreservesConsistency | src/main/repositories/transactionRepository.ts:140-160 | the balance invariant holds after any delete, successful or not |
| LedgerInvariant.RunPreservesConsistency | src/main/repositories/transactionRepository.ts:45-161 | the balance invariant holds after any sequence of creates, updates and deletes |
| LedgerInvariant.CreateOnWellFormed | src/main/repositories/transactionRepository.ts:47-65 | on a store with ids below the counter and every entry's account present, create fails only for a missing account, and the result is again such a store |
| LedgerInvariant.UpdateOnWellFormed | src/main/repositories/transactionRepository.ts:75-99 | on such a store, update succeeds exactly when the entry exists, belongs to the user and stays on its account, and the result is again such a store |
| LedgerInvariant.DeleteOnWellFormed | src/main/repositories/transactionRepository.ts:141-155 | on such a store, delete succeeds exactly when the entry exists, and the result is again such a store |
| LedgerInvariant.DeleteUndoesCreate | src/main/repositories/transactionRepository.ts:139-161 | deleting the entry a successful create just made succeeds and restores the balances and entries from before the create |
| LedgerInvariant.UpdateWithoutAmountKeepsBalances | src/main/repositories/transactionRepository.ts:91-133 | an update supplying neither kind nor amount leaves every balance unchanged |
| LedgerInvariant.EmptyUpdateChangesNothing | src/main/repositories/transactionRepository.ts:101-124 | an update with every field unspecified leaves the whole store unchanged |
| LedgerInvariant.UpdateIsIdempotent | src/main/repositories/transactionRepository.ts:73-137 | repeating a successful update gives the same store and result as sending it once |
| LedgerInvariant.CreatesCommuteOnBalances | src/main/repositories/transactionRepository.ts:59-65 | two creates on existing accounts both succeed and reach the same balances in either order |

## Left out

- The constructor and its `DATABASE_URL` check (lines 15-24) are left out. They only set up the database client.
- The atomicity mechanism of the database transaction is not modelled. A failed call returns its input store, which is the guarantee that mechanism gives.
- Concurrency and row locking are left out. The code relies on the database for both and does nothing of its own.
- Date parsing and ISO-string formatting are left out. `new Date(...)` in create and update and `toISOString` in `mapTransaction` become opaque integer instants. An unparsable date string, which the database would reject, is not modelled.
- `mapTransaction` is modelled only as pairing an id with its stored row (`Transaction`). Its field renaming and date formatting carry no logic.
- The `Number(...)` conversion of the stored decimal amount in `update` (line 91) is not modelled. Amounts are exact integers, so the floating-point rounding it could introduce is absent.
- The `updated_at` timestamp is left out. It is maintained by the database schema, which is not part of this model.
- An explicit `null` amount in an update payload is not modelled. The model assumes `amount` is either absent or a number. The declaration of the update payload's type is not part of this model, and the IPC handler does not enforce it at run time. A `null` amount would pass the `!== undefined` test and reach the row write at lines 114-125, which would presumably fail and roll back.
- The foreign key from an entry to its category is not modelled. Categories are a separate table, and category ids are opaque.
- Database failures other than a missing row or a taken primary key are left out. Connection errors and constraint errors on other columns are examples.
- `TransactionRepository.Create`: the new id is the store's counter. An insert at an id that is already taken fails with `DuplicateId`. The auto-increment key never produces that case (see `LedgerInvariant.CreateOnWellFormed`).
- `TransactionRepository.Create`: a failed create leaves the id counter `nextId` unchanged. A database's auto-increment counter is typically not rolled back when a transaction aborts, so later ids may skip values. Only ids are affected, not balances or entries.
