/** Data model of the transaction ledger: account balances, stored entries
    and the payloads the repository accepts. Identifiers, dates and
    timestamps are opaque integers; amounts are integers in minor currency
    units. */
module LedgerTypes {

  type UserId = int
  type AccountId = int
  type EntryId = int
  type CategoryId = int

  /** A transaction date or a creation timestamp; a larger value is later. */
  type Instant = int

  /** The only kind the repository singles out: every other kind adds to the balance. */
  const ExpenseKind: string := "EXPENSE"

  /** The most rows a listing returns. */
  const MaxListed: nat := 50

  /** An optional value: a payload field that may be left out, or a nullable column. */
  datatype Option<T> = None | Some(value: T)

  /** The supplied value if there is one, else `keep`. */
  function OrKeep<T>(supplied: Option<T>, keep: T): T {
    if supplied.Some? then supplied.value else keep
  }

  /** One stored row of the transactions table, without its primary key. */
  datatype Entry = Entry(
    userId: UserId,
    accountId: AccountId,
    categoryId: Option<CategoryId>,
    kind: string,
    amount: int,
    txnDate: Instant,
    description: Option<string>,
    createdAt: Instant)

  /** A stored entry together with its id, as handed back to callers. */
  datatype Transaction = Transaction(id: EntryId, entry: Entry)

  /** The durable state the repository works on: each account's running
      balance (the `initial_balance` column), the entries by id, and the
      next id the auto-increment key will hand out. */
  datatype Store = Store(
    balances: map<AccountId, int>,
    entries: map<EntryId, Entry>,
    nextId: EntryId)

  datatype Error =
    | TransactionNotFound       // no entry with the requested id
    | NotAuthorized             // the entry belongs to another user
    | AccountChangeUnsupported  // an update names a different account
    | AccountNotFound           // the balance row to adjust does not exist
    | DuplicateId               // the primary key is already taken

  datatype Result<+T> = Ok(value: T) | Err(error: Error)

  /** The store after a call together with the call's outcome. */
  datatype Reply<+T> = Reply(store: Store, result: Result<T>)

  /** Payload of `create`. `categoryId` is None when absent or null. */
  datatype CreateInput = CreateInput(
    userId: UserId,
    accountId: AccountId,
    categoryId: Option<CategoryId>,
    kind: string,
    amount: int,
    txnDate: Instant,
    description: Option<string>)

  /** Payload of `update`, with one shape per field's fallback rule:
      - `kind`: None when absent or null (falls back via `??`);
      - `amount`: None when absent;
      - `categoryId`, `description`: None when absent, Some(None) for an
        explicit null (which clears the field), Some(Some(v)) to set it;
      - `txnDate`: None when absent or empty (falsy). */
  datatype UpdateInput = UpdateInput(
    id: EntryId,
    userId: UserId,
    accountId: AccountId,
    kind: Option<string>,
    amount: Option<int>,
    categoryId: Option<Option<CategoryId>>,
    txnDate: Option<Instant>,
    description: Option<Option<string>>)
}
