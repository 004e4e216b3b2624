/** The transaction repository: listing an account's entries, and creating,
    updating and deleting an entry together with the matching adjustment of
    its account's running balance. Each mutation runs as one all-or-nothing
    unit: a failed call hands back the store it was given. */
module TransactionRepository {
  import opened LedgerTypes
  import opened Balance

  /** Adds `delta` to the balance of `account` (the column increment or
      decrement) and leaves every other account alone. */
  function Adjust(balances: map<AccountId, int>, account: AccountId, delta: int): (r: map<AccountId, int>)
    requires account in balances
    ensures r.Keys == balances.Keys
    ensures r[account] - balances[account] == delta
    ensures forall a :: a in balances && a != account ==> r[a] == balances[a]
  {
    balances[account := balances[account] + delta]
  }

  /** The account's running balance changes, if the account exists. */
  function AdjustAccount(balances: map<AccountId, int>, account: AccountId, delta: int): Result<map<AccountId, int>> {
    if account in balances then Ok(Adjust(balances, account, delta)) else Err(AccountNotFound)
  }

  // ---------------------------------------------------------------------------
  // listByAccount
  // ---------------------------------------------------------------------------

  /** The listing's filter: the entry belongs to this user and this account. */
  predicate Matches(e: Entry, userId: UserId, accountId: AccountId) {
    e.userId == userId && e.accountId == accountId
  }

  /** `a` may be listed ahead of `b`: a later transaction date, or the same
      date and a creation time no earlier than `b`'s. */
  predicate ListedBefore(a: Entry, b: Entry) {
    a.txnDate > b.txnDate || (a.txnDate == b.txnDate && a.createdAt >= b.createdAt)
  }

  /** The ids of a listing. */
  function ListedIds(rows: seq<Transaction>): set<EntryId> {
    set i | 0 <= i < |rows| :: rows[i].id
  }

  /** Picks, among the entries at `pool`, one that may be listed ahead of all the others. */
  method Newest(entries: map<EntryId, Entry>, pool: set<EntryId>) returns (best: EntryId)
    requires pool != {} && pool <= entries.Keys
    ensures best in pool
    ensures forall id :: id in pool ==> ListedBefore(entries[best], entries[id])
  {
    HasElement(pool);
    best :| best in pool;
    var rest := pool - {best};
    while rest != {}
      invariant rest <= pool && best in pool
      invariant forall id :: id in pool && id !in rest ==> ListedBefore(entries[best], entries[id])
      decreases rest
    {
      HasElement(rest);
      var id :| id in rest;
      if ListedBefore(entries[id], entries[best]) {
        best := id;
      }
      rest := rest - {id};
    }
  }

  /** The at most 50 entries of one user on one account, newest transaction
      date first and, within a date, newest creation first. */
  method ListByAccount(s: Store, userId: UserId, accountId: AccountId) returns (rows: seq<Transaction>)
    ensures |rows| <= MaxListed
    ensures forall i :: 0 <= i < |rows| ==>
      && rows[i].id in s.entries
      && s.entries[rows[i].id] == rows[i].entry
      && Matches(rows[i].entry, userId, accountId)
    ensures forall i, j :: 0 <= i < j < |rows| ==>
      rows[i].id != rows[j].id && ListedBefore(rows[i].entry, rows[j].entry)
    ensures forall id :: id in s.entries && Matches(s.entries[id], userId, accountId) && id !in ListedIds(rows) ==>
      && |rows| == MaxListed
      && forall i :: 0 <= i < |rows| ==> ListedBefore(rows[i].entry, s.entries[id])
  {
    var pool := set id | id in s.entries && Matches(s.entries[id], userId, accountId);
    rows := [];
    while |rows| < MaxListed && pool != {}
      invariant |rows| <= MaxListed
      invariant pool <= s.entries.Keys
      invariant forall id :: id in pool ==> Matches(s.entries[id], userId, accountId)
      invariant forall i :: 0 <= i < |rows| ==>
        && rows[i].id in s.entries
        && s.entries[rows[i].id] == rows[i].entry
        && Matches(rows[i].entry, userId, accountId)
      invariant forall i :: 0 <= i < |rows| ==> rows[i].id !in pool
      invariant forall i, j :: 0 <= i < j < |rows| ==>
        rows[i].id != rows[j].id && ListedBefore(rows[i].entry, rows[j].entry)
      invariant forall i, id :: 0 <= i < |rows| && id in pool ==> ListedBefore(rows[i].entry, s.entries[id])
      invariant forall id :: id in s.entries && Matches(s.entries[id], userId, accountId) ==>
        id in pool || id in ListedIds(rows)
      decreases MaxListed - |rows|
    {
      var best := Newest(s.entries, pool);
      var listed := rows;
      rows := rows + [Transaction(best, s.entries[best])];
      assert rows[|listed|].id == best;
      assert ListedIds(rows) == ListedIds(listed) + {best} by {
        assert forall i :: 0 <= i < |listed| ==> rows[i] == listed[i];
      }
      pool := pool - {best};
    }
  }

  // ---------------------------------------------------------------------------
  // create
  // ---------------------------------------------------------------------------

  /** The row `create` inserts: the payload's fields, stamped with the creation time. */
  function NewEntry(p: CreateInput, now: Instant): Entry {
    Entry(p.userId, p.accountId, p.categoryId, p.kind, p.amount, p.txnDate, p.description, now)
  }

  /** Inserts an entry under the next id and moves the account's balance by
      the entry's delta. */
  function Create(s: Store, p: CreateInput, now: Instant): (r: Reply<Transaction>)
    ensures r.result.Err? ==> r.store == s
    ensures r.result.Ok? <==> s.nextId !in s.entries && p.accountId in s.balances
    ensures r.result.Ok? ==>
      var t := r.result.value;
      && t.id !in s.entries
      && r.store.entries.Keys == s.entries.Keys + {t.id}
      && (forall id :: id in s.entries ==> r.store.entries[id] == s.entries[id])
      && r.store.entries[t.id] == t.entry
      && t.entry.userId == p.userId && t.entry.accountId == p.accountId
      && t.entry.kind == p.kind && t.entry.amount == p.amount
      && t.entry.txnDate == p.txnDate && t.entry.description == p.description
      && t.entry.categoryId == p.categoryId
      && t.entry.createdAt == now
      && r.store.nextId > t.id
      && r.store.balances.Keys == s.balances.Keys
      && r.store.balances[p.accountId]
         == (if p.kind == "EXPENSE" then s.balances[p.accountId] - p.amount else s.balances[p.accountId] + p.amount)
      && (forall a :: a in s.balances && a != p.accountId ==> r.store.balances[a] == s.balances[a])
  {
    var id := s.nextId;
    if id in s.entries then Reply(s, Err(DuplicateId))
    else
      var e := NewEntry(p, now);
      match AdjustAccount(s.balances, p.accountId, Delta(p.kind, p.amount))
      case Err(err) => Reply(s, Err(err))
      case Ok(balances) => Reply(Store(balances, s.entries[id := e], id + 1), Ok(Transaction(id, e)))
  }

  // ---------------------------------------------------------------------------
  // update
  // ---------------------------------------------------------------------------

  /** The entry after an update: each field the payload leaves unspecified
      keeps its stored value; owner, account and creation time never change. */
  function Merge(existing: Entry, p: UpdateInput): (next: Entry)
    ensures next.userId == existing.userId && next.accountId == existing.accountId
    ensures next.createdAt == existing.createdAt
    ensures p.kind.None? ==> next.kind == existing.kind
    ensures p.kind.Some? ==> next.kind == p.kind.value
    ensures p.amount.None? ==> next.amount == existing.amount
    ensures p.amount.Some? ==> next.amount == p.amount.value
    ensures p.categoryId.None? ==> next.categoryId == existing.categoryId
    ensures p.categoryId == Some(None) ==> next.categoryId.None?
    ensures p.categoryId.Some? ==> next.categoryId == p.categoryId.value
    ensures p.txnDate.None? ==> next.txnDate == existing.txnDate
    ensures p.txnDate.Some? ==> next.txnDate == p.txnDate.value
    ensures p.description.None? ==> next.description == existing.description
    ensures p.description == Some(None) ==> next.description.None?
    ensures p.description.Some? ==> next.description == p.description.value
  {
    existing.(
      kind := OrKeep(p.kind, existing.kind),
      amount := OrKeep(p.amount, existing.amount),
      categoryId := OrKeep(p.categoryId, existing.categoryId),
      txnDate := OrKeep(p.txnDate, existing.txnDate),
      description := OrKeep(p.description, existing.description))
  }

  /** Rejects an unknown entry, another user's entry or a change of account
      (checked in that order); otherwise takes the stored entry's effect off
      its account's balance, stores the merged entry, and applies the merged
      entry's effect. */
  function Update(s: Store, p: UpdateInput): (r: Reply<Transaction>)
    ensures r.result.Err? ==> r.store == s
    ensures p.id !in s.entries ==> r.result == Err(TransactionNotFound)
    ensures p.id in s.entries && s.entries[p.id].userId != p.userId ==> r.result == Err(NotAuthorized)
    ensures p.id in s.entries && s.entries[p.id].userId == p.userId && s.entries[p.id].accountId != p.accountId
            ==> r.result == Err(AccountChangeUnsupported)
    ensures r.result.Ok? <==>
      && p.id in s.entries
      && s.entries[p.id].userId == p.userId
      && s.entries[p.id].accountId == p.accountId
      && p.accountId in s.balances
    ensures r.result.Ok? ==>
      var old_ := s.entries[p.id];
      var next := r.result.value.entry;
      && r.result.value.id == p.id
      && next == Merge(old_, p)
      && r.store.entries == s.entries[p.id := next]
      && r.store.nextId == s.nextId
      && r.store.balances.Keys == s.balances.Keys
      && r.store.balances[p.accountId] - s.balances[p.accountId]
         == Delta(next.kind, next.amount) - Delta(old_.kind, old_.amount)
      && (forall a :: a in s.balances && a != p.accountId ==> r.store.balances[a] == s.balances[a])
  {
    if p.id !in s.entries then Reply(s, Err(TransactionNotFound))
    else
      var existing := s.entries[p.id];
      if existing.userId != p.userId then Reply(s, Err(NotAuthorized))
      else if existing.accountId != p.accountId then Reply(s, Err(AccountChangeUnsupported))
      else
        match AdjustAccount(s.balances, existing.accountId, Reversal(existing.kind, existing.amount))
        case Err(err) => Reply(s, Err(err))
        case Ok(reversed) =>
          var next := Merge(existing, p);
          var applied := Adjust(reversed, existing.accountId, Delta(next.kind, next.amount));
          Reply(Store(applied, s.entries[p.id := next], s.nextId), Ok(Transaction(p.id, next)))
  }

  // ---------------------------------------------------------------------------
  // delete
  // ---------------------------------------------------------------------------

  /** Takes the entry's effect off its account's balance and removes it.
      There is no ownership check. */
  function Delete(s: Store, id: EntryId): (r: Reply<()>)
    ensures r.result.Err? ==> r.store == s
    ensures id !in s.entries ==> r.result == Err(TransactionNotFound)
    ensures r.result.Ok? <==> id in s.entries && s.entries[id].accountId in s.balances
    ensures r.result.Ok? ==>
      var gone := s.entries[id];
      && r.store.entries.Keys == s.entries.Keys - {id}
      && (forall k :: k in r.store.entries ==> r.store.entries[k] == s.entries[k])
      && r.store.nextId == s.nextId
      && r.store.balances.Keys == s.balances.Keys
      && r.store.balances[gone.accountId]
         == (if gone.kind == "EXPENSE" then s.balances[gone.accountId] + gone.amount
             else s.balances[gone.accountId] - gone.amount)
      && (forall a :: a in s.balances && a != gone.accountId ==> r.store.balances[a] == s.balances[a])
  {
    if id !in s.entries then Reply(s, Err(TransactionNotFound))
    else
      var existing := s.entries[id];
      match AdjustAccount(s.balances, existing.accountId, Reversal(existing.kind, existing.amount))
      case Err(err) => Reply(s, Err(err))
      case Ok(balances) => Reply(Store(balances, s.entries - {id}, s.nextId), Ok(()))
  }
}
