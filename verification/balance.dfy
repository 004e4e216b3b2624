/** The signed effect an entry has on its account's running balance, the sum
    of those effects over a set of entries, and the balance invariant. */
module Balance {
  import opened LedgerTypes

  /** The amount an entry of this kind adds to its account's balance: an
      expense subtracts its amount, any other kind adds it. */
  function Delta(kind: string, amount: int): int {
    if kind == ExpenseKind then -amount else amount
  }

  /** The adjustment that takes an applied entry back out of its account's
      balance: an expense is added back, any other kind is subtracted. */
  function Reversal(kind: string, amount: int): int {
    if kind == ExpenseKind then amount else -amount
  }

  /** The reversal of an entry cancels its delta exactly. */
  lemma ReversalCancelsDelta(kind: string, amount: int)
    ensures Delta(kind, amount) + Reversal(kind, amount) == 0
    ensures Reversal(kind, amount) == -Delta(kind, amount)
  {
  }

  /** What entry `e` contributes to the balance of `account`. */
  function Contribution(e: Entry, account: AccountId): int {
    if e.accountId == account then Delta(e.kind, e.amount) else 0
  }

  /** Sum of the contributions to `account` of the entries whose ids are in `ids`. */
  ghost function NetOf(entries: map<EntryId, Entry>, ids: set<EntryId>, account: AccountId): int
    requires ids <= entries.Keys
    decreases ids
  {
    if ids == {} then 0
    else
      HasElement(ids);
      var id :| id in ids;
      Contribution(entries[id], account) + NetOf(entries, ids - {id}, account)
  }

  /** A non-empty set has an element. */
  lemma HasElement(ids: set<EntryId>)
    requires ids != {}
    ensures exists x :: x in ids
  {
    if forall x :: x !in ids {
      assert false;
    }
  }

  /** Net effect of all current entries on `account`'s balance. */
  ghost function AccountNet(entries: map<EntryId, Entry>, account: AccountId): int {
    NetOf(entries, entries.Keys, account)
  }

  /** The balance invariant: every account's balance is its balance at
      creation (`base`) plus the signed deltas of the entries referencing it. */
  ghost predicate Consistent(s: Store, base: map<AccountId, int>) {
    forall a :: a in s.balances ==> a in base && s.balances[a] == base[a] + AccountNet(s.entries, a)
  }

  /** The sum does not depend on which element it peels off first. */
  lemma {:induction false} NetOfPick(entries: map<EntryId, Entry>, ids: set<EntryId>, account: AccountId, x: EntryId)
    requires ids <= entries.Keys
    requires x in ids
    ensures NetOf(entries, ids, account) == Contribution(entries[x], account) + NetOf(entries, ids - {x}, account)
    decreases ids
  {
    var y :| y in ids && NetOf(entries, ids, account) == Contribution(entries[y], account) + NetOf(entries, ids - {y}, account);
    if y != x {
      NetOfPick(entries, ids - {y}, account, x);
      NetOfPick(entries, ids - {x}, account, y);
      assert ids - {y} - {x} == ids - {x} - {y};
    }
  }

  /** The sum over `ids` only reads the entries at `ids`. */
  lemma {:induction false} NetOfFrame(m1: map<EntryId, Entry>, m2: map<EntryId, Entry>, ids: set<EntryId>, account: AccountId)
    requires ids <= m1.Keys && ids <= m2.Keys
    requires forall id :: id in ids ==> m1[id] == m2[id]
    ensures NetOf(m1, ids, account) == NetOf(m2, ids, account)
    decreases ids
  {
    if ids != {} {
      HasElement(ids);
      var y :| y in ids;
      NetOfPick(m1, ids, account, y);
      NetOfPick(m2, ids, account, y);
      NetOfFrame(m1, m2, ids - {y}, account);
    }
  }

  /** Inserting an entry under a fresh id adds its contribution. */
  lemma AccountNetInsert(entries: map<EntryId, Entry>, id: EntryId, e: Entry, account: AccountId)
    requires id !in entries
    ensures AccountNet(entries[id := e], account) == AccountNet(entries, account) + Contribution(e, account)
  {
    var m := entries[id := e];
    NetOfPick(m, m.Keys, account, id);
    assert m.Keys - {id} == entries.Keys;
    NetOfFrame(m, entries, entries.Keys, account);
  }

  /** Removing an entry takes its contribution away. */
  lemma AccountNetRemove(entries: map<EntryId, Entry>, id: EntryId, account: AccountId)
    requires id in entries
    ensures AccountNet(entries - {id}, account) == AccountNet(entries, account) - Contribution(entries[id], account)
  {
    var m := entries - {id};
    NetOfPick(entries, entries.Keys, account, id);
    assert entries.Keys - {id} == m.Keys;
    NetOfFrame(entries, m, m.Keys, account);
  }

  /** Replacing an entry swaps its old contribution for the new one. */
  lemma AccountNetReplace(entries: map<EntryId, Entry>, id: EntryId, e: Entry, account: AccountId)
    requires id in entries
    ensures AccountNet(entries[id := e], account)
         == AccountNet(entries, account) - Contribution(entries[id], account) + Contribution(e, account)
  {
    var rest := entries - {id};
    assert entries[id := e] == rest[id := e];
    AccountNetRemove(entries, id, account);
    AccountNetInsert(rest, id, e, account);
  }
}
