/** What the repository's operations preserve and how they relate to each
    other: the balance invariant, the store's well-formedness, the
    create/delete round trip, idempotent updates and order-independent
    creates. */
module LedgerInvariant {
  import opened LedgerTypes
  import opened Balance
  import opened TransactionRepository

  /** What the database schema guarantees: every id is below the
      auto-increment counter, and every entry's account exists. */
  ghost predicate WellFormed(s: Store) {
    && (forall id :: id in s.entries ==> id < s.nextId)
    && (forall id :: id in s.entries ==> s.entries[id].accountId in s.balances)
  }

  /** One call to the repository. */
  datatype Op =
    | CreateOp(input: CreateInput, now: Instant)
    | UpdateOp(patch: UpdateInput)
    | DeleteOp(id: EntryId)

  /** The store after one call, whether it succeeded or failed. */
  function Apply(s: Store, op: Op): Store {
    match op
    case CreateOp(p, now) => Create(s, p, now).store
    case UpdateOp(p) => Update(s, p).store
    case DeleteOp(id) => Delete(s, id).store
  }

  /** The store after a sequence of calls. */
  function Run(s: Store, ops: seq<Op>): Store
    decreases |ops|
  {
    if ops == [] then s else Run(Apply(s, ops[0]), ops[1..])
  }

  // ---------------------------------------------------------------------------
  // The balance invariant
  // ---------------------------------------------------------------------------

  lemma CreatePreservesConsistency(s: Store, base: map<AccountId, int>, p: CreateInput, now: Instant)
    requires Consistent(s, base)
    ensures Consistent(Create(s, p, now).store, base)
  {
    var r := Create(s, p, now);
    if r.result.Ok? {
      var t := r.result.value;
      assert r.store.entries == s.entries[t.id := t.entry];
      forall a | a in r.store.balances
        ensures a in base && r.store.balances[a] == base[a] + AccountNet(r.store.entries, a)
      {
        AccountNetInsert(s.entries, t.id, t.entry, a);
      }
    }
  }

  lemma UpdatePreservesConsistency(s: Store, base: map<AccountId, int>, p: UpdateInput)
    requires Consistent(s, base)
    ensures Consistent(Update(s, p).store, base)
  {
    var r := Update(s, p);
    if r.result.Ok? {
      forall a | a in r.store.balances
        ensures a in base && r.store.balances[a] == base[a] + AccountNet(r.store.entries, a)
      {
        AccountNetReplace(s.entries, p.id, r.result.value.entry, a);
      }
    }
  }

  lemma DeletePreservesConsistency(s: Store, base: map<AccountId, int>, id: EntryId)
    requires Consistent(s, base)
    ensures Consistent(Delete(s, id).store, base)
  {
    var r := Delete(s, id);
    if r.result.Ok? {
      assert r.store.entries == s.entries - {id};
      forall a | a in r.store.balances
        ensures a in base && r.store.balances[a] == base[a] + AccountNet(r.store.entries, a)
      {
        AccountNetRemove(s.entries, id, a);
      }
    }
  }

  /** The invariant holds after every call of any sequence of calls. */
  lemma {:induction false} RunPreservesConsistency(s: Store, base: map<AccountId, int>, ops: seq<Op>)
    requires Consistent(s, base)
    ensures Consistent(Run(s, ops), base)
    decreases |ops|
  {
    if ops != [] {
      match ops[0] {
        case CreateOp(p, now) => CreatePreservesConsistency(s, base, p, now);
        case UpdateOp(p) => UpdatePreservesConsistency(s, base, p);
        case DeleteOp(id) => DeletePreservesConsistency(s, base, id);
      }
      RunPreservesConsistency(Apply(s, ops[0]), base, ops[1..]);
    }
  }

  // ---------------------------------------------------------------------------
  // Well-formedness and when calls fail
  // ---------------------------------------------------------------------------

  /** On a well-formed store, create fails only for an unknown account. */
  lemma CreateOnWellFormed(s: Store, p: CreateInput, now: Instant)
    requires WellFormed(s)
    ensures Create(s, p, now).result.Ok? <==> p.accountId in s.balances
    ensures WellFormed(Create(s, p, now).store)
  {
  }

  /** On a well-formed store, update fails only for a missing entry, another
      user's entry or a change of account. */
  lemma UpdateOnWellFormed(s: Store, p: UpdateInput)
    requires WellFormed(s)
    ensures Update(s, p).result.Ok? <==>
      p.id in s.entries && s.entries[p.id].userId == p.userId && s.entries[p.id].accountId == p.accountId
    ensures WellFormed(Update(s, p).store)
  {
  }

  /** On a well-formed store, delete fails only for a missing entry. */
  lemma DeleteOnWellFormed(s: Store, id: EntryId)
    requires WellFormed(s)
    ensures Delete(s, id).result.Ok? <==> id in s.entries
    ensures WellFormed(Delete(s, id).store)
  {
  }

  // ---------------------------------------------------------------------------
  // Relations between calls
  // ---------------------------------------------------------------------------

  /** Deleting the entry a create just made restores the balances and the
      entries the store had before the create. */
  lemma DeleteUndoesCreate(s: Store, p: CreateInput, now: Instant)
    requires Create(s, p, now).result.Ok?
    ensures
      var c := Create(s, p, now);
      var d := Delete(c.store, c.result.value.id);
      && d.result.Ok?
      && d.store.balances == s.balances
      && d.store.entries == s.entries
  {
  }

  /** An update that supplies neither a kind nor an amount leaves every balance as it was. */
  lemma UpdateWithoutAmountKeepsBalances(s: Store, p: UpdateInput)
    requires p.kind.None? && p.amount.None?
    ensures Update(s, p).store.balances == s.balances
  {
  }

  /** An update with every field unspecified leaves the store as it was. */
  lemma EmptyUpdateChangesNothing(s: Store, p: UpdateInput)
    requires p.kind.None? && p.amount.None? && p.categoryId.None? && p.txnDate.None? && p.description.None?
    ensures Update(s, p).store == s
  {
  }

  /** Sending the same update twice has the effect of sending it once. */
  lemma UpdateIsIdempotent(s: Store, p: UpdateInput)
    requires Update(s, p).result.Ok?
    ensures Update(Update(s, p).store, p) == Update(s, p)
  {
  }

  /** Two creates leave the balances the same in whichever order they run. */
  lemma CreatesCommuteOnBalances(s: Store, p1: CreateInput, now1: Instant, p2: CreateInput, now2: Instant)
    requires WellFormed(s)
    requires p1.accountId in s.balances && p2.accountId in s.balances
    ensures
      var a := Create(Create(s, p1, now1).store, p2, now2);
      var b := Create(Create(s, p2, now2).store, p1, now1);
      && a.result.Ok? && b.result.Ok?
      && a.store.balances == b.store.balances
  {
  }
}
