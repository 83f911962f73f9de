/** The transaction pool object: two maps changed in place. */
module TransactionPools {
  import opened Types
  import opened PendingOrder
  import opened Mempool

  /** The values of a map in the order in which they happen to be enumerated. */
  method ValuesOf(m: map<Hash, Tx>) returns (txs: seq<Tx>)
    requires forall h | h in m :: m[h].hash == h
    ensures multiset(txs) == multiset(m.Values)
    ensures forall t :: t in txs <==> t.hash in m && m[t.hash] == t
  {
    txs := [];
    var rest := m;
    while rest != map[]
      invariant forall h | h in rest :: h in m && rest[h] == m[h]
      invariant forall i, j | 0 <= i < j < |txs| :: txs[i] != txs[j]
      invariant forall t :: t in txs <==> t.hash in m && m[t.hash] == t && t.hash !in rest
      decreases |rest|
    {
      var h :| h in rest;
      txs := txs + [rest[h]];
      rest := rest - {h};
    }
    ListsValues(m, txs);
  }

  lemma {:induction false} DistinctMultiset(s: seq<Tx>, txs: set<Tx>)
    requires forall i, j | 0 <= i < j < |s| :: s[i] != s[j]
    requires forall t :: t in s <==> t in txs
    ensures multiset(s) == multiset(txs)
  {
    if |s| > 0 {
      var init, last := s[..|s| - 1], s[|s| - 1];
      assert s == init + [last];
      assert last !in init;
      DistinctMultiset(init, txs - {last});
      assert multiset(txs) == multiset(txs - {last}) + multiset{last};
    }
  }

  lemma ListsValues(m: map<Hash, Tx>, txs: seq<Tx>)
    requires forall h | h in m :: m[h].hash == h
    requires forall i, j | 0 <= i < j < |txs| :: txs[i] != txs[j]
    requires forall t :: t in txs <==> t.hash in m && m[t.hash] == t
    ensures multiset(txs) == multiset(m.Values)
  {
    forall t ensures t in txs <==> t in m.Values {
      if t in txs {
        assert m[t.hash] == t;
      }
    }
    DistinctMultiset(txs, m.Values);
  }

  class TransactionPool {
    var pending: map<Hash, Tx>
    var queued: map<Hash, Tx>

    function Contents(): Pool
      reads this
    {
      Pool(pending, queued)
    }

    ghost predicate Valid()
      reads this
    {
      Contents().Valid()
    }

    constructor ()
      ensures Valid() && Contents() == EMPTY_POOL
    {
      pending, queued := map[], map[];
    }

    method Add(tx: Tx, accountNonce: nat) returns (added: bool)
      requires Valid()
      modifies this
      ensures Valid() && (Contents(), added) == Mempool.Add(old(Contents()), tx, accountNonce)
    {
      if tx.hash in pending || tx.hash in queued {
        return false;
      }
      if tx.Nonce() == accountNonce {
        pending := pending[tx.hash := tx];
      } else if tx.Nonce() > accountNonce {
        queued := queued[tx.hash := tx];
      } else {
        return false;
      }
      return true;
    }

    method Get(hash: Hash) returns (tx: Option<Tx>)
      requires Valid()
      ensures tx.Some? ==> tx.value.hash == hash && Contents().Contains(tx.value)
      ensures tx.None? ==> forall t | Contents().Contains(t) :: t.hash != hash
    {
      if hash in pending {
        return Some(pending[hash]);
      }
      if hash in queued {
        return Some(queued[hash]);
      }
      return None;
    }

    /** All pending transactions, the highest gas price first; when the comparator is an order on them
        this is the one sorted list, however the map enumerates its values. */
    method GetPending() returns (txs: seq<Tx>)
      requires Valid()
      ensures multiset(txs) == multiset(pending.Values)
      ensures forall t :: t in txs <==> Contents().IsPending(t)
      ensures PricesFall(txs)
      ensures StrictTotalOrder(pending.Values) ==> txs == Ordered(pending.Values) && TiesRanked(txs)
    {
      var values := ValuesOf(pending);
      txs := Sort(values);
      SortPrices(values);
      OrderedMeans(pending.Values);
      hide PricesFall, TiesRanked;
      if StrictTotalOrder(pending.Values) {
        SortIsOrdered(values, pending.Values);
      }
      SameElements(txs, values);
    }

    method GetQueued() returns (txs: seq<Tx>)
      requires Valid()
      ensures multiset(txs) == multiset(queued.Values)
      ensures forall t :: t in txs <==> Contents().IsQueued(t)
    {
      txs := ValuesOf(queued);
    }

    /** Goes through a copy of the queue and moves what has become executable. */
    method PromoteQueuedToPending(address: Address, newAccountNonce: nat)
      requires Valid()
      modifies this
      ensures Valid() && Contents() == Promote(old(Contents()), map[address := newAccountNonce])
    {
      hide Promote, PromotedBut;
      var rest := queued;
      ghost var due := map[address := newAccountNonce];
      ghost var start := Contents();
      PromoteEnds(start, due);
      while rest != map[]
        invariant rest.Keys <= start.queued.Keys && forall h | h in rest :: rest[h] == start.queued[h]
        invariant Contents() == PromotedBut(start, due, rest.Keys)
        decreases |rest|
      {
        var h :| h in rest;
        var tx := rest[h];
        PromoteStep(start, due, rest.Keys, h);
        if tx.from == address && tx.Nonce() == newAccountNonce {
          queued := queued - {tx.hash};
          pending := pending[tx.hash := tx];
        }
        rest := rest - {h};
      }
      PromoteValid(start, due);
    }

    method Remove(hash: Hash)
      requires Valid()
      modifies this
      ensures Valid() && Contents() == Mempool.Remove(old(Contents()), hash)
    {
      if hash in pending {
        pending := pending - {hash};
        return;
      }
      queued := queued - {hash};
    }
  }

  // ---------- The promotion loop ----------

  /** The pool when all queued transactions have been looked at but those with hashes in rest. */
  ghost function PromotedBut(p: Pool, due: map<Address, nat>, rest: set<Hash>): Pool {
    var ripe := RipePart(p.queued, due) - rest;
    Pool(p.pending + ripe, p.queued - ripe.Keys)
  }

  lemma PromoteEnds(p: Pool, due: map<Address, nat>)
    ensures PromotedBut(p, due, p.queued.Keys) == p
    ensures PromotedBut(p, due, {}) == Promote(p, due)
  {
    var ripe := RipePart(p.queued, due);
    assert ripe - p.queued.Keys == map[];
    assert ripe - {} == ripe;
    var none: map<Hash, Tx> := map[];
    assert p.pending + none == p.pending && p.queued - none.Keys == p.queued;
  }

  lemma RipeOne(p: Pool, due: map<Address, nat>, h: Hash)
    requires h in p.queued
    ensures var ripe := RipePart(p.queued, due);
      (h in ripe <==> Ripe(p.queued[h], due)) && (h in ripe ==> ripe[h] == p.queued[h])
  {
  }

  lemma PromoteStep(p: Pool, due: map<Address, nat>, rest: set<Hash>, h: Hash)
    requires h in rest && h in p.queued
    ensures
      var before, after := PromotedBut(p, due, rest), PromotedBut(p, due, rest - {h});
      after == if Ripe(p.queued[h], due) then Pool(before.pending[h := p.queued[h]], before.queued - {h}) else before
  {
    var ripe := RipePart(p.queued, due);
    hide RipePart, Ripe;
    RipeOne(p, due, h);
    if h in ripe {
      var some := ripe - rest;
      assert ripe - (rest - {h}) == some[h := p.queued[h]];
      assert p.pending + some[h := p.queued[h]] == (p.pending + some)[h := p.queued[h]];
      assert p.queued - some[h := p.queued[h]].Keys == p.queued - some.Keys - {h};
    } else {
      assert ripe - (rest - {h}) == ripe - rest;
    }
  }

  lemma PromoteValid(p: Pool, due: map<Address, nat>)
    requires p.Valid()
    ensures Promote(p, due).Valid()
  {
  }
}
