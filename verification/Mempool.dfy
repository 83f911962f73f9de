/** The two queues of the transaction pool as values, and the invariant that block production
    relies on. */
module Mempool {
  import opened Types
  import opened LedgerOps
  import opened PendingOrder

  datatype Pool = Pool(pending: map<Hash, Tx>, queued: map<Hash, Tx>) {
    /** Every transaction is filed under its own hash, in one queue only. */
    ghost predicate Valid() {
      && (forall h | h in pending :: pending[h].hash == h)
      && (forall h | h in queued :: queued[h].hash == h)
      && pending.Keys !! queued.Keys
    }

    predicate IsPending(t: Tx) {
      t.hash in pending && pending[t.hash] == t
    }

    predicate IsQueued(t: Tx) {
      t.hash in queued && queued[t.hash] == t
    }

    predicate Contains(t: Tx) {
      IsPending(t) || IsQueued(t)
    }
  }

  const EMPTY_POOL := Pool(map[], map[])

  function Add(p: Pool, tx: Tx, accountNonce: nat): (Pool, bool) {
    if tx.hash in p.pending || tx.hash in p.queued then (p, false)
    else if tx.Nonce() == accountNonce then (p.(pending := p.pending[tx.hash := tx]), true)
    else if tx.Nonce() > accountNonce then (p.(queued := p.queued[tx.hash := tx]), true)
    else (p, false)
  }

  function Remove(p: Pool, h: Hash): Pool {
    if h in p.pending then p.(pending := p.pending - {h})
    else p.(queued := p.queued - {h})
  }

  /** due gives senders and the account nonces they have reached. */
  predicate Ripe(t: Tx, due: map<Address, nat>) {
    t.from in due && t.Nonce() == due[t.from]
  }

  function RipePart(queue: map<Hash, Tx>, due: map<Address, nat>): map<Hash, Tx> {
    map h | h in queue && Ripe(queue[h], due) :: queue[h]
  }

  /** Moves the queued transactions that have become executable to the pending queue. */
  function Promote(p: Pool, due: map<Address, nat>): Pool {
    var ripe := RipePart(p.queued, due);
    Pool(p.pending + ripe, p.queued - ripe.Keys)
  }

  lemma RipeSplits(queue: map<Hash, Tx>, due: map<Address, nat>, a: Address, n: nat)
    requires a !in due
    ensures
      var first := RipePart(queue, due);
      && RipePart(queue - first.Keys, map[a := n]) == RipePart(queue, map[a := n])
      && RipePart(queue, due[a := n]) == first + RipePart(queue, map[a := n])
  {
  }

  /** Promoting sender after sender is promoting all of them at once. */
  lemma PromoteOneMore(p: Pool, due: map<Address, nat>, a: Address, n: nat)
    requires a !in due
    ensures Promote(Promote(p, due), map[a := n]) == Promote(p, due[a := n])
  {
    RipeSplits(p.queued, due, a, n);
    var first, second := RipePart(p.queued, due), RipePart(p.queued, map[a := n]);
    assert p.pending + first + second == p.pending + (first + second);
    assert p.queued - first.Keys - second.Keys == p.queued - (first + second).Keys;
  }

  // ---------- The invariant ----------

  predicate SameSlot(t: Tx, u: Tx) {
    t.from == u.from && t.Nonce() == u.Nonce()
  }

  /** A pending transaction carries its sender's account nonce, a queued one a larger nonce,
      and no two pooled transactions carry the same nonce of the same sender. */
  ghost predicate PoolInv(p: Pool, l: Ledger) {
    && p.Valid()
    && (forall t | p.IsPending(t) :: t.Nonce() == NonceOf(l, t.from))
    && (forall t | p.IsQueued(t) :: t.Nonce() > NonceOf(l, t.from))
    && (forall t, u | p.Contains(t) && p.Contains(u) && SameSlot(t, u) :: t == u)
  }

  /** The pool agrees with every ledger that has the same nonces. */
  lemma PoolInvNonces(p: Pool, l: Ledger, k: Ledger)
    requires PoolInv(p, l) && forall a :: NonceOf(l, a) == NonceOf(k, a)
    ensures PoolInv(p, k)
  {
  }

  ghost predicate NonceFree(p: Pool, tx: Tx) {
    forall t | p.Contains(t) :: !SameSlot(t, tx)
  }

  /** Adding keeps the invariant when the pool holds nothing at the sender's nonce; and then it
      succeeds exactly when the hash is new and the nonce not too old. */
  lemma AddKeepsInv(p: Pool, l: Ledger, tx: Tx)
    requires PoolInv(p, l) && NonceFree(p, tx)
    ensures
      var (p', added) := Add(p, tx, NonceOf(l, tx.from));
      && PoolInv(p', l)
      && (added <==> tx.hash !in p.pending && tx.hash !in p.queued && tx.Nonce() >= NonceOf(l, tx.from))
      && (forall t :: p'.Contains(t) <==> p.Contains(t) || (added && t == tx))
  {
    var (p', added) := Add(p, tx, NonceOf(l, tx.from));
    if added {
      forall t, u | p'.Contains(t) && p'.Contains(u) && SameSlot(t, u) ensures t == u {
        assert t == tx || p.Contains(t);
        assert u == tx || p.Contains(u);
      }
    }
  }

  lemma PendingMembers(p: Pool)
    requires p.Valid()
    ensures forall t :: t in p.pending.Values <==> p.IsPending(t)
  {
    forall t ensures t in p.pending.Values <==> p.IsPending(t) {
      if t in p.pending.Values {
        var h :| h in p.pending && p.pending[h] == t;
      }
    }
  }

  /** In every pool that keeps the invariant the comparator is a strict total order on the
      pending transactions, of which there is at most one for each sender. */
  lemma PendingIsOrdered(p: Pool, l: Ledger)
    requires PoolInv(p, l)
    ensures StrictTotalOrder(p.pending.Values)
    ensures forall a, b | a in p.pending.Values && b in p.pending.Values && a.from == b.from :: a == b
  {
    var txs := p.pending.Values;
    PendingMembers(p);
    forall a, b | a in txs && b in txs ensures !Tie(a, b) && (a.from == b.from ==> a == b) {
      assert p.Contains(a) && p.Contains(b);
      assert a.from == b.from ==> SameSlot(a, b);
    }
    assert forall a, b, c | a in txs && b in txs && c in txs :: !Inversion(a, b, c);
    ComparatorIsOrderIff(txs);
  }

  /** The block order of such a pool: every pending transaction once, each sender at most once. */
  lemma BlockOrder(p: Pool, l: Ledger)
    requires PoolInv(p, l)
    ensures
      var txs := Ordered(p.pending.Values);
      && IsOrder(txs, p.pending.Values)
      && (forall t :: t in txs <==> p.IsPending(t))
      && (forall i, j | 0 <= i < j < |txs| :: txs[i].from != txs[j].from)
  {
    var txs := Ordered(p.pending.Values);
    PendingIsOrdered(p, l);
    OrderUnique(p.pending.Values, txs);
    DistinctElements(txs, p.pending.Values);
    PendingMembers(p);
    forall i, j | 0 <= i < j < |txs| ensures txs[i].from != txs[j].from {
      assert txs[i] in txs && txs[j] in txs;
    }
  }
}
