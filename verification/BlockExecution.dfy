/** What executing one block does to the account nonces and to the pool. */
module BlockExecution {
  import opened Types
  import opened LedgerOps
  import opened PendingOrder
  import opened Mempool
  import opened TxRequests

  ghost predicate DistinctSenders(txs: seq<Tx>) {
    forall i, j | 0 <= i < j < |txs| :: txs[i].from != txs[j].from
  }

  function Senders(txs: seq<Tx>): set<Address> {
    set i | 0 <= i < |txs| :: txs[i].from
  }

  /** The senders of a block with the account nonces they have reached. */
  function Due(l: Ledger, txs: seq<Tx>): map<Address, nat> {
    map a | a in Senders(txs) :: NonceOf(l, a)
  }

  /** The pool after a block: its transactions are gone, their senders' successors promoted. */
  function PoolAfter(p: Pool, l: Ledger, txs: seq<Tx>): Pool {
    Promote(Pool(map[], p.queued), Due(l, txs))
  }

  function Charge(o: Outcome): nat {
    if o == Unpaid then 0 else 1
  }

  lemma ApplyLast(l: Ledger, txs: seq<Tx>)
    requires |txs| > 0
    ensures
      var (l1, os) := ApplyAll(l, txs[..|txs| - 1]);
      var (l2, o) := ApplyTx(l1, txs[|txs| - 1]);
      ApplyAll(l, txs) == (l2, os + [o])
  {
    hide ApplyTx;
  }

  /** Each sender's nonce rises by one if its transaction was charged; no other nonce moves. */
  lemma {:induction false} NoncesMove(l: Ledger, txs: seq<Tx>)
    requires DistinctSenders(txs)
    ensures
      var (l', os) := ApplyAll(l, txs);
      && (forall i | 0 <= i < |txs| :: NonceOf(l', txs[i].from) == NonceOf(l, txs[i].from) + Charge(os[i]))
      && (forall a | a !in Senders(txs) :: NonceOf(l', a) == NonceOf(l, a))
  {
    if |txs| == 0 {
      assert ApplyAll(l, txs) == (l, []);
    } else {
      hide ApplyTx, ApplyAll, CanTransfer, NonceOf, Charge, BalanceAfter;
      var init, last := txs[..|txs| - 1], txs[|txs| - 1];
      NoncesMove(l, init);
      ApplyLast(l, txs);
      var (l1, os) := ApplyAll(l, init);
      ApplyTxMeaning(l1, last);
      var (l2, o) := ApplyTx(l1, last);
      LastIsNew(txs);
      NoncesMoveOnce(l, l1, l2, init, os, last, o);
      assert txs == init + [last];
    }
  }

  lemma LastIsNew(txs: seq<Tx>)
    requires DistinctSenders(txs) && |txs| > 0
    ensures txs[|txs| - 1].from !in Senders(txs[..|txs| - 1])
  {
  }

  lemma NoncesMoveOnce(l: Ledger, l1: Ledger, l2: Ledger, txs: seq<Tx>, os: seq<Outcome>, last: Tx, o: Outcome)
    requires |os| == |txs| && last.from !in Senders(txs)
    requires forall i | 0 <= i < |txs| :: NonceOf(l1, txs[i].from) == NonceOf(l, txs[i].from) + Charge(os[i])
    requires forall a | a !in Senders(txs) :: NonceOf(l1, a) == NonceOf(l, a)
    requires forall x :: NonceOf(l2, x) == NonceOf(l1, x) + if x == last.from && o != Unpaid then 1 else 0
    ensures
      var all, outcomes := txs + [last], os + [o];
      && (forall i | 0 <= i < |all| :: NonceOf(l2, all[i].from) == NonceOf(l, all[i].from) + Charge(outcomes[i]))
      && (forall a | a !in Senders(all) :: NonceOf(l2, a) == NonceOf(l, a))
  {
    var all := txs + [last];
    assert all[|txs|] == last && forall i | 0 <= i < |txs| :: all[i] == txs[i];
    assert Senders(all) == Senders(txs) + {last.from};
    hide NonceOf;
  }

  lemma {:induction false} OutcomesOfPrefix(l: Ledger, txs: seq<Tx>, i: nat)
    requires i < |txs|
    ensures ApplyAll(l, txs).1[i] == ApplyTx(ApplyAll(l, txs[..i]).0, txs[i]).1
  {
    if i < |txs| - 1 {
      OutcomesOfPrefix(l, txs[..|txs| - 1], i);
      assert txs[..|txs| - 1][..i] == txs[..i];
    }
  }

  /** txs lists the pending transactions once, one for each sender, at its account nonce. */
  ghost predicate Takes(p: Pool, l: Ledger, txs: seq<Tx>) {
    && DistinctSenders(txs)
    && (forall t :: t in txs <==> p.IsPending(t))
    && (forall i | 0 <= i < |txs| :: txs[i].Nonce() == NonceOf(l, txs[i].from))
  }

  lemma OrderedTakes(p: Pool, l: Ledger)
    requires PoolInv(p, l)
    ensures Takes(p, l, Ordered(p.pending.Values))
  {
    hide Ordered;
    BlockOrder(p, l);
    var txs := Ordered(p.pending.Values);
    assert forall i | 0 <= i < |txs| :: txs[i] in txs;
  }

  lemma AtNonce(l: Ledger, txs: seq<Tx>, i: nat)
    requires DistinctSenders(txs) && i < |txs|
    ensures NonceOf(ApplyAll(l, txs[..i]).0, txs[i].from) == NonceOf(l, txs[i].from)
  {
    hide ApplyAll;
    NoncesMove(l, txs[..i]);
  }

  /** Although execution checks no nonce, in a pool that keeps the invariant every transaction
      of the block meets exactly its sender's nonce at the moment it is executed. */
  lemma ExecutedAtAccountNonce(p: Pool, l: Ledger, i: nat)
    requires PoolInv(p, l) && i < |Ordered(p.pending.Values)|
    ensures
      var txs := Ordered(p.pending.Values);
      NonceOf(ApplyAll(l, txs[..i]).0, txs[i].from) == txs[i].Nonce()
  {
    hide Ordered, ApplyAll;
    OrderedTakes(p, l);
    AtNonce(l, Ordered(p.pending.Values), i);
  }

  // ---------- The pool after a block ----------

  lemma PoolAfterMembers(p: Pool, l: Ledger, txs: seq<Tx>)
    requires p.Valid()
    ensures
      var p' := PoolAfter(p, l, txs);
      && p'.Valid()
      && (forall t :: p'.IsPending(t) <==> p.IsQueued(t) && t.from in Senders(txs) && t.Nonce() == NonceOf(l, t.from))
      && (forall t :: p'.IsQueued(t) <==> p.IsQueued(t) && !(t.from in Senders(txs) && t.Nonce() == NonceOf(l, t.from)))
  {
  }

  lemma PoolAfterUnique(p: Pool, l: Ledger, txs: seq<Tx>)
    requires p.Valid() && forall t, u | p.Contains(t) && p.Contains(u) && SameSlot(t, u) :: t == u
    ensures
      var p' := PoolAfter(p, l, txs);
      forall t, u | p'.Contains(t) && p'.Contains(u) && SameSlot(t, u) :: t == u
  {
    PoolAfterMembers(p, l, txs);
    hide PoolAfter;
  }

  lemma NonceBounds(l: Ledger, txs: seq<Tx>)
    requires DistinctSenders(txs)
    ensures
      var l' := ApplyAll(l, txs).0;
      forall a :: NonceOf(l', a) == NonceOf(l, a) || (a in Senders(txs) && NonceOf(l', a) == NonceOf(l, a) + 1)
  {
    NoncesMove(l, txs);
    hide ApplyAll;
    var l' := ApplyAll(l, txs).0;
    forall a
      ensures NonceOf(l', a) == NonceOf(l, a) || (a in Senders(txs) && NonceOf(l', a) == NonceOf(l, a) + 1)
    {
      if a in Senders(txs) {
        var i :| 0 <= i < |txs| && txs[i].from == a;
      }
    }
  }

  /** The invariant holds again after a block, against the nonces the block has left. */
  lemma BlockKeepsInv(p: Pool, l: Ledger, txs: seq<Tx>)
    requires PoolInv(p, l) && Takes(p, l, txs)
    ensures
      var l' := ApplyAll(l, txs).0;
      PoolInv(PoolAfter(p, l', txs), l')
  {
    var l' := ApplyAll(l, txs).0;
    NonceBounds(l, txs);
    PoolAfterMembers(p, l', txs);
    PoolAfterUnique(p, l', txs);
    hide ApplyAll, PoolAfter, Takes;
  }

  // ---------- A block that is abandoned ----------

  /** The nonces of r are at most those of k. */
  ghost predicate NoncesAtMost(r: Ledger, k: Ledger) {
    forall a :: NonceOf(r, a) <= NonceOf(k, a)
  }

  /** The i-th transaction of the block was charged, and its sender has the next nonce in the pool. */
  ghost predicate HasSuccessor(p: Pool, l: Ledger, txs: seq<Tx>, i: nat)
    requires i < |txs|
  {
    ApplyAll(l, txs).1[i] != Unpaid && HasNonce(p, txs[i].from, txs[i].Nonce() + 1)
  }

  /** The block's charge against this sender is what is read: it was not undone. */
  predicate Raised(r: Ledger, tx: Tx) {
    NonceOf(r, tx.from) == tx.Nonce() + 1
  }

  /** Every successor that the block promotes is at the nonce that is read afterwards. */
  ghost predicate SuccessorsReady(p: Pool, l: Ledger, txs: seq<Tx>, r: Ledger) {
    forall i | 0 <= i < |txs| && HasSuccessor(p, l, txs, i) :: Raised(r, txs[i])
  }

  /** No successor that stayed in the queue is at the nonce that is read afterwards. */
  ghost predicate SuccessorsWait(p: Pool, l: Ledger, txs: seq<Tx>, r: Ledger) {
    forall i | 0 <= i < |txs| && HasSuccessor(p, l, txs, i) :: !Raised(r, txs[i])
  }

  /** No charged transaction of the block has a successor waiting in the queue. */
  ghost predicate NothingPromoted(p: Pool, l: Ledger, txs: seq<Tx>) {
    forall i | 0 <= i < |txs| :: !HasSuccessor(p, l, txs, i)
  }

  /** A queued transaction is ahead of what the block makes of its sender's nonce, unless it is the
      successor of a charged transaction; then it is exactly there. */
  lemma QueuedAfter(p: Pool, l: Ledger, txs: seq<Tx>, t: Tx) returns (i: nat)
    requires PoolInv(p, l) && Takes(p, l, txs) && p.IsQueued(t)
    ensures
      var l' := ApplyAll(l, txs).0;
      && t.Nonce() >= NonceOf(l', t.from)
      && (t.Nonce() == NonceOf(l', t.from) ==>
        && i < |txs| && txs[i].from == t.from && t.Nonce() == txs[i].Nonce() + 1 && HasSuccessor(p, l, txs, i))
  {
    NoncesMove(l, txs);
    hide ApplyAll;
    assert p.Contains(t) && t.Nonce() > NonceOf(l, t.from);
    i := 0;
    if t.from in Senders(txs) {
      i :| 0 <= i < |txs| && txs[i].from == t.from;
      assert txs[i].Nonce() == NonceOf(l, t.from);
      assert t.Nonce() == txs[i].Nonce() + 1 ==> HasNonce(p, t.from, txs[i].Nonce() + 1);
    }
  }

  /** The successor itself: queued before the block, at its sender's new nonce. */
  lemma Successor(p: Pool, l: Ledger, txs: seq<Tx>, i: nat) returns (t: Tx)
    requires PoolInv(p, l) && Takes(p, l, txs) && i < |txs| && HasSuccessor(p, l, txs, i)
    ensures p.IsQueued(t) && t.from == txs[i].from && t.from in Senders(txs)
    ensures t.Nonce() == txs[i].Nonce() + 1 == NonceOf(ApplyAll(l, txs).0, t.from)
  {
    NoncesMove(l, txs);
    hide ApplyAll;
    t :| p.Contains(t) && t.from == txs[i].from && t.Nonce() == txs[i].Nonce() + 1;
  }

  /** Where a queued transaction is after the block, and on which side of the nonce that is read. */
  lemma QueuedUnderReset(p: Pool, l: Ledger, txs: seq<Tx>, r: Ledger, t: Tx)
    requires PoolInv(p, l) && Takes(p, l, txs) && NoncesAtMost(r, ApplyAll(l, txs).0)
    requires SuccessorsReady(p, l, txs, r) && p.IsQueued(t)
    ensures
      if t.from in Senders(txs) && t.Nonce() == NonceOf(ApplyAll(l, txs).0, t.from)
      then t.Nonce() == NonceOf(r, t.from) else t.Nonce() > NonceOf(r, t.from)
  {
    var i := QueuedAfter(p, l, txs, t);
    hide ApplyAll, PoolInv, Takes, HasSuccessor;
    assert NonceOf(r, t.from) <= NonceOf(ApplyAll(l, txs).0, t.from);
    if t.Nonce() == NonceOf(ApplyAll(l, txs).0, t.from) {
      assert txs[i].from in Senders(txs);
      assert Raised(r, txs[i]);
    }
  }

  lemma ReadyPoolInv(p: Pool, l: Ledger, txs: seq<Tx>, r: Ledger)
    requires p.Valid() && forall t, u | p.Contains(t) && p.Contains(u) && SameSlot(t, u) :: t == u
    requires forall t | p.IsQueued(t) ::
      if t.from in Senders(txs) && t.Nonce() == NonceOf(l, t.from)
      then t.Nonce() == NonceOf(r, t.from) else t.Nonce() > NonceOf(r, t.from)
    ensures PoolInv(PoolAfter(p, l, txs), r)
  {
    PoolAfterMembers(p, l, txs);
    PoolAfterUnique(p, l, txs);
    hide PoolAfter, Senders, NonceOf;
  }

  lemma PromotedIsPending(p: Pool, l: Ledger, txs: seq<Tx>, t: Tx)
    requires p.Valid() && p.IsQueued(t) && t.from in Senders(txs) && t.Nonce() == NonceOf(l, t.from)
    ensures PoolAfter(p, l, txs).IsPending(t)
  {
    PoolAfterMembers(p, l, txs);
  }

  /** The pool of a block that was executed and then abandoned, against whatever nonces are read
      afterwards, as long as they are no higher than execution left them: the invariant holds
      exactly if each promoted successor's sender reads as raised. */
  lemma AbandonedPoolInvIff(p: Pool, l: Ledger, txs: seq<Tx>, r: Ledger)
    requires PoolInv(p, l) && Takes(p, l, txs) && NoncesAtMost(r, ApplyAll(l, txs).0)
    ensures PoolInv(PoolAfter(p, ApplyAll(l, txs).0, txs), r) <==> SuccessorsReady(p, l, txs, r)
  {
    var l' := ApplyAll(l, txs).0;
    if SuccessorsReady(p, l, txs, r) {
      forall t | p.IsQueued(t)
        ensures if t.from in Senders(txs) && t.Nonce() == NonceOf(l', t.from)
                then t.Nonce() == NonceOf(r, t.from) else t.Nonce() > NonceOf(r, t.from)
      {
        QueuedUnderReset(p, l, txs, r, t);
      }
      hide ApplyAll, PoolAfter, Takes, HasSuccessor, SuccessorsReady, NoncesAtMost, Senders, NonceOf;
      ReadyPoolInv(p, l', txs, r);
    } else {
      hide ApplyAll, PoolAfter, Takes, HasSuccessor, NoncesAtMost;
      var i :| 0 <= i < |txs| && HasSuccessor(p, l, txs, i) && !Raised(r, txs[i]);
      var t := Successor(p, l, txs, i);
      PromotedIsPending(p, l', txs, t);
    }
  }

  /** If the block is abandoned between execution and promotion, the invariant holds exactly if no
      successor's sender reads as raised. */
  lemma UnpromotedPoolInvIff(p: Pool, l: Ledger, txs: seq<Tx>, r: Ledger)
    requires PoolInv(p, l) && Takes(p, l, txs) && NoncesAtMost(r, ApplyAll(l, txs).0)
    ensures PoolInv(Pool(map[], p.queued), r) <==> SuccessorsWait(p, l, txs, r)
  {
    var l' := ApplyAll(l, txs).0;
    hide ApplyAll, Takes, HasSuccessor;
    var p' := Pool(map[], p.queued);
    assert forall t :: p'.IsQueued(t) <==> p.IsQueued(t);
    assert forall t | p'.Contains(t) :: p.Contains(t);
    if SuccessorsWait(p, l, txs, r) {
      forall t | p'.IsQueued(t) ensures t.Nonce() > NonceOf(r, t.from) {
        var i := QueuedAfter(p, l, txs, t);
        assert NonceOf(r, t.from) <= NonceOf(l', t.from);
      }
    }
    if PoolInv(p', r) {
      forall i | 0 <= i < |txs| && HasSuccessor(p, l, txs, i) ensures !Raised(r, txs[i]) {
        var t := Successor(p, l, txs, i);
        assert p'.IsQueued(t);
      }
    }
  }

  /** The two extreme cases. If the nonces are put back, nothing may have been promoted; if all of
      them stay raised, every promoted successor is where it belongs. */
  lemma ExtremeResets(p: Pool, l: Ledger, txs: seq<Tx>, r: Ledger)
    requires Takes(p, l, txs)
    ensures (forall a :: NonceOf(r, a) == NonceOf(l, a)) ==>
      (SuccessorsReady(p, l, txs, r) <==> NothingPromoted(p, l, txs)) && SuccessorsWait(p, l, txs, r)
    ensures (forall a :: NonceOf(r, a) == NonceOf(ApplyAll(l, txs).0, a)) ==>
      SuccessorsReady(p, l, txs, r) && (SuccessorsWait(p, l, txs, r) <==> NothingPromoted(p, l, txs))
  {
    NoncesMove(l, txs);
    hide ApplyAll, HasNonce;
    forall i | 0 <= i < |txs|
      ensures NonceOf(r, txs[i].from) == NonceOf(l, txs[i].from) ==> !Raised(r, txs[i])
      ensures HasSuccessor(p, l, txs, i) && NonceOf(r, txs[i].from) == NonceOf(ApplyAll(l, txs).0, txs[i].from) ==>
        Raised(r, txs[i])
    {
    }
  }

  /** When the nonces are put back, the pool of an abandoned block keeps its invariant exactly if
      the block promoted nothing. */
  lemma RollbackKeepsInvIff(p: Pool, l: Ledger, txs: seq<Tx>)
    requires PoolInv(p, l) && Takes(p, l, txs)
    ensures PoolInv(PoolAfter(p, ApplyAll(l, txs).0, txs), l) <==> NothingPromoted(p, l, txs)
  {
    NonceBounds(l, txs);
    AbandonedPoolInvIff(p, l, txs, l);
    ExtremeResets(p, l, txs, l);
  }
}
