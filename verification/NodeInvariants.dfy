/** What holds in every reachable state of the node. */
module NodeInvariants {
  import opened Types
  import opened LedgerOps
  import opened PendingOrder
  import opened Mempool
  import opened TxRequests
  import opened BlockExecution
  import opened Consensus
  import opened Rewards
  import opened NodeMachine

  ghost predicate NodeInv(c: Crypto, s: Node) {
    && PoolInv(s.pool, s.accounts)
    && (forall t | s.pool.Contains(t) :: Genuine(c, t))
  }

  lemma SubmitKeepsNodeInv(c: Crypto, s: Node, r: Request, seen: Ledger)
    requires c.Valid() && NodeInv(c, s) && SameNonces(seen, s.accounts)
    ensures NodeInv(c, Receive(c, s, r, seen))
  {
    PoolInvNonces(s.pool, s.accounts, seen);
    SubmitKeepsInv(c, seen, s.pool, r);
    hide PoolInv, Submit;
  }

  lemma PoolAfterGenuine(c: Crypto, p: Pool, l: Ledger, txs: seq<Tx>)
    requires p.Valid() && forall t | p.Contains(t) :: Genuine(c, t)
    ensures forall t | PoolAfter(p, l, txs).Contains(t) :: Genuine(c, t)
  {
    PoolAfterMembers(p, l, txs);
    hide PoolAfter;
  }

  lemma ExecuteBlockPool(c: Crypto, p: Pool, l: Ledger)
    requires PoolInv(p, l) && forall t | p.Contains(t) :: Genuine(c, t)
    ensures
      var e := ExecuteBlock(p, l);
      && PoolInv(e.pool, e.ledger)
      && (forall t | e.pool.Contains(t) :: Genuine(c, t))
  {
    var txs := Ordered(p.pending.Values);
    OrderedTakes(p, l);
    BlockKeepsInv(p, l, txs);
    PoolAfterGenuine(c, p, ApplyAll(l, txs).0, txs);
    hide PoolInv, PoolAfter, ApplyAll, Ordered, Takes;
  }

  lemma AfterRewardsNonces(l: Ledger, slot: Slot)
    requires slot.RewardsFail() ==> SameNonces(slot.residue, l)
    ensures SameNonces(AfterRewards(l, slot), l)
  {
    DistributeNonces(l, slot.proposer, slot.Voters());
    DistributeTotal(l, slot.proposer, slot.Voters());
    hide Distribute;
  }

  lemma RewardsKeepPoolInv(p: Pool, l: Ledger, slot: Slot)
    requires PoolInv(p, l)
    requires slot.RewardsFail() ==> SameNonces(slot.residue, l)
    ensures PoolInv(p, AfterRewards(l, slot))
  {
    AfterRewardsNonces(l, slot);
    hide AfterRewards, PoolInv;
    PoolInvNonces(p, l, AfterRewards(l, slot));
  }

  /** The money supply over a slot whose block is saved and rewarded: what its failed
      transactions were charged is gone, the rewards are new, and no balance turned negative. */
  lemma SlotSupply(c: Crypto, s: Node, slot: Slot)
    requires s.chain != [] && slot.Saves() && !slot.RewardsFail()
    ensures
      var n, after := |slot.Voters()|, Produce(c, s, slot).accounts;
      && Total(after) == Total(slot.base) - TRANSFER_GAS * CountFees(ExecuteBlock(s.pool, slot.base).outcomes)
        + 2 * WEI_PER_DSTN + (if n == 0 then 0 else n * (WEI_PER_DSTN / n))
      && (Solvent(slot.base) ==> Solvent(after))
  {
    ApplyAllConserves(slot.base, Ordered(s.pool.pending.Values));
    var l := ExecuteBlock(s.pool, slot.base).ledger;
    DistributeTotal(l, slot.proposer, slot.Voters());
    DistributeNonces(l, slot.proposer, slot.Voters());
    hide ApplyAll, Ordered, PoolAfter, Distribute, Total, Solvent, CountFees, NewBlock, Attesters, HasSupermajority;
  }

  /** Who gets the rewards of such a slot. */
  lemma SlotPays(c: Crypto, s: Node, slot: Slot, x: Address)
    requires s.chain != [] && slot.Saves() && !slot.RewardsFail()
    ensures BalanceOf(Produce(c, s, slot).accounts, x)
      == BalanceOf(ExecuteBlock(s.pool, slot.base).ledger, x) + Paid(slot.proposer, slot.Voters(), x)
  {
    var l := ExecuteBlock(s.pool, slot.base).ledger;
    DistributeTotal(l, slot.proposer, slot.Voters());
    DistributePays(l, slot.proposer, slot.Voters(), x);
    hide ExecuteBlock, Distribute, Total, BalanceOf, Paid, NewBlock, Attesters, HasSupermajority;
  }

  /** A slot that is not abandoned keeps the node's invariant. */
  lemma ProduceKeepsNodeInv(c: Crypto, s: Node, slot: Slot)
    requires NodeInv(c, s) && s.chain != []
    requires !slot.RollsBack() && ResetKeepsNonces(s, ProduceSlot(slot))
    ensures NodeInv(c, Produce(c, s, slot))
  {
    hide PoolInv, ExecuteBlock, AfterRewards, NewBlock, Attesters, HasSupermajority;
    PoolInvNonces(s.pool, s.accounts, slot.base);
    ExecuteBlockPool(c, s.pool, slot.base);
    var e := ExecuteBlock(s.pool, slot.base);
    if slot.Saves() {
      RewardsKeepPoolInv(e.pool, e.ledger, slot);
    }
  }

  lemma AbandonedPool(p: Pool, l: Ledger, r: Ledger)
    requires PoolInv(p, l) && NoncesAtMost(r, ExecuteBlock(p, l).ledger)
    ensures
      var txs := Ordered(p.pending.Values);
      && (PoolInv(ExecuteBlock(p, l).pool, r) <==> SuccessorsReady(p, l, txs, r))
      && (PoolInv(Pool(map[], p.queued), r) <==> SuccessorsWait(p, l, txs, r))
  {
    var txs := Ordered(p.pending.Values);
    OrderedTakes(p, l);
    AbandonedPoolInvIff(p, l, txs, r);
    UnpromotedPoolInvIff(p, l, txs, r);
    hide PoolInv, PoolAfter, ApplyAll, Ordered, Takes, SuccessorsReady, SuccessorsWait;
  }

  lemma AbandonedPoolGenuine(c: Crypto, s: Node, slot: Slot)
    requires PoolInv(s.pool, slot.base) && forall t | s.pool.Contains(t) :: Genuine(c, t)
    ensures forall t | Abandon(s, slot).pool.Contains(t) :: Genuine(c, t)
  {
    ExecuteBlockPool(c, s.pool, slot.base);
    QueueGenuine(c, s.pool);
    hide PoolInv, ExecuteBlock, Genuine, Pool.Contains;
  }

  lemma QueueGenuine(c: Crypto, p: Pool)
    requires forall t | p.Contains(t) :: Genuine(c, t)
    ensures forall t | Pool(map[], p.queued).Contains(t) :: Genuine(c, t)
  {
    hide Genuine;
    forall t | Pool(map[], p.queued).Contains(t) ensures p.Contains(t) {
    }
  }

  /** An abandoned block, whatever a reset then makes of the accounts, as long as no nonce reads as
      higher than execution left it: the node keeps its invariant exactly if the successors of the
      block's charged transactions are where the nonces that are read put them. */
  lemma AbandonKeepsNodeInvIff(c: Crypto, s: Node, slot: Slot)
    requires NodeInv(c, s) && s.chain != [] && slot.RollsBack()
    requires SameNonces(slot.base, s.accounts) && ResidueBounded(s, slot)
    ensures NodeInv(c, Produce(c, s, slot)) <==> ResidueFits(s, slot)
  {
    assert Produce(c, s, slot) == Abandon(s, slot);
    hide PoolInv, ExecuteBlock, SuccessorsReady, SuccessorsWait, Ordered, Genuine, Slot.Justified, Produce,
      NoncesAtMost;
    PoolInvNonces(s.pool, s.accounts, slot.base);
    AbandonedPool(s.pool, slot.base, slot.residue);
    AbandonedPoolGenuine(c, s, slot);
  }

  /** If the accounts are put back as they were, that is: nothing had been promoted. */
  lemma AbandonWithOldNonces(c: Crypto, s: Node, slot: Slot)
    requires NodeInv(c, s) && s.chain != [] && slot.RollsBack()
    requires SameNonces(slot.base, s.accounts) && SameNonces(slot.residue, s.accounts)
    ensures NodeInv(c, Produce(c, s, slot)) <==>
      slot.fault == BeforePromotion || NothingPromoted(s.pool, slot.base, Ordered(s.pool.pending.Values))
  {
    var txs := Ordered(s.pool.pending.Values);
    PoolInvNonces(s.pool, s.accounts, slot.base);
    OrderedTakes(s.pool, slot.base);
    NonceBounds(slot.base, txs);
    ExtremeResets(s.pool, slot.base, txs, slot.residue);
    hide PoolInv, Produce, Ordered, ApplyAll, SuccessorsReady, SuccessorsWait, NothingPromoted, NodeInv, Takes,
      PoolAfter;
    AbandonKeepsNodeInvIff(c, s, slot);
  }

  /** If all the charged senders still read as raised, as they do while the cache holds the account
      objects that execution changed, a promoted successor is always where it belongs. */
  lemma AbandonWithNewNonces(c: Crypto, s: Node, slot: Slot)
    requires NodeInv(c, s) && s.chain != [] && slot.RollsBack() && SameNonces(slot.base, s.accounts)
    requires SameNonces(slot.residue, ExecuteBlock(s.pool, slot.base).ledger)
    ensures NodeInv(c, Produce(c, s, slot)) <==>
      slot.fault != BeforePromotion || NothingPromoted(s.pool, slot.base, Ordered(s.pool.pending.Values))
  {
    var txs := Ordered(s.pool.pending.Values);
    PoolInvNonces(s.pool, s.accounts, slot.base);
    OrderedTakes(s.pool, slot.base);
    ExtremeResets(s.pool, slot.base, txs, slot.residue);
    hide PoolInv, Produce, Ordered, ApplyAll, SuccessorsReady, SuccessorsWait, NothingPromoted, NodeInv, Takes,
      PoolAfter;
    AbandonKeepsNodeInvIff(c, s, slot);
  }

  lemma GenesisKeepsNodeInv(c: Crypto, alloc: seq<(Address, int)>, timestamp: nat)
    requires Genesis(c, alloc, timestamp).Some?
    ensures NodeInv(c, Genesis(c, alloc, timestamp).value) && Genesis(c, alloc, timestamp).value.chain != []
  {
    hide GenesisBlock;
  }

  lemma ChainNonempty(c: Crypto, s: Node, step: Step)
    requires s.chain != []
    ensures Next(c, s, step).chain != []
  {
    hide Submit, ExecuteBlock, AfterRewards, NewBlock;
  }

  lemma SkipKeepsNodeInv(c: Crypto, s: Node, slot: Slot)
    requires NodeInv(c, s) && SameNonces(slot.base, s.accounts) && slot.fault == BeforeExecution
    ensures NodeInv(c, Produce(c, s, slot))
  {
    hide PoolInv;
    PoolInvNonces(s.pool, s.accounts, slot.base);
  }

  lemma SteadyStepKeepsNodeInv(c: Crypto, s: Node, step: Step)
    requires c.Valid() && NodeInv(c, s) && s.chain != [] && SteadyStep(s, step)
    ensures NodeInv(c, Next(c, s, step))
  {
    hide Produce, Receive, NodeInv, ResidueBounded, ResidueFits, Slot.Justified;
    match step
    case SubmitRequest(r, seen) => SubmitKeepsNodeInv(c, s, r, seen);
    case ProduceSlot(slot) =>
      if slot.RollsBack() {
        AbandonKeepsNodeInvIff(c, s, slot);
      } else {
        ProduceKeepsNodeInv(c, s, slot);
      }
  }

  /** From a node that keeps the invariant, every steady run leads to nodes that keep it. */
  lemma {:induction false} SteadyKeepsNodeInv(c: Crypto, s: Node, steps: seq<Step>)
    requires c.Valid() && NodeInv(c, s) && s.chain != [] && Steady(c, s, steps)
    ensures NodeInv(c, Run(c, s, steps)) && Run(c, s, steps).chain != []
  {
    if |steps| > 0 {
      var init, step := steps[..|steps| - 1], steps[|steps| - 1];
      SteadyPrefix(c, s, steps);
      hide Next, NodeInv, SteadyStep, Steady;
      SteadyKeepsNodeInv(c, s, init);
      ChainNonempty(c, Run(c, s, init), step);
      SteadyStepKeepsNodeInv(c, Run(c, s, init), step);
    }
  }

  /** In every state reached from genesis by a steady run: the queues are disjoint, no two pooled
      transactions share sender and nonce, pending ones carry the account nonce and queued ones
      a larger one, and each is filed under a hash that identifies it. */
  lemma PoolInvariantHolds(c: Crypto, alloc: seq<(Address, int)>, timestamp: nat, steps: seq<Step>)
    requires c.Valid() && Genesis(c, alloc, timestamp).Some?
    requires Steady(c, Genesis(c, alloc, timestamp).value, steps)
    ensures
      var s := Run(c, Genesis(c, alloc, timestamp).value, steps);
      PoolInv(s.pool, s.accounts) && forall t | s.pool.Contains(t) :: Genuine(c, t)
  {
    GenesisKeepsNodeInv(c, alloc, timestamp);
    SteadyKeepsNodeInv(c, Genesis(c, alloc, timestamp).value, steps);
    hide Genesis, PoolInv, Steady, Run;
  }
}
