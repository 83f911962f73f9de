/** What becomes of accepted transactions: none is lost, none is doubled, and the chain holds
    each sender's nonces in order. */
module NodeHistory {
  import opened Types
  import opened LedgerOps
  import opened PendingOrder
  import opened Mempool
  import opened TxRequests
  import opened BlockExecution
  import opened NodeMachine
  import opened NodeInvariants
  import opened Consensus

  function Txs(log: seq<Included>): (r: seq<Tx>)
    ensures |r| == |log|
  {
    seq(|log|, i requires 0 <= i < |log| => log[i].tx)
  }

  // ---------- Conservation, over every run ----------

  function Pooled(p: Pool): multiset<Tx> {
    multiset(p.pending.Values) + multiset(p.queued.Values)
  }

  /** Whatever was accepted is in a saved block, was dropped with an unsaved one, or is pooled,
      as often as it was accepted. */
  ghost predicate Conserved(s: Node) {
    && s.pool.Valid()
    && multiset(s.accepted) == multiset(Txs(s.log)) + multiset(s.dropped) + Pooled(s.pool)
  }

  lemma FreshValue(m: map<Hash, Tx>, t: Tx)
    requires (forall h | h in m :: m[h].hash == h) && t.hash !in m
    ensures multiset(m[t.hash := t].Values) == multiset(m.Values) + multiset{t}
  {
    assert m[t.hash := t].Values == m.Values + {t} by {
      forall x | x in m.Values ensures x in m[t.hash := t].Values {
        var h :| h in m && m[h] == x;
        assert m[t.hash := t][h] == x;
      }
      assert m[t.hash := t][t.hash] == t;
    }
    assert t !in m.Values;
  }

  lemma AddValid(p: Pool, tx: Tx, n: nat)
    requires p.Valid()
    ensures Add(p, tx, n).0.Valid()
  {
  }

  lemma AddPooled(p: Pool, tx: Tx, n: nat)
    requires p.Valid()
    ensures
      var (p', added) := Add(p, tx, n);
      Pooled(p') == Pooled(p) + if added then multiset{tx} else multiset{}
  {
    hide Pool.Valid, Pooled;
    if tx.hash !in p.pending && tx.hash !in p.queued {
      FreshPooled(p, tx);
    }
  }

  lemma FreshPooled(p: Pool, tx: Tx)
    requires p.Valid() && tx.hash !in p.pending && tx.hash !in p.queued
    ensures Pooled(p.(pending := p.pending[tx.hash := tx])) == Pooled(p) + multiset{tx}
    ensures Pooled(p.(queued := p.queued[tx.hash := tx])) == Pooled(p) + multiset{tx}
  {
    FreshValue(p.pending, tx);
    FreshValue(p.queued, tx);
    hide Pool.Valid;
  }

  lemma SubmitPooled(c: Crypto, l: Ledger, p: Pool, r: Request)
    requires p.Valid()
    ensures
      var (p', response) := Submit(c, l, p, r);
      && p'.Valid()
      && Pooled(p') == Pooled(p) + if response.Accepted? then multiset{response.tx} else multiset{}
  {
    hide BuildTx, Validate, Add, Pooled;
    if BuildTx(c, r).Some? {
      var tx := BuildTx(c, r).value;
      AddValid(p, tx, NonceOf(l, tx.from));
      AddPooled(p, tx, NonceOf(l, tx.from));
    }
  }

  lemma SplitValues(m: map<Hash, Tx>, part: map<Hash, Tx>)
    requires forall h | h in m :: m[h].hash == h
    requires forall h | h in part :: h in m && part[h] == m[h]
    ensures multiset(part.Values) + multiset((m - part.Keys).Values) == multiset(m.Values)
  {
    var rest := m - part.Keys;
    forall x ensures x in m.Values <==> x in part.Values || x in rest.Values {
      if x in m.Values {
        assert x.hash in m && m[x.hash] == x;
        assert if x.hash in part then part[x.hash] == x else rest[x.hash] == x;
      }
    }
    assert forall x | x in part.Values :: x.hash in part;
    assert forall x | x in rest.Values :: x.hash in rest;
    assert part.Values !! rest.Values;
    assert part.Values + rest.Values == m.Values;
  }

  lemma PromotedValues(p: Pool, due: map<Address, nat>)
    requires p.Valid() && p.pending == map[]
    ensures Promote(p, due).Valid() && Pooled(Promote(p, due)) == multiset(p.queued.Values)
  {
    var ripe := RipePart(p.queued, due);
    SplitValues(p.queued, ripe);
    assert p.pending + ripe == ripe;
  }

  lemma BlockPooled(p: Pool, l: Ledger)
    requires p.Valid()
    ensures
      var e := ExecuteBlock(p, l);
      e.pool.Valid() && multiset(e.txs) + Pooled(e.pool) == Pooled(p)
  {
    var txs := Ordered(p.pending.Values);
    var l' := ApplyAll(l, txs).0;
    PromotedValues(Pool(map[], p.queued), Due(l', txs));
    hide Promote, ApplyAll, Ordered, Due;
  }

  lemma UnpromotedPooled(p: Pool, l: Ledger)
    requires p.Valid()
    ensures
      var q := Pool(map[], p.queued);
      q.Valid() && multiset(ExecuteBlock(p, l).txs) + Pooled(q) == Pooled(p)
  {
    assert ExecuteBlock(p, l).txs == Ordered(p.pending.Values);
    assert multiset(Ordered(p.pending.Values)) == multiset(p.pending.Values);
    QueueOnly(p);
    hide ExecuteBlock, Ordered, Pool.Valid, Pooled;
  }

  lemma QueueOnly(p: Pool)
    requires p.Valid()
    ensures
      var q := Pool(map[], p.queued);
      q.Valid() && multiset(p.pending.Values) + Pooled(q) == Pooled(p)
  {
    var none: map<Hash, Tx> := map[];
    assert none.Values == {};
  }

  lemma TxsOfLog(log: seq<Included>, txs: seq<Tx>, os: seq<Outcome>)
    requires |os| == |txs|
    ensures Txs(log + Log(txs, os)) == Txs(log) + txs
  {
  }

  lemma AppendAccepted(s: Node, c: Crypto, r: Request, seen: Ledger)
    requires Conserved(s)
    ensures Conserved(Receive(c, s, r, seen))
  {
    SubmitPooled(c, seen, s.pool, r);
    hide Submit, Txs;
  }

  lemma SameHistory(s: Node, l: Ledger)
    requires Conserved(s)
    ensures Conserved(s.(accounts := l))
  {
  }

  lemma AbandonConserves(s: Node, slot: Slot)
    requires Conserved(s)
    ensures Conserved(Abandon(s, slot)) && Conserved(CommitOnly(s, slot))
  {
    hide ExecuteBlock, Pooled, Txs, Pool.Valid;
    BlockPooled(s.pool, slot.base);
    UnpromotedPooled(s.pool, slot.base);
  }

  lemma CommitConserves(c: Crypto, s: Node, slot: Slot)
    requires Conserved(s)
    ensures s.chain != [] ==> Conserved(CommitAndSave(c, s, slot))
  {
    hide AfterRewards, NewBlock, ExecuteBlock, Pooled, Txs, Log, Pool.Valid;
    BlockPooled(s.pool, slot.base);
    var e := ExecuteBlock(s.pool, slot.base);
    TxsOfLog(s.log, e.txs, e.outcomes);
  }

  lemma ProduceConserves(c: Crypto, s: Node, slot: Slot)
    requires Conserved(s)
    ensures Conserved(Produce(c, s, slot))
  {
    hide AfterRewards, NewBlock, Abandon, CommitOnly, CommitAndSave, Conserved, Slot.RollsBack;
    AbandonConserves(s, slot);
    CommitConserves(c, s, slot);
    SameHistory(s, slot.base);
  }

  /** No step of any run, interrupted, abandoned or not, loses or doubles a transaction. */
  lemma {:induction false} NothingLost(c: Crypto, s: Node, steps: seq<Step>)
    requires Conserved(s)
    ensures Conserved(Run(c, s, steps))
  {
    if |steps| > 0 {
      var init, step := steps[..|steps| - 1], steps[|steps| - 1];
      NothingLost(c, s, init);
      hide Produce, Receive, Conserved;
      match step
      case SubmitRequest(r, seen) => AppendAccepted(Run(c, s, init), c, r, seen);
      case ProduceSlot(slot) => ProduceConserves(c, Run(c, s, init), slot);
    }
  }

  // ---------- The nonces of one sender in the chain ----------

  /** The nonces of a sender's included transactions in chain order; of all of them, or of those
      that were charged. */
  function SenderNonces(log: seq<Included>, a: Address, chargedOnly: bool): seq<int> {
    if |log| == 0 then []
    else
      var last := log[|log| - 1];
      SenderNonces(log[..|log| - 1], a, chargedOnly)
      + if last.tx.from == a && (chargedOnly ==> last.outcome != Unpaid) then [last.tx.Nonce()] else []
  }

  function UpTo(n: nat): (r: seq<int>)
    ensures |r| == n
  {
    seq(n, i => i)
  }

  /** The charged transactions of every sender carry 0, 1, 2, ... up to the account nonce. */
  ghost predicate InOrder(s: Node) {
    forall a :: SenderNonces(s.log, a, true) == UpTo(NonceOf(s.accounts, a))
  }

  lemma InOrderOne(log: seq<Included>, l: Ledger, tx: Tx, a: Address)
    requires SenderNonces(log, a, true) == UpTo(NonceOf(l, a))
    requires tx.Nonce() == NonceOf(l, tx.from)
    ensures
      var (l', o) := ApplyTx(l, tx);
      SenderNonces(log + [Included(tx, o)], a, true) == UpTo(NonceOf(l', a))
  {
    ApplyTxMeaning(l, tx);
    hide ApplyTx;
    var (l', o) := ApplyTx(l, tx);
    assert (log + [Included(tx, o)])[..|log|] == log;
    if tx.from == a && o != Unpaid {
      assert UpTo(NonceOf(l, a) + 1) == UpTo(NonceOf(l, a)) + [NonceOf(l, a) as int];
    }
  }

  lemma LogGrows(log: seq<Included>, txs: seq<Tx>, os: seq<Outcome>, tx: Tx, o: Outcome)
    requires |os| == |txs|
    ensures log + Log(txs + [tx], os + [o]) == log + Log(txs, os) + [Included(tx, o)]
  {
  }

  lemma {:induction false} InOrderBlock(log: seq<Included>, l: Ledger, txs: seq<Tx>, a: Address)
    requires SenderNonces(log, a, true) == UpTo(NonceOf(l, a))
    requires DistinctSenders(txs) && forall i | 0 <= i < |txs| :: txs[i].Nonce() == NonceOf(l, txs[i].from)
    ensures
      var (l', os) := ApplyAll(l, txs);
      SenderNonces(log + Log(txs, os), a, true) == UpTo(NonceOf(l', a))
  {
    if |txs| == 0 {
      assert log + Log(txs, []) == log;
    } else {
      var init, last := txs[..|txs| - 1], txs[|txs| - 1];
      var (l1, os) := ApplyAll(l, init);
      var (l2, o) := ApplyTx(l1, last);
      assert ApplyAll(l, txs) == (l2, os + [o]);
      hide ApplyTx, ApplyAll, SenderNonces, NonceOf, UpTo, Log;
      InOrderBlock(log, l, init, a);
      AtNonce(l, txs, |init|);
      InOrderOne(log + Log(init, os), l1, last, a);
      LogGrows(log, init, os, last, o);
      assert txs == init + [last];
    }
  }

  /** Every slot is skipped or saves its block. */
  ghost predicate EveryBlockSaved(steps: seq<Step>) {
    forall i | 0 <= i < |steps| && steps[i].ProduceSlot? ::
      steps[i].slot.fault == BeforeExecution || steps[i].slot.Saves()
  }

  lemma SaveInOrder(c: Crypto, s: Node, slot: Slot)
    requires NodeInv(c, s) && s.chain != [] && InOrder(s)
    requires slot.Saves() && ResetKeepsNonces(s, ProduceSlot(slot))
    ensures InOrder(CommitAndSave(c, s, slot))
  {
    PoolInvNonces(s.pool, s.accounts, slot.base);
    OrderedTakes(s.pool, slot.base);
    var txs := Ordered(s.pool.pending.Values);
    var (l, os) := ApplyAll(slot.base, txs);
    AfterRewardsNonces(l, slot);
    var s' := CommitAndSave(c, s, slot);
    assert s'.log == s.log + Log(txs, os) && s'.accounts == AfterRewards(l, slot);
    hide AfterRewards, NewBlock, ApplyAll, PoolInv, PoolAfter, CommitAndSave, ExecuteBlock, SenderNonces;
    forall a ensures SenderNonces(s'.log, a, true) == UpTo(NonceOf(s'.accounts, a)) {
      InOrderBlock(s.log, slot.base, txs, a);
    }
  }

  lemma StepInOrder(c: Crypto, s: Node, step: Step)
    requires c.Valid() && NodeInv(c, s) && s.chain != [] && InOrder(s) && ResetKeepsNonces(s, step)
    requires step.ProduceSlot? ==> step.slot.fault == BeforeExecution || step.slot.Saves()
    ensures InOrder(Next(c, s, step))
    ensures s.dropped == [] ==> Next(c, s, step).dropped == []
  {
    if step.ProduceSlot? && step.slot.Saves() {
      SaveInOrder(c, s, step.slot);
    }
    hide Submit, NodeInv, ExecuteBlock, CommitOnly, Abandon, SenderNonces, Attesters, NewBlock;
  }

  /** On every steady run whose slots all save their blocks, the chain holds each sender's
      charged transactions at the nonces 0, 1, 2, ... in this order, up to its account nonce. */
  lemma {:induction false} ChainNoncesInOrder(c: Crypto, s: Node, steps: seq<Step>)
    requires c.Valid() && NodeInv(c, s) && s.chain != [] && InOrder(s)
    requires Steady(c, s, steps) && EveryBlockSaved(steps)
    ensures InOrder(Run(c, s, steps))
    ensures s.dropped == [] ==> Run(c, s, steps).dropped == []
  {
    if |steps| > 0 {
      var init, step := steps[..|steps| - 1], steps[|steps| - 1];
      SteadyPrefix(c, s, steps);
      ChainNoncesInOrder(c, s, init);
      SteadyKeepsNodeInv(c, s, init);
      hide Next, NodeInv, InOrder, ResetKeepsNonces;
      StepInOrder(c, Run(c, s, init), step);
    }
  }

  // ---------- Exactly one place ----------

  ghost predicate AllCharged(log: seq<Included>) {
    forall i | 0 <= i < |log| :: log[i].outcome != Unpaid
  }

  lemma {:induction false} ChargedCount(log: seq<Included>, a: Address)
    ensures |SenderNonces(log, a, true)| <= |SenderNonces(log, a, false)|
    ensures |SenderNonces(log, a, true)| == |SenderNonces(log, a, false)| <==>
      forall i | 0 <= i < |log| && log[i].tx.from == a :: log[i].outcome != Unpaid
    ensures (forall i | 0 <= i < |log| && log[i].tx.from == a :: log[i].outcome != Unpaid) ==>
      SenderNonces(log, a, true) == SenderNonces(log, a, false)
  {
    if |log| > 0 {
      ChargedCount(log[..|log| - 1], a);
    }
  }

  /** All included transactions of a sender carry 0, 1, 2, ... up to its account nonce exactly
      when each of them was charged. */
  lemma SenderNoncesIff(s: Node, a: Address)
    requires InOrder(s)
    ensures SenderNonces(s.log, a, false) == UpTo(NonceOf(s.accounts, a)) <==>
      forall i | 0 <= i < |s.log| && s.log[i].tx.from == a :: s.log[i].outcome != Unpaid
  {
    ChargedCount(s.log, a);
  }

  /** A transaction is in the log no more often than its nonce among its sender's. */
  lemma {:induction false} LogCount(log: seq<Included>, t: Tx)
    ensures multiset(Txs(log))[t] <= multiset(SenderNonces(log, t.from, false))[t.Nonce()]
  {
    if |log| > 0 {
      var init, last := log[..|log| - 1], log[|log| - 1];
      LogCount(init, t);
      assert Txs(log) == Txs(init) + [last.tx];
      hide Txs;
      assert multiset(Txs(log)) == multiset(Txs(init)) + multiset{last.tx};
    }
  }

  lemma {:induction false} UpToCount(n: nat, k: int)
    ensures multiset(UpTo(n))[k] == if 0 <= k < n then 1 else 0
  {
    if n > 0 {
      UpToCount(n - 1, k);
      assert UpTo(n) == UpTo(n - 1) + [n - 1];
    }
  }

  lemma PooledCount(p: Pool, t: Tx)
    requires p.Valid()
    ensures Pooled(p)[t] == if p.Contains(t) then 1 else 0
    ensures !(p.IsPending(t) && p.IsQueued(t))
  {
    assert t in p.pending.Values <==> p.IsPending(t);
    assert t in p.queued.Values <==> p.IsQueued(t);
  }

  /** When every included transaction was charged and no block was dropped, an accepted
      transaction was accepted once, and it is in exactly one place: pending, queued or chain. */
  lemma ExactlyOnePlace(c: Crypto, s: Node, t: Tx)
    requires NodeInv(c, s) && Conserved(s) && InOrder(s) && AllCharged(s.log) && s.dropped == []
    ensures
      var inChain := multiset(Txs(s.log))[t];
      && multiset(s.accepted)[t] <= 1
      && (t in s.accepted <==> s.pool.IsPending(t) || s.pool.IsQueued(t) || inChain > 0)
      && !(s.pool.IsPending(t) && s.pool.IsQueued(t))
      && (inChain > 0 ==> inChain == 1 && !s.pool.Contains(t))
  {
    LogCount(s.log, t);
    SenderNoncesIff(s, t.from);
    UpToCount(NonceOf(s.accounts, t.from), t.Nonce());
    PooledCount(s.pool, t);
    assert t in s.accepted <==> t in multiset(s.accepted);
    assert multiset(s.accepted)[t] == multiset(Txs(s.log))[t] + Pooled(s.pool)[t];
    assert s.pool.Contains(t) ==> t.Nonce() >= NonceOf(s.accounts, t.from);
  }

  lemma GenesisHistory(c: Crypto, alloc: seq<(Address, int)>, timestamp: nat)
    requires Genesis(c, alloc, timestamp).Some?
    ensures
      var g := Genesis(c, alloc, timestamp).value;
      Conserved(g) && InOrder(g) && g.dropped == []
  {
    hide GenesisBlock;
    AllocateNonces(alloc);
  }

  lemma {:induction false} AllocateNonces(alloc: seq<(Address, int)>)
    ensures forall a :: NonceOf(Allocate(map[], alloc).ledger, a) == 0
  {
    if |alloc| > 0 {
      var init, last := alloc[..|alloc| - 1], alloc[|alloc| - 1];
      AllocateNonces(init);
      var l := Allocate(map[], init).ledger;
      assert forall a :: NonceOf(AddBalance(l, last.0, last.1).ledger, a) == NonceOf(l, a);
    }
  }

  /** The same from genesis: on a steady run whose slots all save their blocks and whose included
      transactions were all charged, every sender's nonces in the chain are 0, 1, 2, ..., and
      every accepted transaction is in exactly one of pending, queued and chain. */
  lemma LifeOfTransactions(c: Crypto, alloc: seq<(Address, int)>, timestamp: nat, steps: seq<Step>)
    requires c.Valid() && Genesis(c, alloc, timestamp).Some? && EveryBlockSaved(steps)
    requires Steady(c, Genesis(c, alloc, timestamp).value, steps)
    requires AllCharged(Run(c, Genesis(c, alloc, timestamp).value, steps).log)
    ensures
      var s := Run(c, Genesis(c, alloc, timestamp).value, steps);
      && (forall a :: SenderNonces(s.log, a, false) == UpTo(NonceOf(s.accounts, a)))
      && (forall t | t in s.accepted ::
        && multiset(s.accepted)[t] == 1
        && var inChain := multiset(Txs(s.log))[t];
          || (s.pool.IsPending(t) && !s.pool.IsQueued(t) && inChain == 0)
          || (!s.pool.IsPending(t) && s.pool.IsQueued(t) && inChain == 0)
          || (!s.pool.Contains(t) && inChain == 1))
  {
    var g := Genesis(c, alloc, timestamp).value;
    var s := Run(c, g, steps);
    GenesisKeepsNodeInv(c, alloc, timestamp);
    GenesisHistory(c, alloc, timestamp);
    NothingLost(c, g, steps);
    ChainNoncesInOrder(c, g, steps);
    SteadyKeepsNodeInv(c, g, steps);
    hide NodeInv, Conserved, Genesis, Run, Steady, SenderNonces, Txs, InOrder;
    forall a ensures SenderNonces(s.log, a, false) == UpTo(NonceOf(s.accounts, a)) {
      SenderNoncesIff(s, a);
    }
    forall t | t in s.accepted
      ensures
        && multiset(s.accepted)[t] == 1
        && var inChain := multiset(Txs(s.log))[t];
          || (s.pool.IsPending(t) && !s.pool.IsQueued(t) && inChain == 0)
          || (!s.pool.IsPending(t) && s.pool.IsQueued(t) && inChain == 0)
          || (!s.pool.Contains(t) && inChain == 1)
    {
      ExactlyOnePlace(c, s, t);
      assert t in multiset(s.accepted);
    }
  }
}
