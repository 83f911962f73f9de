/** Bounded liveness: a gapless run of pooled nonces is drained one block at a time. */
module NodeLiveness {
  import opened Types
  import Numerals
  import opened LedgerOps
  import opened PendingOrder
  import opened Mempool
  import opened TxRequests
  import opened BlockExecution
  import opened Consensus
  import opened NodeMachine
  import opened NodeInvariants
  import opened NodeHistory

  /** The pool holds the sender's nonces k, k+1, ..., k+m-1, and perhaps others. */
  ghost predicate Covers(p: Pool, a: Address, k: nat, m: nat) {
    forall n | k <= n < k + m :: HasNonce(p, a, n)
  }

  /** A sender at account nonce k whose next m transactions are pooled. */
  ghost predicate Waiting(s: Node, a: Address, k: nat, m: nat) {
    NonceOf(s.accounts, a) == k && Covers(s.pool, a, k, m)
  }

  /** The sender's included transactions below a nonce were charged. */
  ghost predicate ChargedFor(log: seq<Included>, a: Address, top: int) {
    forall i | 0 <= i < |log| && log[i].tx.from == a && log[i].tx.Nonce() < top :: log[i].outcome != Unpaid
  }

  function CountSaves(steps: seq<Step>): nat {
    if |steps| == 0 then 0
    else
      var last := steps[|steps| - 1];
      CountSaves(steps[..|steps| - 1]) + if last.ProduceSlot? && last.slot.Saves() then 1 else 0
  }

  /** The nonces from k up to, but not including, k + n. */
  function NoncesFrom(k: int, n: nat): (r: seq<int>)
    ensures |r| == n
  {
    seq(n, i => k + i)
  }

  // ---------- One block ----------

  /** The block holds the sender's transaction at its account nonce, if there is one in the pool,
      and nothing else of that sender. */
  lemma BlockTakesNext(p: Pool, l: Ledger, txs: seq<Tx>, a: Address, k: nat)
    requires PoolInv(p, l) && Takes(p, l, txs) && NonceOf(l, a) == k
    ensures HasNonce(p, a, k) <==> a in Senders(txs)
    ensures forall i | 0 <= i < |txs| && txs[i].from == a :: txs[i].Nonce() == k
  {
    if HasNonce(p, a, k) {
      var t :| p.Contains(t) && t.from == a && t.Nonce() == k;
      assert p.IsPending(t);
      assert t in txs;
    }
    if a in Senders(txs) {
      var i :| 0 <= i < |txs| && txs[i].from == a;
      assert txs[i] in txs;
      assert p.Contains(txs[i]);
    }
  }

  /** After the block the sender's other nonces are pooled as before. */
  lemma NoncesAfterBlock(p: Pool, l: Ledger, l': Ledger, txs: seq<Tx>, a: Address, k: nat)
    requires PoolInv(p, l) && Takes(p, l, txs) && NonceOf(l, a) == k
    ensures forall n :: HasNonce(PoolAfter(p, l', txs), a, n) <==> HasNonce(p, a, n) && n != k
  {
    var p' := PoolAfter(p, l', txs);
    PoolAfterMembers(p, l', txs);
    hide PoolAfter;
    forall n ensures HasNonce(p', a, n) <==> HasNonce(p, a, n) && n != k {
      if HasNonce(p', a, n) {
        var t :| p'.Contains(t) && t.from == a && t.Nonce() == n;
        assert p.IsQueued(t) && p.Contains(t);
      }
      if HasNonce(p, a, n) && n != k {
        var t :| p.Contains(t) && t.from == a && t.Nonce() == n;
        assert p.IsQueued(t);
        assert p'.Contains(t);
      }
    }
  }

  lemma {:induction false} SenderNoncesOfBlock(log: seq<Included>, txs: seq<Tx>, os: seq<Outcome>, a: Address, k: int)
    requires |os| == |txs| && DistinctSenders(txs)
    requires forall i | 0 <= i < |txs| && txs[i].from == a :: txs[i].Nonce() == k
    ensures SenderNonces(log + Log(txs, os), a, false)
         == SenderNonces(log, a, false) + if a in Senders(txs) then [k] else []
  {
    if |txs| == 0 {
      assert log + Log(txs, os) == log;
    } else {
      var n := |txs| - 1;
      SenderNoncesOfBlock(log, txs[..n], os[..n], a, k);
      LogGrows(log, txs[..n], os[..n], txs[n], os[n]);
      assert txs == txs[..n] + [txs[n]] && os == os[..n] + [os[n]];
      var whole, part := log + Log(txs, os), log + Log(txs[..n], os[..n]);
      assert whole == part + [Included(txs[n], os[n])] && whole[..|whole| - 1] == part;
      assert Senders(txs) == Senders(txs[..n]) + {txs[n].from};
    }
  }

  lemma ChargedInBlock(log: seq<Included>, txs: seq<Tx>, os: seq<Outcome>, a: Address, k: int)
    requires |os| == |txs| && ChargedFor(log + Log(txs, os), a, k + 1)
    requires forall i | 0 <= i < |txs| && txs[i].from == a :: txs[i].Nonce() == k
    ensures forall i | 0 <= i < |txs| && txs[i].from == a :: os[i] != Unpaid
  {
    forall i | 0 <= i < |txs| && txs[i].from == a ensures os[i] != Unpaid {
      assert (log + Log(txs, os))[|log| + i] == Included(txs[i], os[i]);
    }
  }

  lemma NonceAfterBlock(l: Ledger, txs: seq<Tx>, a: Address)
    requires DistinctSenders(txs)
    requires forall i | 0 <= i < |txs| && txs[i].from == a :: ApplyAll(l, txs).1[i] != Unpaid
    ensures NonceOf(ApplyAll(l, txs).0, a) == NonceOf(l, a) + if a in Senders(txs) then 1 else 0
  {
    hide ApplyAll;
    NoncesMove(l, txs);
    if a in Senders(txs) {
      var i :| 0 <= i < |txs| && txs[i].from == a;
    }
  }

  /** How many of a sender's transactions the next block takes. */
  ghost function TakenBy(p: Pool, a: Address, k: nat): nat {
    if HasNonce(p, a, k) then 1 else 0
  }

  /** Executing a block takes the sender's next transaction, if it has one, and moves on. */
  lemma BlockDrains(p: Pool, l: Ledger, log: seq<Included>, a: Address, k: nat)
    requires PoolInv(p, l) && NonceOf(l, a) == k
    requires HasNonce(p, a, k) ==> ChargedFor(log + Log(ExecuteBlock(p, l).txs, ExecuteBlock(p, l).outcomes), a, k + 1)
    ensures
      var e, one := ExecuteBlock(p, l), TakenBy(p, a, k);
      && NonceOf(e.ledger, a) == k + one
      && (forall n :: HasNonce(e.pool, a, n) <==> HasNonce(p, a, n) && n != k)
      && SenderNonces(log + Log(e.txs, e.outcomes), a, false) == SenderNonces(log, a, false) + NoncesFrom(k, one)
  {
    hide PoolInv, Ordered, ApplyAll, PoolAfter, SenderNonces, ChargedFor, DistinctSenders, HasNonce;
    var e := ExecuteBlock(p, l);
    OrderedTakes(p, l);
    BlockTakesNext(p, l, e.txs, a, k);
    NoncesAfterBlock(p, l, e.ledger, e.txs, a, k);
    SenderNoncesOfBlock(log, e.txs, e.outcomes, a, k);
    if HasNonce(p, a, k) {
      ChargedInBlock(log, e.txs, e.outcomes, a, k);
    }
    NonceAfterBlock(l, e.txs, a);
    assert NoncesFrom(k, 1) == [k as int];
  }

  /** The same for a slot that saves its block. */
  lemma SaveDrains(c: Crypto, s: Node, slot: Slot, a: Address, k: nat)
    requires NodeInv(c, s) && s.chain != [] && NonceOf(s.accounts, a) == k
    requires slot.Saves() && ResetKeepsNonces(s, ProduceSlot(slot))
    requires HasNonce(s.pool, a, k) ==> ChargedFor(Produce(c, s, slot).log, a, k + 1)
    ensures
      var s', one := Produce(c, s, slot), TakenBy(s.pool, a, k);
      && NonceOf(s'.accounts, a) == k + one
      && (forall n :: HasNonce(s'.pool, a, n) <==> HasNonce(s.pool, a, n) && n != k)
      && SenderNonces(s'.log, a, false) == SenderNonces(s.log, a, false) + NoncesFrom(k, one)
  {
    assert Produce(c, s, slot) == CommitAndSave(c, s, slot);
    hide PoolInv, ExecuteBlock, AfterRewards, NewBlock, SenderNonces, Attesters, Produce, HasNonce, ChargedFor;
    PoolInvNonces(s.pool, s.accounts, slot.base);
    BlockDrains(s.pool, slot.base, s.log, a, k);
    AfterRewardsNonces(ExecuteBlock(s.pool, slot.base).ledger, slot);
  }

  // ---------- The other steps ----------

  /** A submission takes no nonce from the pool, and gives none to senders other than its own. */
  lemma SubmissionNonces(c: Crypto, s: Node, r: Request, seen: Ledger, a: Address)
    requires c.Valid() && NodeInv(c, s) && SameNonces(seen, s.accounts)
    ensures forall n | HasNonce(s.pool, a, n) :: HasNonce(Receive(c, s, r, seen).pool, a, n)
    ensures r.from != a ==> forall n :: HasNonce(Receive(c, s, r, seen).pool, a, n) <==> HasNonce(s.pool, a, n)
  {
    PoolInvNonces(s.pool, s.accounts, seen);
    SubmitKeepsInv(c, seen, s.pool, r);
    hide Submit, PoolInv, Genuine;
  }

  lemma {:induction false} NoncesGrow(log: seq<Included>, more: seq<Included>, a: Address)
    requires log <= more
    ensures SenderNonces(log, a, false) <= SenderNonces(more, a, false)
  {
    if |log| < |more| {
      NoncesGrow(log, more[..|more| - 1], a);
    } else {
      assert log == more;
    }
  }

  lemma LogGrowsOnly(c: Crypto, s: Node, step: Step, a: Address, top: int)
    ensures s.log <= Next(c, s, step).log
    ensures ChargedFor(Next(c, s, step).log, a, top) ==> ChargedFor(s.log, a, top)
  {
    hide Submit, ExecuteBlock, AfterRewards, NewBlock;
    var log := Next(c, s, step).log;
    assert forall i | 0 <= i < |s.log| :: s.log[i] == log[i];
  }

  /** A request, a skipped slot, or a slot that saves its block. */
  predicate Unbroken(step: Step) {
    step.ProduceSlot? ==> step.slot.fault == BeforeExecution || step.slot.Saves()
  }

  // ---------- Draining ----------

  /** From s to t, over j saved blocks: the first j of the m nonces from k have moved from the pool
      to the chain, in order and with nothing of the sender in between; when j exceeds m, all m. */
  ghost predicate Drained(s: Node, t: Node, a: Address, k: nat, m: nat, j: nat) {
    if j <= m then
      && Waiting(t, a, k + j, m - j)
      && SenderNonces(t.log, a, false) == SenderNonces(s.log, a, false) + NoncesFrom(k, j)
    else SenderNonces(s.log, a, false) + NoncesFrom(k, m) <= SenderNonces(t.log, a, false)
  }

  lemma SubmitDrains(c: Crypto, s: Node, t: Node, r: Request, seen: Ledger, a: Address, k: nat, m: nat, j: nat)
    requires c.Valid() && NodeInv(c, t) && SameNonces(seen, t.accounts) && Drained(s, t, a, k, m, j)
    ensures Drained(s, Receive(c, t, r, seen), a, k, m, j)
  {
    SubmissionNonces(c, t, r, seen, a);
    hide Submit, SenderNonces, NodeInv, NoncesFrom, HasNonce;
  }

  lemma SkipDrains(c: Crypto, s: Node, t: Node, slot: Slot, a: Address, k: nat, m: nat, j: nat)
    requires SameNonces(slot.base, t.accounts) && slot.fault == BeforeExecution && Drained(s, t, a, k, m, j)
    ensures Drained(s, Produce(c, t, slot), a, k, m, j)
  {
    hide Covers, SenderNonces, NoncesFrom;
  }

  lemma DrainedFacts(s: Node, t: Node, a: Address, k: nat, m: nat, j: nat)
    requires Drained(s, t, a, k, m, j) && j < m
    ensures NonceOf(t.accounts, a) == k + j && HasNonce(t.pool, a, k + j)
  {
    hide HasNonce, SenderNonces;
  }

  lemma ChargedBelow(log: seq<Included>, a: Address, top: int, higher: int)
    requires ChargedFor(log, a, higher) && top <= higher
    ensures ChargedFor(log, a, top)
  {
  }

  lemma StepFacts(s: Node, step: Step)
    requires ResetKeepsNonces(s, step)
    ensures step.ProduceSlot? ==> SameNonces(step.slot.base, s.accounts)
    ensures step.SubmitRequest? ==> SameNonces(step.seen, s.accounts)
    ensures CountSaves([step]) == if step.ProduceSlot? && step.slot.Saves() then 1 else 0
  {
    hide SameNonces, ExecuteBlock, Slot.Saves;
  }

  lemma DrainedOne(s: Node, t: Node, t': Node, a: Address, k: nat, m: nat, j: nat)
    requires Drained(s, t, a, k, m, j) && j < m
    requires NonceOf(t'.accounts, a) == k + j + 1
    requires forall n :: HasNonce(t'.pool, a, n) <==> HasNonce(t.pool, a, n) && n != k + j
    requires SenderNonces(t'.log, a, false) == SenderNonces(t.log, a, false) + NoncesFrom(k + j, 1)
    ensures Drained(s, t', a, k, m, j + 1)
  {
    hide HasNonce, SenderNonces;
    assert NoncesFrom(k, j) + NoncesFrom(k + j, 1) == NoncesFrom(k, j + 1);
  }

  lemma DrainedAll(s: Node, t: Node, t': Node, a: Address, k: nat, m: nat, j: nat)
    requires Drained(s, t, a, k, m, j) && j >= m && t.log <= t'.log
    ensures Drained(s, t', a, k, m, j + 1)
  {
    hide SenderNonces, Waiting;
    NoncesGrow(t.log, t'.log, a);
  }

  lemma SlotDrains(c: Crypto, s: Node, t: Node, slot: Slot, a: Address, k: nat, m: nat, j: nat)
    requires NodeInv(c, t) && t.chain != [] && slot.Saves() && ResetKeepsNonces(t, ProduceSlot(slot))
    requires ChargedFor(Produce(c, t, slot).log, a, k + m) && Drained(s, t, a, k, m, j)
    ensures Drained(s, Produce(c, t, slot), a, k, m, j + 1)
  {
    hide Produce, NodeInv, ResetKeepsNonces, SenderNonces, HasNonce, ChargedFor, Drained, Slot.Saves;
    if j < m {
      DrainedFacts(s, t, a, k, m, j);
      ChargedBelow(Produce(c, t, slot).log, a, k + j + 1, k + m);
      SaveDrains(c, t, slot, a, k + j);
      DrainedOne(s, t, Produce(c, t, slot), a, k, m, j);
    } else {
      LogGrowsOnly(c, t, ProduceSlot(slot), a, k + m);
      DrainedAll(s, t, Produce(c, t, slot), a, k, m, j);
    }
  }

  lemma StepDrains(c: Crypto, s: Node, t: Node, step: Step, a: Address, k: nat, m: nat, j: nat)
    requires c.Valid() && NodeInv(c, t) && t.chain != [] && ResetKeepsNonces(t, step) && Unbroken(step)
    requires ChargedFor(Next(c, t, step).log, a, k + m) && Drained(s, t, a, k, m, j)
    ensures Drained(s, Next(c, t, step), a, k, m, j + CountSaves([step]))
  {
    hide Drained, Receive, Produce, NodeInv, ChargedFor, ResetKeepsNonces, SameNonces, CountSaves, Slot.Saves;
    StepFacts(t, step);
    match step
    case SubmitRequest(r, seen) => SubmitDrains(c, s, t, r, seen, a, k, m, j);
    case ProduceSlot(slot) =>
      if slot.Saves() {
        SlotDrains(c, s, t, slot, a, k, m, j);
      } else {
        SkipDrains(c, s, t, slot, a, k, m, j);
      }
  }

  lemma LastStep(c: Crypto, s: Node, steps: seq<Step>)
    requires c.Valid() && NodeInv(c, s) && s.chain != [] && Steady(c, s, steps) && |steps| > 0
    ensures
      var init, step := steps[..|steps| - 1], steps[|steps| - 1];
      var t := Run(c, s, init);
      && Steady(c, s, init) && NodeInv(c, t) && t.chain != [] && ResetKeepsNonces(t, step)
      && Run(c, s, steps) == Next(c, t, step)
  {
    SteadyPrefix(c, s, steps);
    SteadyKeepsNodeInv(c, s, steps[..|steps| - 1]);
    hide NodeInv, ResetKeepsNonces, Next;
  }

  /** If a sender at account nonce k has k, ..., k+m-1 in the pool, and the transactions with these
      nonces are charged when included, then the j-th saved block includes nonce k + j - 1, for
      every j up to m, and nothing else of the sender, whatever it and others submit in between
      and however many slots are skipped; m saved blocks bring all m into the chain, in order. */
  lemma {:induction false} RunDrains(c: Crypto, s: Node, steps: seq<Step>, a: Address, k: nat, m: nat)
    requires c.Valid() && NodeInv(c, s) && s.chain != [] && Waiting(s, a, k, m)
    requires Steady(c, s, steps) && forall step | step in steps :: Unbroken(step)
    requires ChargedFor(Run(c, s, steps).log, a, k + m)
    ensures Drained(s, Run(c, s, steps), a, k, m, CountSaves(steps))
  {
    hide Next, Steady, NodeInv, Waiting, Drained, ResetKeepsNonces, Unbroken, ChargedFor, Attesters;
    if |steps| == 0 {
      DrainedNothing(s, a, k, m);
    } else {
      var init, step := steps[..|steps| - 1], steps[|steps| - 1];
      LastStep(c, s, steps);
      assert CountSaves(steps) == CountSaves(init) + CountSaves([step]);
      LogGrowsOnly(c, Run(c, s, init), step, a, k + m);
      RunDrains(c, s, init, a, k, m);
      StepDrains(c, s, Run(c, s, init), step, a, k, m, CountSaves(init));
    }
  }

  lemma DrainedNothing(s: Node, a: Address, k: nat, m: nat)
    requires Waiting(s, a, k, m)
    ensures Drained(s, s, a, k, m, 0)
  {
    assert NoncesFrom(k, 0) == [];
  }

  // ---------- A sender that falls silent ----------

  /** From s to t the first j of the sender's m pooled nonces from k have moved to the chain, and
      nothing else of the sender is pooled. */
  ghost predicate Emptied(s: Node, t: Node, a: Address, k: nat, m: nat, j: nat) {
    && j <= m
    && NonceOf(t.accounts, a) == k + j && PooledRun(t.pool, a, k + j, m - j)
    && SenderNonces(t.log, a, false) == SenderNonces(s.log, a, false) + NoncesFrom(k, j)
  }

  lemma SubmitEmpties(c: Crypto, s: Node, t: Node, r: Request, seen: Ledger, a: Address, k: nat, m: nat, j: nat)
    requires c.Valid() && NodeInv(c, t) && SameNonces(seen, t.accounts) && r.from != a && Emptied(s, t, a, k, m, j)
    ensures Emptied(s, Receive(c, t, r, seen), a, k, m, j)
  {
    SubmissionNonces(c, t, r, seen, a);
    hide Submit, SenderNonces, NodeInv, NoncesFrom, HasNonce;
  }

  lemma SkipEmpties(c: Crypto, s: Node, t: Node, slot: Slot, a: Address, k: nat, m: nat, j: nat)
    requires SameNonces(slot.base, t.accounts) && slot.fault == BeforeExecution && Emptied(s, t, a, k, m, j)
    ensures Emptied(s, Produce(c, t, slot), a, k, m, j)
  {
    hide PooledRun, SenderNonces, NoncesFrom;
  }

  lemma EmptiedFacts(s: Node, t: Node, a: Address, k: nat, m: nat, j: nat)
    requires Emptied(s, t, a, k, m, j)
    ensures j <= m && NonceOf(t.accounts, a) == k + j && (HasNonce(t.pool, a, k + j) <==> j < m)
  {
    hide HasNonce, SenderNonces;
  }

  lemma EmptiedOne(s: Node, t: Node, t': Node, a: Address, k: nat, m: nat, j: nat)
    requires Emptied(s, t, a, k, m, j)
    requires NonceOf(t'.accounts, a) == k + j + if j < m then 1 else 0
    requires forall n :: HasNonce(t'.pool, a, n) <==> HasNonce(t.pool, a, n) && n != k + j
    requires SenderNonces(t'.log, a, false) == SenderNonces(t.log, a, false) + NoncesFrom(k + j, if j < m then 1 else 0)
    ensures Emptied(s, t', a, k, m, Numerals.Min(j + 1, m))
  {
    hide HasNonce, SenderNonces;
    var one := if j < m then 1 else 0;
    assert NoncesFrom(k, j) + NoncesFrom(k + j, one) == NoncesFrom(k, j + one);
  }

  lemma SlotEmpties(c: Crypto, s: Node, t: Node, slot: Slot, a: Address, k: nat, m: nat, j: nat)
    requires NodeInv(c, t) && t.chain != [] && slot.Saves() && ResetKeepsNonces(t, ProduceSlot(slot))
    requires ChargedFor(Produce(c, t, slot).log, a, k + m) && Emptied(s, t, a, k, m, j)
    ensures Emptied(s, Produce(c, t, slot), a, k, m, Numerals.Min(j + 1, m))
  {
    hide Produce, NodeInv, ResetKeepsNonces, SenderNonces, HasNonce, ChargedFor, Emptied, Slot.Saves;
    EmptiedFacts(s, t, a, k, m, j);
    if j < m {
      ChargedBelow(Produce(c, t, slot).log, a, k + j + 1, k + m);
    }
    SaveDrains(c, t, slot, a, k + j);
    EmptiedOne(s, t, Produce(c, t, slot), a, k, m, j);
  }

  predicate WithoutSender(step: Step, a: Address) {
    step.SubmitRequest? ==> step.request.from != a
  }

  lemma StepEmpties(c: Crypto, s: Node, t: Node, step: Step, a: Address, k: nat, m: nat, j: nat)
    requires c.Valid() && NodeInv(c, t) && t.chain != [] && ResetKeepsNonces(t, step)
    requires Unbroken(step) && WithoutSender(step, a)
    requires ChargedFor(Next(c, t, step).log, a, k + m) && Emptied(s, t, a, k, m, j)
    ensures Emptied(s, Next(c, t, step), a, k, m, Numerals.Min(j + CountSaves([step]), m))
  {
    hide Emptied, Receive, Produce, NodeInv, ChargedFor, ResetKeepsNonces, SameNonces, CountSaves, Slot.Saves;
    StepFacts(t, step);
    EmptiedFacts(s, t, a, k, m, j);
    match step
    case SubmitRequest(r, seen) => SubmitEmpties(c, s, t, r, seen, a, k, m, j);
    case ProduceSlot(slot) =>
      if slot.Saves() {
        SlotEmpties(c, s, t, slot, a, k, m, j);
      } else {
        SkipEmpties(c, s, t, slot, a, k, m, j);
      }
  }

  /** If the sender's pooled nonces are exactly k, ..., k+m-1 and it submits nothing more, then m
      saved blocks leave nothing of it in the pool, its account nonce is k + m, and its nonces k to
      k + m - 1 are what the chain has gained of it, however many blocks follow. */
  lemma {:induction false} RunEmpties(c: Crypto, s: Node, steps: seq<Step>, a: Address, k: nat, m: nat)
    requires c.Valid() && NodeInv(c, s) && s.chain != [] && NonceOf(s.accounts, a) == k && PooledRun(s.pool, a, k, m)
    requires Steady(c, s, steps) && forall step | step in steps :: Unbroken(step) && WithoutSender(step, a)
    requires ChargedFor(Run(c, s, steps).log, a, k + m)
    ensures Emptied(s, Run(c, s, steps), a, k, m, Numerals.Min(CountSaves(steps), m))
  {
    hide Next, Steady, NodeInv, ResetKeepsNonces, Unbroken, WithoutSender, ChargedFor, Attesters, PooledRun,
      SenderNonces;
    if |steps| == 0 {
      assert NoncesFrom(k, 0) == [];
    } else {
      var init, step := steps[..|steps| - 1], steps[|steps| - 1];
      LastStep(c, s, steps);
      assert CountSaves(steps) == CountSaves(init) + CountSaves([step]);
      LogGrowsOnly(c, Run(c, s, init), step, a, k + m);
      RunEmpties(c, s, init, a, k, m);
      hide Emptied;
      StepEmpties(c, s, Run(c, s, init), step, a, k, m, Numerals.Min(CountSaves(init), m));
    }
  }
}
