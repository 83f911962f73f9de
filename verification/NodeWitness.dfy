/** A reachable node whose pool an abandoned block puts out of step, or does not, depending on what
    is read afterwards. */
module NodeWitness {
  import opened Types
  import opened LedgerOps
  import opened PendingOrder
  import opened Mempool
  import opened TxRequests
  import opened BlockExecution
  import opened NodeMachine
  import opened NodeInvariants
  import opened NodeLiveness
  import opened StateStore
  import opened StateRoots

  const SENDER: Address := "0xaa"
  const BALANCE := 1_000_000

  function Spend(nonce: int): Payload {
    Payload(nonce, 1, 1, Some("0xbb"), 1, "0x")
  }

  function SpendRequest(nonce: int, signature: Signature): Request {
    Request(SENDER, Some("0xbb"), 1, nonce, signature, Some(1), Some(1), None)
  }

  /** The node after the sender's first n requests, nonces 0 to n-1. */
  ghost predicate Pools(c: Crypto, s: Node, n: nat) {
    && NodeInv(c, s) && s.chain != []
    && NonceOf(s.accounts, SENDER) == 0 && BalanceOf(s.accounts, SENDER) == BALANCE
    && NoDebts(s.accounts)
    && (forall t | s.pool.Contains(t) :: t.from == SENDER)
    && (forall k :: HasNonce(s.pool, SENDER, k) <==> 0 <= k < n)
  }

  lemma PoolOneMore(c: Crypto, s: Node, n: nat, signature: Signature)
    requires c.Valid() && Pools(c, s, n) && c.recover(Spend(n), signature) == SENDER
    ensures Pools(c, Receive(c, s, SpendRequest(n, signature), s.accounts), n + 1)
  {
    var r := SpendRequest(n, signature);
    AcceptedIff(c, s.accounts, s.pool, r);
    SubmitKeepsInv(c, s.accounts, s.pool, r);
    var p := Submit(c, s.accounts, s.pool, r).0;
    var tx := Submit(c, s.accounts, s.pool, r).1.tx;
    hide Submit, PoolInv, Genuine;
    assert p.Contains(tx);
    forall k ensures HasNonce(p, SENDER, k) <==> HasNonce(s.pool, SENDER, k) || k == n {
      if HasNonce(s.pool, SENDER, k) {
        var t :| s.pool.Contains(t) && t.from == SENDER && t.Nonce() == k;
        assert p.Contains(t);
      }
    }
  }

  lemma GenesisPools(c: Crypto, timestamp: nat)
    ensures
      var g := Genesis(c, [(SENDER, BALANCE)], timestamp);
      g.Some? && Pools(c, g.value, 0)
  {
    var alloc := [(SENDER, BALANCE)];
    assert alloc[..0] == [];
    assert Allocate(map[], alloc[..0]) == Done(map[]);
    GenesisKeepsNodeInv(c, alloc, timestamp);
    hide GenesisBlock;
  }

  lemma FirstOfBlock(c: Crypto, s: Node, txs: seq<Tx>)
    requires Pools(c, s, 2) && Takes(s.pool, s.accounts, txs)
    ensures |txs| > 0 && txs[0].from == SENDER && txs[0].Nonce() == 0
  {
    BlockTakesNext(s.pool, s.accounts, txs, SENDER, 0);
    hide PoolInv, Genuine;
    var i :| 0 <= i < |txs| && txs[i].from == SENDER;
    forall j | 0 <= j < |txs| ensures txs[j].from == SENDER {
      assert txs[j] in txs;
      assert s.pool.Contains(txs[j]);
    }
  }

  /** The sender's first transaction is charged, and the second is its successor. */
  lemma PromotesOne(c: Crypto, s: Node)
    requires Pools(c, s, 2)
    ensures !NothingPromoted(s.pool, s.accounts, Ordered(s.pool.pending.Values))
  {
    hide Ordered, ApplyAll, PoolInv, Takes, Genuine, HasNonce;
    var l := s.accounts;
    var txs := Ordered(s.pool.pending.Values);
    OrderedTakes(s.pool, l);
    FirstOfBlock(c, s, txs);
    FirstIsCharged(l, txs);
    assert HasSuccessor(s.pool, l, txs, 0);
  }

  lemma FirstIsCharged(l: Ledger, txs: seq<Tx>)
    requires |txs| > 0 && BalanceOf(l, txs[0].from) == BALANCE
    ensures ApplyAll(l, txs).1[0] != Unpaid
  {
    hide ApplyAll, ApplyTx, CanTransfer;
    OutcomesOfPrefix(l, txs, 0);
    NothingApplied(l, txs);
    ApplyTxMeaning(l, txs[0]);
  }

  lemma NothingApplied(l: Ledger, txs: seq<Tx>)
    ensures ApplyAll(l, txs[..0]) == (l, [])
  {
  }

  lemma RunOfTwo(c: Crypto, g: Node, first: Step, second: Step)
    ensures Run(c, g, [first, second]) == Next(c, Next(c, g, first), second)
    ensures SteadyStep(g, first) && SteadyStep(Next(c, g, first), second) ==> Steady(c, g, [first, second])
  {
    hide Next, SteadyStep;
    var steps := [first, second];
    assert steps[..1] == [first] && steps[..0] == [] && [first][..0] == [];
    assert Run(c, g, []) == g;
    assert Run(c, g, [first]) == Next(c, g, first);
  }

  /** From genesis, two requests of one sender lead to a node that keeps its invariant. If the next
      block is executed and abandoned and the accounts then read as before it, the invariant is
      lost; if the sender still reads as raised, it is kept. */
  lemma AbandonedBlockCanBreakThePool(c: Crypto, first: Signature, second: Signature, timestamp: nat,
                                      accepts: Address -> bool)
    requires c.Valid() && c.recover(Spend(0), first) == SENDER && c.recover(Spend(1), second) == SENDER
    requires Genesis(c, [(SENDER, BALANCE)], timestamp).Some?
    ensures
      var g := Genesis(c, [(SENDER, BALANCE)], timestamp).value;
      var steps := [SubmitRequest(SpendRequest(0, first), g.accounts),
                    SubmitRequest(SpendRequest(1, second), g.accounts)];
      var s := Run(c, g, steps);
      var undone := Slot(SENDER, [], timestamp, "", accepts, AfterExecution, s.accounts, s.accounts);
      var kept := undone.(residue := ExecuteBlock(s.pool, s.accounts).ledger);
      && Steady(c, g, steps) && NodeInv(c, s)
      && ResidueBounded(s, undone) && !NodeInv(c, Produce(c, s, undone))
      && ResidueBounded(s, kept) && NodeInv(c, Produce(c, s, kept))
  {
    hide Genesis, Submit;
    GenesisPools(c, timestamp);
    var g := Genesis(c, [(SENDER, BALANCE)], timestamp).value;
    var one := SubmitRequest(SpendRequest(0, first), g.accounts);
    var two := SubmitRequest(SpendRequest(1, second), g.accounts);
    PoolOneMore(c, g, 0, first);
    var s1 := Receive(c, g, one.request, g.accounts);
    PoolOneMore(c, s1, 1, second);
    var s := Receive(c, s1, two.request, s1.accounts);
    RunOfTwo(c, g, one, two);
    assert s == Run(c, g, [one, two]);
    PromotesOne(c, s);
    hide NodeInv, Produce, Ordered, ExecuteBlock, NothingPromoted, ResidueBounded, Run, Receive, Steady;
    var undone := Slot(SENDER, [], timestamp, "", accepts, AfterExecution, s.accounts, s.accounts);
    UndoneBreaks(c, s, undone);
    KeptKeeps(c, s, undone.(residue := ExecuteBlock(s.pool, s.accounts).ledger));
  }

  lemma BaseBounded(c: Crypto, s: Node)
    requires NodeInv(c, s)
    ensures NoncesAtMost(s.accounts, ExecuteBlock(s.pool, s.accounts).ledger)
  {
    hide Ordered, ApplyAll, PoolInv, PoolAfter;
    OrderedTakes(s.pool, s.accounts);
    NonceBounds(s.accounts, Ordered(s.pool.pending.Values));
  }

  /** One request after genesis the header of the next block carries a root that does not name the
      accounts which the block leaves. */
  lemma HeaderRootCanLag(c: Crypto, signature: Signature, timestamp: nat, accepts: Address -> bool)
    requires c.Valid() && c.recover(Spend(0), signature) == SENDER
    requires Genesis(c, [(SENDER, BALANCE)], timestamp).Some?
    ensures
      var g := Genesis(c, [(SENDER, BALANCE)], timestamp).value;
      var s := Receive(c, g, SpendRequest(0, signature), g.accounts);
      var slot := Slot(SENDER, [], timestamp, RootOf(c, s.accounts), accepts, NoFault, s.accounts, s.accounts);
      && s.chain != [] && slot.Saves()
      && NewBlock(c, s, slot).preimage.stateRoot == RootOf(c, s.accounts)
      && RootOf(c, s.accounts) != RootOf(c, ExecuteBlock(s.pool, s.accounts).ledger)
  {
    hide Genesis, Submit, RootOf, ExecuteBlock, Receipts, TransactionsRoot, ReceiptsRoot;
    GenesisPools(c, timestamp);
    var g := Genesis(c, [(SENDER, BALANCE)], timestamp).value;
    PoolOneMore(c, g, 0, signature);
    var s := Receive(c, g, SpendRequest(0, signature), g.accounts);
    FirstIsNotIdle(c, s);
    HeaderRootIff(c, s.pool, s.accounts);
  }

  lemma FirstIsNotIdle(c: Crypto, s: Node)
    requires Pools(c, s, 1)
    ensures NoDebts(s.accounts) && exists t :: t in s.pool.pending.Values && !Idle(s.accounts, t)
  {
    assert HasNonce(s.pool, SENDER, 0);
    var t :| s.pool.Contains(t) && t.from == SENDER && t.Nonce() == 0;
    hide NoDebts, Genuine, CanTransfer;
    assert s.pool.IsPending(t);
    PendingMembers(s.pool);
  }

  lemma UndoneBreaks(c: Crypto, s: Node, slot: Slot)
    requires NodeInv(c, s) && s.chain != [] && slot.fault == AfterExecution
    requires !NothingPromoted(s.pool, s.accounts, Ordered(s.pool.pending.Values))
    requires slot.base == s.accounts == slot.residue
    ensures ResidueBounded(s, slot) && !NodeInv(c, Produce(c, s, slot))
  {
    hide NodeInv, Produce, Ordered, ExecuteBlock, NothingPromoted;
    BaseBounded(c, s);
    AbandonWithOldNonces(c, s, slot);
  }

  lemma KeptKeeps(c: Crypto, s: Node, slot: Slot)
    requires NodeInv(c, s) && s.chain != [] && slot.fault == AfterExecution
    requires slot.base == s.accounts && slot.residue == ExecuteBlock(s.pool, s.accounts).ledger
    ensures ResidueBounded(s, slot) && NodeInv(c, Produce(c, s, slot))
  {
    hide NodeInv, Produce, Ordered, ExecuteBlock, NothingPromoted;
    AbandonWithNewNonces(c, s, slot);
  }
}
