/** The state root in a block's header: when it names the accounts that the block leaves. */
module StateRoots {
  import opened Types
  import opened LedgerOps
  import opened PendingOrder
  import opened Mempool
  import opened BlockExecution
  import opened StateStore
  import opened NodeMachine

  /** No stored account is in debt, so that each can be encoded. */
  ghost predicate NoDebts(l: Ledger) {
    forall a | a in l :: l[a].balance >= 0
  }

  lemma DebtsAndBalances(l: Ledger)
    ensures NoDebts(l) <==> Solvent(l)
  {
    if Solvent(l) {
      forall a | a in l ensures l[a].balance >= 0 {
        assert BalanceOf(l, a) >= 0;
      }
    }
  }

  lemma TrieLookup(c: Crypto, l: Ledger, a: Address)
    requires c.Valid()
    ensures c.addressKey(a) in TrieOf(c, l) <==> a in l
    ensures a in l ==> TrieOf(c, l)[c.addressKey(a)] == c.encodeAccount(l[a])
    ensures a in l && l[a].balance >= 0 ==> c.decodeAccount(TrieOf(c, l)[c.addressKey(a)]) == l[a]
  {
  }

  /** A root names one ledger only. */
  lemma RootNamesLedger(c: Crypto, l: Ledger, k: Ledger)
    requires c.Valid() && NoDebts(l) && NoDebts(k)
    ensures RootOf(c, l) == RootOf(c, k) <==> l == k
  {
    if RootOf(c, l) == RootOf(c, k) {
      assert TrieOf(c, l) == TrieOf(c, k);
      hide TrieOf, RootOf;
      forall a ensures a in l <==> a in k
               ensures a in l ==> a in k && l[a] == k[a]
      {
        TrieLookup(c, l, a);
        TrieLookup(c, k, a);
      }
    }
  }

  // ---------- Blocks that change no account ----------

  /** The transaction can neither transfer nor be charged, and its sender has an account already. */
  predicate Idle(l: Ledger, tx: Tx) {
    !CanTransfer(l, tx) && BalanceOf(l, tx.from) < TRANSFER_GAS && tx.from in l
  }

  lemma IdleChangesNothing(l: Ledger, tx: Tx)
    ensures ApplyTx(l, tx).0 == l <==> Idle(l, tx)
    ensures ApplyTx(l, tx).1 == Unpaid ==> ApplyTx(l, tx).0 == Touch(l, tx.from)
  {
    ApplyTxMeaning(l, tx);
    var (l', o) := ApplyTx(l, tx);
    if o == Unpaid {
      assert l' == Touch(l, tx.from);
      assert tx.from in l ==> Touch(l, tx.from) == l;
    } else {
      assert NonceOf(l', tx.from) == NonceOf(l, tx.from) + 1;
    }
  }

  /** Neither an account nor a nonce goes away. */
  ghost predicate Grows(l: Ledger, k: Ledger) {
    l.Keys <= k.Keys && NoncesAtMost(l, k)
  }

  lemma ApplyTxGrows(l: Ledger, tx: Tx)
    ensures Grows(l, ApplyTx(l, tx).0)
  {
    ApplyTxMeaning(l, tx);
    hide ApplyTx, CanTransfer;
  }

  lemma {:induction false} ApplyAllGrows(l: Ledger, txs: seq<Tx>)
    ensures Grows(l, ApplyAll(l, txs).0)
  {
    if |txs| > 0 {
      var init := txs[..|txs| - 1];
      ApplyAllGrows(l, init);
      ApplyTxGrows(ApplyAll(l, init).0, txs[|txs| - 1]);
      hide ApplyTx, NonceOf;
    }
  }

  /** If a change grows what has grown already, and nothing is different, nothing ever was: for a
      transaction, because the only change that moves no nonce is a new account. */
  lemma NothingMovedBefore(l: Ledger, k: Ledger, tx: Tx)
    requires Grows(l, k) && ApplyTx(k, tx).0 == l
    ensures k == l && Idle(l, tx)
  {
    ApplyTxMeaning(k, tx);
    IdleChangesNothing(k, tx);
    var (m, o) := ApplyTx(k, tx);
    assert o == Unpaid by {
      assert NonceOf(l, tx.from) <= NonceOf(k, tx.from);
    }
    assert tx.from in k && Touch(k, tx.from) == k;
  }

  /** A block leaves the accounts as they were exactly if each of its transactions is idle on the
      accounts it starts from. */
  lemma {:induction false} UnchangedIff(l: Ledger, txs: seq<Tx>)
    ensures ApplyAll(l, txs).0 == l <==> forall i | 0 <= i < |txs| :: Idle(l, txs[i])
  {
    if |txs| > 0 {
      var init, last := txs[..|txs| - 1], txs[|txs| - 1];
      var k := ApplyAll(l, init).0;
      UnchangedIff(l, init);
      ApplyAllGrows(l, init);
      IdleChangesNothing(l, last);
      ApplyLast(l, txs);
      hide ApplyAll, ApplyTx, Idle, Grows;
      if ApplyTx(k, last).0 == l {
        NothingMovedBefore(l, k, last);
      }
    }
  }

  /** Put in terms of outcomes: nobody was charged, and no account was made. */
  lemma UnchangedIffUnpaid(l: Ledger, txs: seq<Tx>)
    ensures ApplyAll(l, txs).0 == l <==>
      forall i | 0 <= i < |txs| :: ApplyAll(l, txs).1[i] == Unpaid && txs[i].from in l
  {
    UnchangedIff(l, txs);
    if forall i | 0 <= i < |txs| :: Idle(l, txs[i]) {
      forall i | 0 <= i < |txs| ensures ApplyAll(l, txs).1[i] == Unpaid && txs[i].from in l {
        OutcomesOfPrefix(l, txs, i);
        UnchangedIff(l, txs[..i]);
        ApplyTxMeaning(l, txs[i]);
        hide ApplyAll, ApplyTx, CanTransfer;
      }
    }
    if forall i | 0 <= i < |txs| :: ApplyAll(l, txs).1[i] == Unpaid && txs[i].from in l {
      forall i | 0 <= i < |txs| ensures SparedAt(l, txs, i) {
      }
      SparedIsUnchanged(l, txs);
    }
  }

  /** The i-th transaction was not charged, and its sender had an account from the start. */
  ghost predicate SparedAt(l: Ledger, txs: seq<Tx>, i: nat)
    requires i < |txs|
  {
    ApplyAll(l, txs).1[i] == Unpaid && txs[i].from in l
  }

  lemma SparedBefore(l: Ledger, txs: seq<Tx>, i: nat)
    requires i + 1 < |txs| && SparedAt(l, txs, i)
    ensures SparedAt(l, txs[..|txs| - 1], i)
  {
    ApplyLast(l, txs);
    hide ApplyAll, ApplyTx;
  }

  lemma SparedLast(l: Ledger, txs: seq<Tx>)
    requires |txs| > 0 && ApplyAll(l, txs[..|txs| - 1]).0 == l && SparedAt(l, txs, |txs| - 1)
    ensures ApplyAll(l, txs).0 == l
  {
    ApplyLast(l, txs);
    hide ApplyAll, ApplyTx;
    UnpaidChangesNothing(l, txs[|txs| - 1]);
  }

  lemma {:induction false} SparedIsUnchanged(l: Ledger, txs: seq<Tx>)
    requires forall i | 0 <= i < |txs| :: SparedAt(l, txs, i)
    ensures ApplyAll(l, txs).0 == l
  {
    if |txs| > 0 {
      hide ApplyAll, SparedAt;
      var init := txs[..|txs| - 1];
      forall i | 0 <= i < |init| ensures SparedAt(l, init, i) {
        SparedBefore(l, txs, i);
      }
      SparedIsUnchanged(l, init);
      SparedLast(l, txs);
    }
  }

  lemma UnpaidChangesNothing(l: Ledger, tx: Tx)
    requires tx.from in l && ApplyTx(l, tx).1 == Unpaid
    ensures ApplyTx(l, tx).0 == l && Idle(l, tx)
  {
    IdleChangesNothing(l, tx);
    hide ApplyTx, Idle;
    assert Touch(l, tx.from) == l;
  }

  // ---------- The header ----------

  lemma IdleListIff(l: Ledger, txs: seq<Tx>, all: set<Tx>)
    requires multiset(txs) == multiset(all)
    ensures ApplyAll(l, txs).0 == l <==> forall t | t in all :: Idle(l, t)
  {
    UnchangedIff(l, txs);
    hide ApplyAll, Idle;
    forall t ensures t in txs <==> t in all {
      assert t in txs <==> t in multiset(txs);
    }
    if forall i | 0 <= i < |txs| :: Idle(l, txs[i]) {
      forall t | t in all ensures Idle(l, t) {
        var i :| 0 <= i < |txs| && txs[i] == t;
      }
    }
    if forall t | t in all :: Idle(l, t) {
      forall i | 0 <= i < |txs| ensures Idle(l, txs[i]) {
        assert txs[i] in txs;
      }
    }
  }

  /** The roots before and after a block that takes the given transactions, in any order. */
  lemma BlockRootIff(c: Crypto, base: Ledger, txs: seq<Tx>, all: set<Tx>)
    requires c.Valid() && NoDebts(base) && multiset(txs) == multiset(all)
    ensures RootOf(c, base) == RootOf(c, ApplyAll(base, txs).0) <==> forall t | t in all :: Idle(base, t)
  {
    IdleListIff(base, txs, all);
    DebtsAndBalances(base);
    ApplyAllConserves(base, txs);
    DebtsAndBalances(ApplyAll(base, txs).0);
    RootNamesLedger(c, base, ApplyAll(base, txs).0);
    hide ApplyAll, RootOf, NoDebts, Solvent, Idle;
  }

  /** The root of the accounts before a block, which is what its header carries, is the root of the
      accounts after it exactly if the accounts cannot change: no pending transaction can transfer,
      every sender's balance is below the fee, and every sender has an account. */
  lemma HeaderRootIff(c: Crypto, p: Pool, base: Ledger)
    requires c.Valid() && NoDebts(base)
    ensures NoDebts(ExecuteBlock(p, base).ledger)
    ensures RootOf(c, base) == RootOf(c, ExecuteBlock(p, base).ledger) <==>
      forall t | t in p.pending.Values :: Idle(base, t)
  {
    var txs := Ordered(p.pending.Values);
    assert multiset(txs) == multiset(p.pending.Values);
    BlockRootIff(c, base, txs, p.pending.Values);
    DebtsAndBalances(base);
    ApplyAllConserves(base, txs);
    DebtsAndBalances(ApplyAll(base, txs).0);
    hide Ordered, ApplyAll, RootOf, NoDebts, Solvent, PoolAfter, Idle;
  }

  /** A restart reads the stored accounts back. The root it arrives at is that of the accounts after
      the latest block, so it is the one that the latest header carries exactly in the same case. */
  lemma RestartRootIff(c: Crypto, p: Pool, base: Ledger)
    requires c.Valid() && NoDebts(base)
    requires forall a | a in ExecuteBlock(p, base).ledger :: Scannable(a)
    ensures RootOf(c, Scanned(ExecuteBlock(p, base).ledger)) == RootOf(c, base) <==>
      forall t | t in p.pending.Values :: Idle(base, t)
  {
    HeaderRootIff(c, p, base);
    RebuildIff(c, ExecuteBlock(p, base).ledger);
    hide ExecuteBlock, RootOf, Idle;
  }
}
