/** The block service: it executes the pending transactions, promotes their successors and
    builds the block, on the real pool, accounts and stores. */
module BlockServices {
  import opened Types
  import opened LedgerOps
  import opened PendingOrder
  import opened Mempool
  import opened TransactionPools
  import opened BlockExecution
  import opened Journal
  import opened StateStore
  import opened StateRoots
  import opened AccountCache
  import opened AccountServices
  import opened StateManagers
  import opened ChainStore
  import opened BlockRepositories
  import opened NodeMachine
  import opened NodeChain

  datatype CreatedBlock = CreatedBlock(block: Block, receipts: seq<Receipt>)

  class BlockService {
    const crypto: Crypto
    const repository: BlockRepository
    const stateRepository: StateRepository
    const accounts: AccountService
    const txPool: TransactionPool

    constructor (c: Crypto, r: BlockRepository, s: StateRepository, a: AccountService, p: TransactionPool)
      ensures crypto == c && repository == r && stateRepository == s && accounts == a && txPool == p
    {
      crypto, repository, stateRepository, accounts, txPool := c, r, s, a, p;
    }

    /** The parts fit together, and the saved blocks form a chain. */
    ghost predicate Valid()
      reads this, repository, stateRepository, accounts, accounts.stateManager, accounts.stateManager.repository, txPool
    {
      && crypto.Valid()
      && repository.Valid()
      && accounts.Valid()
      && txPool.Valid()
      && stateRepository == accounts.stateManager.repository && stateRepository.crypto == crypto
      && Linked(crypto, repository.saved)
    }

    method ExecuteTransaction(tx: Tx) returns (thrown: bool)
      requires accounts.Valid()
      modifies accounts.stateManager
      ensures accounts.Valid() && accounts.Committed() == old(accounts.Committed())
      ensures Execute(old(accounts.Accounts()), tx)
        == if thrown then Failed(accounts.Accounts()) else Done(accounts.Accounts())
    {
      hide AccountService.Valid, AccountService.Accounts, AccountService.Committed;
      if IsDeployment(tx) {
        return true;
      }
      thrown := accounts.Transfer(tx.from, tx.payload.to.value, tx.payload.value);
      if !thrown {
        accounts.IncrementNonce(tx.from);
      }
    }

    /** One round of the execution loop: a transaction that throws is charged if possible. */
    method ExecuteOrCharge(tx: Tx) returns (outcome: Outcome)
      requires accounts.Valid()
      modifies accounts.stateManager
      ensures accounts.Valid() && accounts.Committed() == old(accounts.Committed())
      ensures ApplyTx(old(accounts.Accounts()), tx) == (accounts.Accounts(), outcome)
    {
      hide AccountService.Valid, AccountService.Accounts, AccountService.Committed, Execute;
      var thrown := ExecuteTransaction(tx);
      if !thrown {
        return Succeeded;
      }
      var unpaid := accounts.SubtractBalance(tx.from, TRANSFER_GAS);
      if unpaid {
        return Unpaid;
      }
      accounts.IncrementNonce(tx.from);
      return FeeTaken;
    }

    /** Executes transactions in order, takes each out of the pool and writes its receipt. */
    method ExecuteAll(txs: seq<Tx>, number: nat) returns (outcomes: seq<Outcome>, receipts: seq<Receipt>)
      requires accounts.Valid() && txPool.Valid()
      requires AllPending(txPool.Contents(), txs)
      modifies accounts.stateManager, txPool
      ensures accounts.Valid() && accounts.Committed() == old(accounts.Committed()) && txPool.Valid()
      ensures ApplyAll(old(accounts.Accounts()), txs) == (accounts.Accounts(), outcomes)
      ensures txPool.Contents() == Taken(old(txPool.Contents()), txs)
      ensures receipts == Receipts(number, "", txs, outcomes)
    {
      hide AccountService.Valid, AccountService.Accounts, AccountService.Committed, ApplyTx, ApplyAll, Taken,
        Receipts, Pool.Valid, Mempool.Remove, AllPending;
      outcomes, receipts := [], [];
      var cumulativeGasUsed := 0;
      ApplyNone(accounts.Accounts());
      TakenNone(txPool.Contents());
      NoReceipts(number);
      for i := 0 to |txs|
        invariant accounts.Valid() && accounts.Committed() == old(accounts.Committed()) && txPool.Valid()
        invariant ApplyAll(old(accounts.Accounts()), txs[..i]) == (accounts.Accounts(), outcomes)
        invariant txPool.Contents() == Taken(old(txPool.Contents()), txs[..i])
        invariant receipts == Receipts(number, "", txs[..i], outcomes) && cumulativeGasUsed == TRANSFER_GAS * i
      {
        var tx := txs[i];
        var outcome := ExecuteOrCharge(tx);
        TakenOne(old(txPool.Contents()), txs, i);
        txPool.Remove(tx.hash);
        cumulativeGasUsed := cumulativeGasUsed + TRANSFER_GAS;
        var receipt := Receipt(tx.hash, i, "", number, tx.from, tx.payload.to, outcome == Succeeded,
                               TRANSFER_GAS, cumulativeGasUsed);
        OneMoreReceipt(number, txs[..i], outcomes, tx, outcome);
        ApplyOneMore(old(accounts.Accounts()), txs, i);
        assert txs[..i + 1] == txs[..i] + [tx];
        receipts := receipts + [receipt];
        outcomes := outcomes + [outcome];
      }
      assert txs[..|txs|] == txs;
    }

    /** Promotes, sender by sender, what the senders' new nonces allow. */
    method PromoteAll(txs: seq<Tx>)
      requires accounts.Valid() && txPool.Valid()
      modifies accounts.stateManager, txPool
      ensures accounts.Valid() && txPool.Valid()
      ensures accounts.Committed() == old(accounts.Committed()) && accounts.Accounts() == old(accounts.Accounts())
      ensures txPool.Contents() == Promote(old(txPool.Contents()), Due(accounts.Accounts(), txs))
    {
      hide AccountService.Valid, AccountService.Accounts, AccountService.Committed, Promote;
      var processed: set<Address> := {};
      ghost var l, start := accounts.Accounts(), txPool.Contents();
      PromoteNone(start);
      for i := 0 to |txs|
        invariant accounts.Valid() && txPool.Valid()
        invariant accounts.Committed() == old(accounts.Committed()) && accounts.Accounts() == l
        invariant processed == Senders(txs[..i])
        invariant txPool.Contents() == Promote(start, Due(l, txs[..i]))
      {
        var from := txs[i].from;
        DueGrows(l, txs, i);
        if from !in processed {
          processed := processed + {from};
          var newNonce := accounts.GetNonce(from);
          PromoteOneMore(start, Due(l, txs[..i]), from, newNonce);
          txPool.PromoteQueuedToPending(from, newNonce);
        }
      }
      assert txs[..|txs|] == txs;
    }

    /** Computes the roots and the hash of the block of executed transactions, and writes the hash into
        their receipts. */
    method Assemble(latest: Header, stateRoot: Hash, proposer: Address, timestamp: nat, txs: seq<Tx>,
                    receipts: seq<Receipt>, ghost parent: Block, ghost l: Ledger)
      returns (created: CreatedBlock)
      requires latest.number == parent.preimage.number && latest.hash == parent.hash
      requires receipts == Receipts(latest.number + 1, "", txs, ApplyAll(l, txs).1)
      ensures created.block == BlockOver(crypto, parent, stateRoot, proposer, timestamp, txs, ApplyAll(l, txs).1)
      ensures created.block.transactions == txs && created.block.preimage.number == latest.number + 1
      ensures created.block.preimage.stateRoot == stateRoot
      ensures created.receipts == Receipts(latest.number + 1, created.block.hash, txs, ApplyAll(l, txs).1)
      ensures HasFields(crypto, parent, created.block, created.receipts, stateRoot, proposer, timestamp)
      ensures ReceiptsMatch(created.receipts, created.block, l)
    {
      FieldsOfBlock(crypto, parent, stateRoot, proposer, timestamp, txs, l);
      hide ApplyAll, Receipts, TransactionsRoot, ReceiptsRoot, HasFields, ReceiptsMatch;
      var number := latest.number + 1;
      var preimage := Preimage(latest.hash, stateRoot, TransactionsRoot(crypto, txs), ReceiptsRoot(crypto, receipts),
                               number, timestamp, proposer);
      var block := SealBlock(crypto, preimage, txs);
      var named := NameBlock(receipts, block.hash, number, txs, ApplyAll(l, txs).1);
      return CreatedBlock(block, named);
    }

    /** Builds the next block over the latest saved one; throws if there is no genesis block, or if
        an exception interrupts it between the execution loop and the promotion. The block is not
        saved. */
    method CreateBlock(proposer: Address, timestamp: nat, interrupted: bool) returns (created: Option<CreatedBlock>)
      requires Valid()
      modifies accounts.stateManager, txPool, repository`headerCache
      ensures Valid() && accounts.Committed() == old(accounts.Committed())
      ensures created.None? <==> repository.saved == [] || interrupted
      ensures repository.saved == [] ==>
        accounts.Accounts() == old(accounts.Accounts()) && txPool.Contents() == old(txPool.Contents())
      ensures repository.saved != [] && interrupted ==>
        && txPool.Contents() == Pool(map[], old(txPool.Contents()).queued)
        && (StrictTotalOrder(old(txPool.pending).Values) ==>
          accounts.Accounts() == ApplyAll(old(accounts.Accounts()), Ordered(old(txPool.pending).Values)).0)
      ensures created.Some? ==>
        var block := created.value.block;
        var txs := block.transactions;
        var (l, os) := ApplyAll(old(accounts.Accounts()), txs);
        && multiset(txs) == multiset(old(txPool.pending).Values)
        && (StrictTotalOrder(old(txPool.pending).Values) ==> txs == Ordered(old(txPool.pending).Values))
        && accounts.Accounts() == l
        && txPool.Contents() == PoolAfter(old(txPool.Contents()), l, txs)
        && block == BlockOver(crypto, repository.saved[|repository.saved| - 1], RootOf(crypto, accounts.Committed()),
                              proposer, timestamp, txs, os)
        && created.value.receipts == Receipts(block.preimage.number, block.hash, txs, os)
      ensures created.Some? ==>
        var block, receipts := created.value.block, created.value.receipts;
        && HasFields(crypto, repository.saved[|repository.saved| - 1], block, receipts,
                     RootOf(crypto, accounts.Committed()), proposer, timestamp)
        && ReceiptsMatch(receipts, block, old(accounts.Accounts()))
        && PricesFall(block.transactions)
        && (StrictTotalOrder(old(txPool.pending).Values) ==> TiesRanked(block.transactions))
      ensures created.Some? && old(accounts.Accounts()) == old(accounts.Committed()) ==>
        (created.value.block.preimage.stateRoot == RootOf(crypto, accounts.Accounts()) <==>
         forall t | t in old(txPool.pending).Values :: Idle(old(accounts.Accounts()), t))
    {
      hide AccountService.Valid, AccountService.Accounts, ApplyAll, Promote, Taken, Receipts, BlockRepository.Valid,
        StateRepository.Valid, TransactionsRoot, ReceiptsRoot, StrictTotalOrder, Ordered, RootOf, Linked, HasFields,
        ReceiptsMatch, PricesFall, TiesRanked, Idle, NoDebts, BlockOver, AccountService.Committed, Listed,
        Crypto.Valid;
      StoresNoDebts();
      var latest := repository.FindLatest();
      if latest.None? {
        return None;
      }
      var number := latest.value.header.number + 1;
      var txs := txPool.GetPending();
      DistinctElements(txs, txPool.pending.Values);
      var outcomes, receipts := ExecuteAll(txs, number);
      TakenAll(old(txPool.Contents()), txs);
      if interrupted {
        return None;
      }
      BlockRootIff(crypto, old(accounts.Accounts()), txs, old(txPool.pending).Values);
      var stateRoot := CurrentRoot();
      var block := Assemble(latest.value.header, stateRoot, proposer, timestamp, txs, receipts,
                            repository.saved[|repository.saved| - 1], old(accounts.Accounts()));
      PromoteAll(txs);
      return Some(block);
    }

    lemma StoresNoDebts()
      requires accounts.Valid()
      ensures NoDebts(accounts.Accounts())
    {
      hide AccountService.Valid, AccountService.Accounts;
      accounts.NeverNegative();
    }

    /** What a restart does: the trie is read back from the stored accounts, and the root in the latest
        header, although it is passed along, has no part in that. If every stored address is read
        back, nothing changes, and the root is that of the stored accounts. */
    method RestoreState()
      requires Valid()
      modifies stateRepository, repository`headerCache
      ensures repository.saved == [] || (forall a | a in accounts.Committed() :: Scannable(a)) ==>
        Valid() && stateRepository.currentRoot == RootOf(crypto, accounts.Committed())
      ensures accounts.Committed() == old(accounts.Committed()) && repository.saved == old(repository.saved)
      ensures repository.saved != [] ==>
        stateRepository.currentRoot == RootOf(crypto, Scanned(accounts.Committed()))
    {
      hide Linked, Listed, BlockRepository.Valid, Crypto.Valid, RootOf, TrieOf, TableOf, Pool.Valid, Scannable, Sound,
        Coherent;
      var latest := repository.FindLatest();
      if latest.Some? {
        RebuildIff(crypto, accounts.Committed());
        stateRepository.SetStateRoot(latest.value.header.stateRoot);
      }
    }

    /** With a block already saved this changes nothing; otherwise it credits the allocation,
        commits it and saves the genesis block, whose proposer is the first account. */
    method CreateGenesisBlock(alloc: seq<(Address, int)>, timestamp: nat) returns (thrown: bool)
      requires Valid()
      modifies accounts.stateManager, repository, stateRepository
      ensures Valid()
      ensures old(repository.saved) != [] ==>
        && !thrown && repository.saved == old(repository.saved)
        && accounts.Accounts() == old(accounts.Accounts()) && accounts.Committed() == old(accounts.Committed())
      ensures old(repository.saved) == [] ==>
        && (thrown <==> alloc == [] || Allocate(old(accounts.Accounts()), alloc).Failed?)
        && (thrown ==> repository.saved == [] && accounts.Committed() == old(accounts.Committed()))
        && (!thrown ==>
          && repository.saved
            == [GenesisBlock(crypto, RootOf(crypto, old(accounts.Committed())), alloc[0].0, timestamp)]
          && accounts.Accounts() == accounts.Committed()
            == old(accounts.Committed()) + Allocate(old(accounts.Accounts()), alloc).ledger)
      ensures old(repository.saved) == [] && old(accounts.Accounts()) == map[] && old(accounts.Committed()) == map[] ==>
        match Genesis(crypto, alloc, timestamp)
        case None => thrown
        case Some(g) => !thrown && repository.saved == g.chain && accounts.Accounts() == g.accounts
      ensures old(repository.saved) == [] && old(accounts.Accounts()) == map[] && old(accounts.Committed()) == map[] ==>
        thrown || HoldsAllocation(accounts.Accounts(), alloc)
      ensures old(repository.saved) == [] && !thrown ==>
        && |repository.saved| == 1
        && IsGenesis(crypto, repository.saved[0], RootOf(crypto, old(accounts.Committed())), alloc[0].0, timestamp)
    {
      hide AccountService.Valid, AccountService.Accounts, AccountService.Committed, BlockRepository.Valid,
        StateRepository.Valid, RootOf, Linked, Allocate, GenesisBlock, Crypto.Valid, Listed, HoldsAllocation,
        IsGenesis, AnswersNumber, AnswersHash, ReadsBack, Restored, ByNumber;
      LinkedIsListed(crypto, repository.saved);
      var existing := repository.FindByNumber(0);
      if existing.Some? {
        return false;
      }
      thrown := CreditAll(alloc);
      if thrown || |alloc| == 0 {
        return true;
      }
      GenesisPays(alloc);
      var stateRoot := CurrentRoot();
      EmptyRoot(crypto);
      FieldsOfGenesis(crypto, stateRoot, alloc[0].0, timestamp);
      var block := GenesisBlock(crypto, stateRoot, alloc[0].0, timestamp);
      CommitAccounts();
      GenesisLinks(crypto, stateRoot, alloc[0].0, timestamp);
      HashIsPrefixed(crypto, [block]);
      assert repository.saved + [block] == [block];
      repository.Save(block);
    }

    /** Flushes the journal: what callers read, over what was committed, is what is committed and
        read afterwards. The account service leaves nothing that could not be stored. */
    method CommitAccounts()
      requires accounts.Valid()
      modifies accounts.stateManager, accounts.stateManager.repository
      ensures accounts.Valid()
      ensures accounts.Accounts() == accounts.Committed() == old(accounts.Committed()) + old(accounts.Accounts())
    {
      hide StateManager.Valid, View, Journal.Step;
      CommittedView(accounts.stateManager.Now());
      MergedSound(accounts.stateManager.journalStack);
      var thrown, left := accounts.stateManager.CommitBlock();
    }

    method CreditAll(alloc: seq<(Address, int)>) returns (thrown: bool)
      requires accounts.Valid()
      modifies accounts.stateManager
      ensures accounts.Valid() && accounts.Committed() == old(accounts.Committed())
      ensures Allocate(old(accounts.Accounts()), alloc).Done? <==> !thrown
      ensures !thrown ==> Allocate(old(accounts.Accounts()), alloc) == Done(accounts.Accounts())
    {
      hide AccountService.Valid, AccountService.Accounts, AccountService.Committed;
      for i := 0 to |alloc|
        invariant accounts.Valid() && accounts.Committed() == old(accounts.Committed())
        invariant Allocate(old(accounts.Accounts()), alloc[..i]) == Done(accounts.Accounts())
      {
        assert alloc[..i + 1][..i] == alloc[..i];
        thrown := accounts.AddBalance(alloc[i].0, alloc[i].1);
        if thrown {
          AllocateStops(old(accounts.Accounts()), alloc, i + 1);
          return;
        }
      }
      assert alloc[..|alloc|] == alloc;
      return false;
    }

    method CurrentRoot() returns (root: Hash)
      requires Valid()
      ensures root == RootOf(crypto, accounts.Committed())
    {
      hide RootOf, TrieOf, TableOf;
      root := stateRepository.GetStateRoot();
    }

    /** Saves a block that was built over the latest saved one. */
    method SaveBlock(block: Block)
      requires Valid() && repository.saved != [] && Follows(crypto, repository.saved, block)
      modifies repository
      ensures Valid() && repository.saved == old(repository.saved) + [block]
    {
      hide AccountService.Valid, BlockRepository.Valid, Linked, Crypto.Valid, Listed;
      NextBlockLinks(crypto, repository.saved, block);
      HashIsPrefixed(crypto, repository.saved + [block]);
      repository.Save(block);
    }

    /** Writes the block's hash into its receipts. */
    method NameBlock(receipts: seq<Receipt>, blockHash: Hash, ghost number: nat, ghost txs: seq<Tx>,
                     ghost outcomes: seq<Outcome>)
      returns (named: seq<Receipt>)
      requires |outcomes| == |txs| && receipts == Receipts(number, "", txs, outcomes)
      ensures named == Receipts(number, blockHash, txs, outcomes)
    {
      named := [];
      for i := 0 to |receipts|
        invariant |named| == i
        invariant forall k | 0 <= k < i :: named[k] == receipts[k].(blockHash := blockHash)
      {
        named := named + [receipts[i].(blockHash := blockHash)];
      }
    }
  }

  lemma EmptyRoot(c: Crypto)
    requires c.Valid()
    ensures RootOf(c, map[]) == c.trieRoot(map[])
  {
    EmptyTrie(c);
  }

  lemma {:induction false} AllocateStops(l: Ledger, alloc: seq<(Address, int)>, n: nat)
    requires n <= |alloc| && Allocate(l, alloc[..n]).Failed?
    ensures Allocate(l, alloc).Failed?
  {
    if n < |alloc| {
      assert alloc[..|alloc| - 1][..n] == alloc[..n];
      AllocateStops(l, alloc[..|alloc| - 1], n);
    } else {
      assert alloc[..n] == alloc;
    }
  }

  /** A linked chain is one that the block repository can hold. */
  lemma LinkedIsListed(c: Crypto, chain: seq<Block>)
    requires c.Valid() && Linked(c, chain)
    ensures Listed(chain)
  {
    hide GenesisParent;
    forall k | 0 <= k < |chain| ensures chain[k].preimage.number == k && Prefixed(chain[k].hash) {
      assert LinkedAt(c, chain, k);
    }
    forall i, j | 0 <= i < j < |chain| ensures chain[i].hash != chain[j].hash {
      HashesDistinct(c, chain, i, j);
    }
  }

  /** A header that is found in such a chain hashes to its own hash, and names the hash of the one that is
      found one number below as its parent's. */
  lemma FoundHeaders(c: Crypto, chain: seq<Block>, n: nat)
    requires c.Valid() && Linked(c, chain) && n < |chain|
    ensures ByNumber(chain, n).Some?
    ensures
      var h := ByNumber(chain, n).value.header;
      && h.hash == c.blockHash(Preimage(h.parentHash, h.stateRoot, h.transactionsRoot, h.receiptsRoot, h.number,
                                        h.timestamp, h.proposer))
      && h.number == n
      && (n > 0 ==> ByNumber(chain, n - 1).Some? && h.parentHash == ByNumber(chain, n - 1).value.header.hash)
  {
    LinkedIsListed(c, chain);
    ListedAnswers(chain, n);
    assert LinkedAt(c, chain, n);
    if n > 0 {
      ListedAnswers(chain, n - 1);
    }
    hide Linked, Listed, ByNumber, Restored, GenesisParent, Crypto.Valid;
  }

  lemma HashIsPrefixed(c: Crypto, chain: seq<Block>)
    requires c.Valid() && Linked(c, chain) && |chain| > 0
    ensures Prefixed(chain[|chain| - 1].hash)
  {
    assert LinkedAt(c, chain, |chain| - 1);
  }

  // ---------- Taking transactions out of the pool ----------

  /** Different transactions, all of them pending. */
  ghost predicate AllPending(p: Pool, txs: seq<Tx>) {
    && (forall t | t in txs :: p.IsPending(t))
    && (forall i, j | 0 <= i < j < |txs| :: txs[i] != txs[j])
  }

  ghost function HashesOf(txs: seq<Tx>): set<Hash> {
    set i | 0 <= i < |txs| :: txs[i].hash
  }

  /** The pool without the given pending transactions. */
  ghost function Taken(p: Pool, txs: seq<Tx>): Pool {
    p.(pending := p.pending - HashesOf(txs))
  }

  lemma TakenNone(p: Pool)
    ensures Taken(p, []) == p
  {
    assert p.pending - {} == p.pending;
  }

  lemma HashesOfMore(txs: seq<Tx>, i: nat)
    requires i < |txs|
    ensures HashesOf(txs[..i + 1]) == HashesOf(txs[..i]) + {txs[i].hash}
  {
    var init, more := txs[..i], txs[..i + 1];
    assert forall k | 0 <= k < i :: init[k] == more[k];
    assert more[i] == txs[i];
  }

  lemma TakenOne(p: Pool, txs: seq<Tx>, i: nat)
    requires i < |txs| && AllPending(p, txs)
    ensures Taken(p, txs[..i + 1]) == Mempool.Remove(Taken(p, txs[..i]), txs[i].hash)
  {
    HashesOfMore(txs, i);
    var before, after := HashesOf(txs[..i]), HashesOf(txs[..i + 1]);
    assert txs[i] in txs;
    forall k | 0 <= k < i ensures txs[..i][k].hash != txs[i].hash {
      assert txs[k] in txs && txs[k] != txs[i];
    }
    assert txs[i].hash in Taken(p, txs[..i]).pending;
    assert p.pending - after == p.pending - before - {txs[i].hash};
  }

  lemma TakenAll(p: Pool, txs: seq<Tx>)
    requires p.Valid() && forall t :: t in txs <==> p.IsPending(t)
    ensures Taken(p, txs) == Pool(map[], p.queued)
  {
    forall h | h in p.pending ensures h in HashesOf(txs) {
      assert p.IsPending(p.pending[h]);
      var i :| 0 <= i < |txs| && txs[i] == p.pending[h];
    }
  }

  lemma ApplyNone(l: Ledger)
    ensures ApplyAll(l, []) == (l, [])
  {
  }

  lemma ApplyOneMore(l: Ledger, txs: seq<Tx>, i: nat)
    requires i < |txs|
    ensures
      var (l1, os) := ApplyAll(l, txs[..i]);
      var (l2, o) := ApplyTx(l1, txs[i]);
      ApplyAll(l, txs[..i + 1]) == (l2, os + [o])
  {
    hide ApplyTx;
    assert txs[..i + 1][..i] == txs[..i];
  }

  lemma NoReceipts(number: nat)
    ensures Receipts(number, "", [], []) == []
  {
  }

  lemma OneMoreReceipt(number: nat, txs: seq<Tx>, os: seq<Outcome>, tx: Tx, o: Outcome)
    requires |os| == |txs|
    ensures Receipts(number, "", txs + [tx], os + [o]) == Receipts(number, "", txs, os)
      + [Receipt(tx.hash, |txs|, "", number, tx.from, tx.payload.to, o == Succeeded,
                 TRANSFER_GAS, TRANSFER_GAS * (|txs| + 1))]
  {
  }

  // ---------- Promoting sender by sender ----------

  lemma PromoteNone(p: Pool)
    ensures forall due: map<Address, nat> | due == map[] :: Promote(p, due) == p
  {
    var due: map<Address, nat> := map[];
    assert RipePart(p.queued, due) == map[];
    assert p.pending + RipePart(p.queued, due) == p.pending;
    assert p.queued - RipePart(p.queued, due).Keys == p.queued;
  }

  lemma DueGrows(l: Ledger, txs: seq<Tx>, i: nat)
    requires i < |txs|
    ensures Senders(txs[..i + 1]) == Senders(txs[..i]) + {txs[i].from}
    ensures Due(l, txs[..i + 1]) == Due(l, txs[..i])[txs[i].from := NonceOf(l, txs[i].from)]
    ensures txs[i].from in Senders(txs[..i]) ==> Due(l, txs[..i + 1]) == Due(l, txs[..i])
  {
    var s, t := txs[..i], txs[..i + 1];
    assert forall k | 0 <= k < i :: t[k] == s[k];
    assert t[i] == txs[i];
  }
}
