/** The chain that the node builds, over every run: numbered, linked, append-only, and holding
    exactly the transactions that the history says it holds. */
module NodeChain {
  import opened Types
  import opened LedgerOps
  import opened PendingOrder
  import opened Mempool
  import opened TxRequests
  import opened BlockExecution
  import opened Consensus
  import opened NodeMachine
  import opened NodeHistory
  import opened NodeLiveness

  /** Block k has number k, names block k-1 as its parent and is identified by its header. */
  ghost predicate LinkedAt(c: Crypto, chain: seq<Block>, k: nat)
    requires k < |chain|
  {
    && chain[k].preimage.number == k
    && chain[k].hash == c.blockHash(chain[k].preimage)
    && chain[k].preimage.parentHash == if k == 0 then GenesisParent() else chain[k - 1].hash
  }

  ghost predicate Linked(c: Crypto, chain: seq<Block>) {
    forall k | 0 <= k < |chain| :: LinkedAt(c, chain, k)
  }

  /** The transactions of all blocks, in chain order. */
  function AllTxs(chain: seq<Block>): seq<Tx> {
    if |chain| == 0 then []
    else AllTxs(chain[..|chain| - 1]) + chain[|chain| - 1].transactions
  }

  ghost predicate ChainInv(c: Crypto, s: Node) {
    && s.chain != []
    && Linked(c, s.chain)
    && AllTxs(s.chain) == Txs(s.log)
  }

  /** The block is built over the last one of the chain. */
  ghost predicate Follows(c: Crypto, chain: seq<Block>, b: Block)
    requires chain != []
  {
    var latest := chain[|chain| - 1];
    && b.preimage.number == latest.preimage.number + 1
    && b.preimage.parentHash == latest.hash
    && b.hash == c.blockHash(b.preimage)
  }

  lemma NextBlockLinks(c: Crypto, chain: seq<Block>, b: Block)
    requires chain != [] && Linked(c, chain) && Follows(c, chain, b)
    ensures Linked(c, chain + [b])
  {
    hide GenesisParent;
    var all := chain + [b];
    assert LinkedAt(c, chain, |chain| - 1);
    forall k | 0 <= k < |chain| ensures LinkedAt(c, all, k) {
      assert LinkedAt(c, chain, k);
    }
  }

  lemma NewBlockLinks(c: Crypto, s: Node, slot: Slot)
    requires s.chain != [] && Linked(c, s.chain)
    ensures
      var b := NewBlock(c, s, slot);
      Linked(c, s.chain + [b]) && b.transactions == ExecuteBlock(s.pool, slot.base).txs
  {
    hide ExecuteBlock, TransactionsRoot, ReceiptsRoot, Receipts, Linked;
    NextBlockLinks(c, s.chain, NewBlock(c, s, slot));
  }

  // ---------- The fields of a block ----------

  /** Receipts as they are hashed, before they name their block. */
  function Unnamed(receipts: seq<Receipt>): seq<Receipt> {
    seq(|receipts|, i requires 0 <= i < |receipts| => receipts[i].(blockHash := ""))
  }

  /** Each field of a block that is created over a parent and leaves these receipts. */
  ghost predicate HasFields(c: Crypto, parent: Block, b: Block, receipts: seq<Receipt>, stateRoot: Hash,
                            proposer: Address, timestamp: nat) {
    && b.preimage.parentHash == parent.hash
    && b.preimage.stateRoot == stateRoot
    && b.preimage.transactionsRoot == (if b.transactions == [] then EMPTY_ROOT else c.transactionsRoot(b.transactions))
    && b.preimage.receiptsRoot == (if receipts == [] then EMPTY_ROOT else c.receiptsRoot(Unnamed(receipts)))
    && b.preimage.number == parent.preimage.number + 1
    && b.preimage.timestamp == timestamp
    && b.preimage.proposer == proposer
    && b.hash == c.blockHash(b.preimage)
  }

  /** Each field of the i-th receipt of a block that was executed on accounts l. */
  ghost predicate ReceiptOf(r: Receipt, b: Block, l: Ledger, i: nat)
    requires i < |b.transactions|
  {
    var tx := b.transactions[i];
    && r.transactionHash == tx.hash && r.transactionIndex == i
    && r.blockHash == b.hash && r.blockNumber == b.preimage.number
    && r.from == tx.from && r.to == tx.payload.to
    && (r.succeeded <==> CanTransfer(ApplyAll(l, b.transactions[..i]).0, tx))
    && r.gasUsed == 21000 && r.cumulativeGasUsed == 21000 * (i + 1)
  }

  ghost predicate ReceiptsMatch(receipts: seq<Receipt>, b: Block, l: Ledger) {
    |receipts| == |b.transactions| && forall i | 0 <= i < |receipts| :: ReceiptOf(receipts[i], b, l, i)
  }

  /** The block has the given fields, with receipts of its execution on accounts l. */
  ghost predicate BuiltOn(c: Crypto, parent: Block, b: Block, l: Ledger, stateRoot: Hash,
                          proposer: Address, timestamp: nat) {
    exists receipts ::
      HasFields(c, parent, b, receipts, stateRoot, proposer, timestamp) && ReceiptsMatch(receipts, b, l)
  }

  lemma FieldsOfBlock(c: Crypto, parent: Block, stateRoot: Hash, proposer: Address, timestamp: nat,
                      txs: seq<Tx>, l: Ledger)
    ensures
      var os := ApplyAll(l, txs).1;
      var b := BlockOver(c, parent, stateRoot, proposer, timestamp, txs, os);
      var receipts := Receipts(b.preimage.number, b.hash, txs, os);
      && b.transactions == txs
      && HasFields(c, parent, b, receipts, stateRoot, proposer, timestamp)
      && ReceiptsMatch(receipts, b, l)
  {
    hide ApplyAll, ReceiptsMatch;
    var os := ApplyAll(l, txs).1;
    var b := BlockOver(c, parent, stateRoot, proposer, timestamp, txs, os);
    var receipts := Receipts(b.preimage.number, b.hash, txs, os);
    assert Unnamed(receipts) == Receipts(b.preimage.number, "", txs, os);
    ReceiptsOf(b, l);
  }

  lemma ReceiptsOf(b: Block, l: Ledger)
    ensures ReceiptsMatch(Receipts(b.preimage.number, b.hash, b.transactions, ApplyAll(l, b.transactions).1), b, l)
  {
    hide ApplyAll, CanTransfer, ApplyTx, Receipts;
    var txs := b.transactions;
    var receipts := Receipts(b.preimage.number, b.hash, txs, ApplyAll(l, txs).1);
    ReceiptsAt(b.preimage.number, b.hash, txs, ApplyAll(l, txs).1);
    forall i | 0 <= i < |receipts| ensures ReceiptOf(receipts[i], b, l, i) {
      OutcomesOfPrefix(l, txs, i);
      ApplyTxMeaning(ApplyAll(l, txs[..i]).0, txs[i]);
    }
  }

  lemma ReceiptsAt(number: nat, blockHash: Hash, txs: seq<Tx>, os: seq<Outcome>)
    requires |os| == |txs|
    ensures
      var receipts := Receipts(number, blockHash, txs, os);
      |receipts| == |txs| && forall i | 0 <= i < |txs| ::
        receipts[i] == Receipt(txs[i].hash, i, blockHash, number, txs[i].from, txs[i].payload.to, os[i] == Succeeded,
                               21000, 21000 * (i + 1))
  {
  }

  /** What a slot of the machine puts into its block, and in which order it executes it. */
  lemma FieldsOfNewBlock(c: Crypto, s: Node, slot: Slot)
    requires s.chain != []
    ensures
      var b, e := NewBlock(c, s, slot), ExecuteBlock(s.pool, slot.base);
      var receipts := Receipts(b.preimage.number, b.hash, e.txs, e.outcomes);
      && HasFields(c, s.chain[|s.chain| - 1], b, receipts, slot.stateRoot, slot.proposer, slot.timestamp)
      && ReceiptsMatch(receipts, b, slot.base)
      && multiset(b.transactions) == multiset(s.pool.pending.Values) && PricesFall(b.transactions)
      && (PoolInv(s.pool, s.accounts) ==> TiesRanked(b.transactions))
  {
    var txs := Ordered(s.pool.pending.Values);
    OrderedMeans(s.pool.pending.Values);
    if PoolInv(s.pool, s.accounts) {
      PendingIsOrdered(s.pool, s.accounts);
    }
    hide Ordered, ApplyAll, PoolInv, PoolAfter, HasFields, ReceiptsMatch, Receipts, BlockOver, PricesFall, TiesRanked,
      StrictTotalOrder;
    FieldsOfBlock(c, s.chain[|s.chain| - 1], slot.stateRoot, slot.proposer, slot.timestamp, txs, slot.base);
  }

  /** Each field of the genesis block. */
  ghost predicate IsGenesis(c: Crypto, b: Block, stateRoot: Hash, proposer: Address, timestamp: nat) {
    && |b.preimage.parentHash| == 66 && b.preimage.parentHash[..2] == "0x"
    && (forall i | 2 <= i < 66 :: b.preimage.parentHash[i] == '0')
    && b.preimage.stateRoot == stateRoot
    && b.preimage.transactionsRoot == EMPTY_ROOT && b.preimage.receiptsRoot == EMPTY_ROOT
    && b.preimage.number == 0 && b.preimage.timestamp == timestamp && b.preimage.proposer == proposer
    && b.transactions == [] && b.hash == c.blockHash(b.preimage)
  }

  lemma FieldsOfGenesis(c: Crypto, stateRoot: Hash, proposer: Address, timestamp: nat)
    ensures IsGenesis(c, GenesisBlock(c, stateRoot, proposer, timestamp), stateRoot, proposer, timestamp)
  {
  }

  // ---------- Over a run ----------

  /** A step appends its block to the chain if it is a slot that saves; otherwise, whether the
      step is skipped, rejected or interrupted, the chain stays as it was. */
  lemma StepOnChain(c: Crypto, s: Node, step: Step)
    requires ChainInv(c, s)
    ensures ChainInv(c, Next(c, s, step))
    ensures Next(c, s, step).chain
      == s.chain + if step.ProduceSlot? && step.slot.Saves() then [NewBlock(c, s, step.slot)] else []
  {
    hide Submit, ExecuteBlock, AfterRewards, NewBlock, Linked, Attesters, Txs, Log;
    if step.ProduceSlot? && step.slot.Saves() {
      NewBlockLinks(c, s, step.slot);
      var e, b := ExecuteBlock(s.pool, step.slot.base), NewBlock(c, s, step.slot);
      TxsOfLog(s.log, e.txs, e.outcomes);
      assert (s.chain + [b])[..|s.chain|] == s.chain;
    }
  }

  /** Every run from genesis, whatever goes wrong in it, leaves a linked chain that holds one
      block for genesis and one for each slot that saved its block, and earlier blocks stay. */
  lemma {:induction false} ChainHolds(c: Crypto, s: Node, steps: seq<Step>)
    requires ChainInv(c, s)
    ensures ChainInv(c, Run(c, s, steps))
    ensures s.chain <= Run(c, s, steps).chain && |Run(c, s, steps).chain| == |s.chain| + CountSaves(steps)
  {
    if |steps| > 0 {
      var init, step := steps[..|steps| - 1], steps[|steps| - 1];
      ChainHolds(c, s, init);
      hide Next, ChainInv, Attesters;
      StepOnChain(c, Run(c, s, init), step);
    }
  }

  lemma ChainFromGenesis(c: Crypto, alloc: seq<(Address, int)>, timestamp: nat, steps: seq<Step>)
    requires Genesis(c, alloc, timestamp).Some?
    ensures
      var s := Run(c, Genesis(c, alloc, timestamp).value, steps);
      ChainInv(c, s) && |s.chain| == 1 + CountSaves(steps)
  {
    hide Run, Allocate;
    var g := Genesis(c, alloc, timestamp).value;
    assert AllTxs(g.chain[..0]) == [] == Txs(g.log);
    assert AllTxs(g.chain) == AllTxs(g.chain[..0]) + g.chain[0].transactions;
    ChainHolds(c, g, steps);
  }

  /** No two blocks of a linked chain share a hash. */
  lemma HashesDistinct(c: Crypto, chain: seq<Block>, i: nat, j: nat)
    requires c.Valid() && Linked(c, chain) && i < j < |chain|
    ensures chain[i].hash != chain[j].hash && Prefixed(chain[i].hash)
  {
    assert LinkedAt(c, chain, i) && LinkedAt(c, chain, j);
  }

  lemma GenesisLinks(c: Crypto, stateRoot: Hash, proposer: Address, timestamp: nat)
    ensures Linked(c, [GenesisBlock(c, stateRoot, proposer, timestamp)])
  {
  }

  /** The receipts of a block count up the gas from 21000, one step for each transaction, and
      report success exactly for the transfers that were made. */
  lemma ReceiptsOfBlock(p: Pool, l: Ledger, number: nat, blockHash: Hash, i: nat)
    requires i < |ExecuteBlock(p, l).txs|
    ensures
      var e := ExecuteBlock(p, l);
      var r := Receipts(number, blockHash, e.txs, e.outcomes)[i];
      && r.transactionHash == e.txs[i].hash
      && r.cumulativeGasUsed == r.gasUsed
        + (if i == 0 then 0 else Receipts(number, blockHash, e.txs, e.outcomes)[i - 1].cumulativeGasUsed)
      && (r.succeeded <==> CanTransfer(ApplyAll(l, e.txs[..i]).0, e.txs[i]))
  {
    var e := ExecuteBlock(p, l);
    OutcomesOfPrefix(l, e.txs, i);
    ApplyTxMeaning(ApplyAll(l, e.txs[..i]).0, e.txs[i]);
    hide Ordered, ApplyAll, PoolAfter, ApplyTx, CanTransfer;
  }
}
