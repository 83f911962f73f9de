/** One node as a state machine: requests are submitted, slots come and go. Both kinds of step
    are taken as atomic. */
module NodeMachine {
  import opened Types
  import Numerals
  import opened LedgerOps
  import opened PendingOrder
  import opened Mempool
  import opened TxRequests
  import opened BlockExecution
  import opened Consensus
  import opened Rewards

  function GenesisParent(): Hash {
    "0x" + Numerals.Zeros(64)
  }

  datatype Included = Included(tx: Tx, outcome: Outcome)

  /** accounts is what a caller reads. The last three components are history: the accepted
      transactions, those in saved blocks with what became of them, and those that left the
      pool with a block that was never saved. */
  datatype Node = Node(
    accounts: Ledger, pool: Pool, chain: seq<Block>,
    accepted: seq<Tx>, log: seq<Included>, dropped: seq<Tx>)

  // ---------- Genesis ----------

  /** Credits the accounts of the allocation in turn. */
  function Allocate(l: Ledger, alloc: seq<(Address, int)>): Attempt {
    if |alloc| == 0 then Done(l)
    else match Allocate(l, alloc[..|alloc| - 1])
      case Failed(l1) => Failed(l1)
      case Done(l1) => AddBalance(l1, alloc[|alloc| - 1].0, alloc[|alloc| - 1].1)
  }

  /** The sum of an address's entries in the allocation. */
  function Allotted(alloc: seq<(Address, int)>, x: Address): int {
    if |alloc| == 0 then 0
    else (if alloc[0].0 == x then alloc[0].1 else 0) + Allotted(alloc[1..], x)
  }

  lemma {:induction false} AllottedLast(alloc: seq<(Address, int)>, x: Address)
    requires |alloc| > 0
    ensures
      var init, last := alloc[..|alloc| - 1], alloc[|alloc| - 1];
      Allotted(alloc, x) == Allotted(init, x) + if last.0 == x then last.1 else 0
  {
    if |alloc| > 1 {
      AllottedLast(alloc[1..], x);
      assert alloc[1..][..|alloc| - 2] == alloc[..|alloc| - 1][1..];
    }
  }

  /** Every address starts with what it was allotted. */
  lemma {:induction false} AllocatePays(l: Ledger, alloc: seq<(Address, int)>, x: Address)
    requires Allocate(l, alloc).Done?
    ensures BalanceOf(Allocate(l, alloc).ledger, x) == BalanceOf(l, x) + Allotted(alloc, x)
  {
    if |alloc| > 0 {
      AllocatePays(l, alloc[..|alloc| - 1], x);
      AllottedLast(alloc, x);
    }
  }

  /** Everybody's balance is what the allocation gives. */
  ghost predicate HoldsAllocation(l: Ledger, alloc: seq<(Address, int)>) {
    forall x :: BalanceOf(l, x) == Allotted(alloc, x)
  }

  lemma GenesisPays(alloc: seq<(Address, int)>)
    ensures Allocate(map[], alloc).Done? ==> HoldsAllocation(Allocate(map[], alloc).ledger, alloc)
  {
    hide Allocate, Allotted;
    if Allocate(map[], alloc).Done? {
      forall x ensures BalanceOf(Allocate(map[], alloc).ledger, x) == Allotted(alloc, x) {
        AllocatePays(map[], alloc, x);
      }
    }
  }

  function TransactionsRoot(c: Crypto, txs: seq<Tx>): Hash {
    if |txs| == 0 then EMPTY_ROOT else c.transactionsRoot(txs)
  }

  function ReceiptsRoot(c: Crypto, receipts: seq<Receipt>): Hash {
    if |receipts| == 0 then EMPTY_ROOT else c.receiptsRoot(receipts)
  }

  function SealBlock(c: Crypto, p: Preimage, txs: seq<Tx>): Block {
    Block(p, txs, c.blockHash(p))
  }

  /** The genesis block has no transactions, and the state root from before its allocation is
      committed. */
  function GenesisBlock(c: Crypto, stateRoot: Hash, proposer: Address, timestamp: nat): Block {
    SealBlock(c, Preimage(GenesisParent(), stateRoot, EMPTY_ROOT, EMPTY_ROOT, 0, timestamp, proposer), [])
  }

  /** The first account of the allocation proposes the genesis block. */
  function Genesis(c: Crypto, alloc: seq<(Address, int)>, timestamp: nat): Option<Node> {
    match Allocate(map[], alloc)
    case Failed(_) => None
    case Done(l) =>
      if |alloc| == 0 then None
      else Some(Node(l, EMPTY_POOL, [GenesisBlock(c, c.trieRoot(map[]), alloc[0].0, timestamp)], [], [], []))
  }

  // ---------- Creating a block ----------

  function Receipts(number: nat, blockHash: Hash, txs: seq<Tx>, os: seq<Outcome>): seq<Receipt>
    requires |os| == |txs|
  {
    seq(|txs|, i requires 0 <= i < |txs| =>
      Receipt(txs[i].hash, i, blockHash, number, txs[i].from, txs[i].payload.to,
              os[i] == Succeeded, TRANSFER_GAS, TRANSFER_GAS * (i + 1)))
  }

  function BlockOver(c: Crypto, parent: Block, stateRoot: Hash, proposer: Address, timestamp: nat,
                     txs: seq<Tx>, os: seq<Outcome>): Block
    requires |os| == |txs|
  {
    var number := parent.preimage.number + 1;
    var p := Preimage(parent.hash, stateRoot, TransactionsRoot(c, txs),
                      ReceiptsRoot(c, Receipts(number, "", txs, os)), number, timestamp, proposer);
    SealBlock(c, p, txs)
  }

  function Log(txs: seq<Tx>, os: seq<Outcome>): (r: seq<Included>)
    requires |os| == |txs|
    ensures |r| == |txs|
  {
    seq(|txs|, i requires 0 <= i < |txs| => Included(txs[i], os[i]))
  }

  // ---------- One slot ----------

  /** Where an exception interrupts the step, if one does: before the block's first transaction;
      between the execution loop and the promotion; between the promotion and the end of the
      commit; between the commit and the save; or after the save. */
  datatype Fault = NoFault | BeforeExecution | BeforePromotion | AfterExecution | AfterCommit | DuringRewards

  /** What the environment decides in a slot. Resetting the journal at the start of a slot, or
      after a block was abandoned, brings back accounts that may still show changes made to
      shared account objects, or accounts of which a commit had already written some, so base and
      residue, what they then read as, are left open. */
  datatype Slot = Slot(
    proposer: Address, committee: seq<Address>, timestamp: nat, stateRoot: Hash,
    accepts: Address -> bool, fault: Fault, base: Ledger, residue: Ledger)
  {
    function Voters(): seq<Address> {
      Attesters(committee, accepts)
    }

    predicate Justified() {
      HasSupermajority(|Voters()|, |committee|)
    }

    /** The block is executed and then abandoned. */
    predicate RollsBack() {
      fault != BeforeExecution && (fault == BeforePromotion || fault == AfterExecution || !Justified())
    }

    /** The block is executed and saved. */
    predicate Saves() {
      fault != BeforeExecution && !RollsBack() && fault != AfterCommit
    }

    /** Rewarding a saved block is interrupted, or the share of an attester is less than one wei. */
    predicate RewardsFail() {
      fault == DuringRewards || |Voters()| > WEI_PER_DSTN
    }
  }

  /** If rewarding fails, what was already credited is rolled back. */
  function AfterRewards(l: Ledger, slot: Slot): Ledger {
    match Distribute(l, slot.proposer, slot.Voters())
    case Failed(_) => slot.residue
    case Done(l1) => if slot.fault == DuringRewards then slot.residue else l1
  }

  /** What the execution loop makes of the accounts, and the promotion after it. */
  datatype Execution = Execution(txs: seq<Tx>, ledger: Ledger, outcomes: seq<Outcome>, pool: Pool)

  ghost function ExecuteBlock(p: Pool, l: Ledger): (e: Execution)
    ensures |e.outcomes| == |e.txs|
  {
    var txs := Ordered(p.pending.Values);
    var (l', os) := ApplyAll(l, txs);
    Execution(txs, l', os, PoolAfter(p, l', txs))
  }

  ghost function NewBlock(c: Crypto, s: Node, slot: Slot): Block
    requires s.chain != []
  {
    var e := ExecuteBlock(s.pool, slot.base);
    BlockOver(c, s.chain[|s.chain| - 1], slot.stateRoot, slot.proposer, slot.timestamp, e.txs, e.outcomes)
  }

  /** An abandoned block has left the pool, and unless it was abandoned before that, it has
      promoted its transactions' successors. */
  ghost function Abandon(s: Node, slot: Slot): Node {
    var e := ExecuteBlock(s.pool, slot.base);
    s.(accounts := slot.residue, dropped := s.dropped + e.txs,
       pool := if slot.fault == BeforePromotion then Pool(map[], s.pool.queued) else e.pool)
  }

  /** The accounts are committed, but the block is never saved. */
  ghost function CommitOnly(s: Node, slot: Slot): Node {
    var e := ExecuteBlock(s.pool, slot.base);
    s.(accounts := e.ledger, pool := e.pool, dropped := s.dropped + e.txs)
  }

  ghost function CommitAndSave(c: Crypto, s: Node, slot: Slot): Node
    requires s.chain != []
  {
    var e := ExecuteBlock(s.pool, slot.base);
    s.(accounts := AfterRewards(e.ledger, slot), pool := e.pool,
       chain := s.chain + [NewBlock(c, s, slot)], log := s.log + Log(e.txs, e.outcomes))
  }

  ghost function Produce(c: Crypto, s: Node, slot: Slot): Node {
    if slot.fault == BeforeExecution || s.chain == [] then s.(accounts := slot.base)
    else if slot.RollsBack() then Abandon(s, slot)
    else if slot.fault == AfterCommit then CommitOnly(s, slot)
    else CommitAndSave(c, s, slot)
  }

  // ---------- Runs ----------

  /** seen is what the accounts read as when a request arrives: between two slots, too, the cache
      may drop an account object that had been changed. */
  datatype Step = SubmitRequest(request: Request, seen: Ledger) | ProduceSlot(slot: Slot)

  ghost function Receive(c: Crypto, s: Node, r: Request, seen: Ledger): Node {
    var (p, response) := Submit(c, seen, s.pool, r);
    s.(accounts := seen, pool := p, accepted := s.accepted + if response.Accepted? then [response.tx] else [])
  }

  ghost function Next(c: Crypto, s: Node, step: Step): Node {
    match step
    case SubmitRequest(r, seen) => Receive(c, s, r, seen)
    case ProduceSlot(slot) => Produce(c, s, slot)
  }

  ghost function Run(c: Crypto, s: Node, steps: seq<Step>): Node {
    if |steps| == 0 then s
    else Next(c, Run(c, s, steps[..|steps| - 1]), steps[|steps| - 1])
  }

  ghost predicate SameNonces(l: Ledger, k: Ledger) {
    forall a :: NonceOf(l, a) == NonceOf(k, a)
  }

  /** No nonce moves but by execution: not between the steps, nor when the journal is reset at the
      start of a slot, nor when rewards fail, for what they leave in the journal are balances. */
  ghost predicate ResetKeepsNonces(s: Node, step: Step) {
    match step
    case SubmitRequest(_, seen) => SameNonces(seen, s.accounts)
    case ProduceSlot(slot) =>
      && SameNonces(slot.base, s.accounts)
      && (slot.Saves() && slot.RewardsFail() ==>
        SameNonces(slot.residue, ExecuteBlock(s.pool, slot.base).ledger))
  }

  /** What is read after an abandoned block shows no nonce that execution had not reached. */
  ghost predicate ResidueBounded(s: Node, slot: Slot) {
    NoncesAtMost(slot.residue, ExecuteBlock(s.pool, slot.base).ledger)
  }

  /** The pool of an abandoned block fits what is read: the successors it promoted, or left in the
      queue, are where the nonces that are read put them. */
  ghost predicate ResidueFits(s: Node, slot: Slot) {
    var txs := Ordered(s.pool.pending.Values);
    if slot.fault == BeforePromotion then SuccessorsWait(s.pool, slot.base, txs, slot.residue)
    else SuccessorsReady(s.pool, slot.base, txs, slot.residue)
  }

  /** No nonce moves but by execution, and every block that is executed and then abandoned leaves a
      pool that fits what is read afterwards. */
  ghost predicate Steady(c: Crypto, s: Node, steps: seq<Step>) {
    forall i | 0 <= i < |steps| :: SteadyStep(Run(c, s, steps[..i]), steps[i])
  }

  ghost predicate SteadyStep(s: Node, step: Step) {
    && ResetKeepsNonces(s, step)
    && (step.ProduceSlot? && step.slot.RollsBack() ==> ResidueBounded(s, step.slot) && ResidueFits(s, step.slot))
  }

  lemma SteadyPrefix(c: Crypto, s: Node, steps: seq<Step>)
    requires Steady(c, s, steps) && |steps| > 0
    ensures Steady(c, s, steps[..|steps| - 1])
    ensures SteadyStep(Run(c, s, steps[..|steps| - 1]), steps[|steps| - 1])
  {
    hide SteadyStep, Run;
    var init := steps[..|steps| - 1];
    forall i | 0 <= i < |init| ensures init[i] == steps[i] && init[..i] == steps[..i] {
    }
  }
}
