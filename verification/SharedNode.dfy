/** Runs of the node that are carried out on shared account objects. Whatever the cache drops, as long
    as no block that charged somebody is abandoned, every reset and every eviction leaves the nonces as
    they were: such runs are steady. */
module SharedNode {
  import opened Types
  import opened LedgerOps
  import opened PendingOrder
  import opened Mempool
  import opened BlockExecution
  import opened NodeMachine
  import opened NodeInvariants
  import opened SharedAccounts
  import opened SharedLevels

  // ---------- The node on objects ----------

  /** How a step is carried out: the operations of the block and the lookups around it, how far its
      commit gets and what is dropped meanwhile, and the rewards. */
  datatype Details = Details(
    uses: seq<Use>, looks: seq<Use>, written: set<Address>, dropped: set<Address>, credits: seq<Credit>)

  /** The objects after the block of a slot was executed. */
  ghost function Executed(s: Shared, d: Details): (t: Shared)
    requires Valid(s)
    ensures Valid(t)
  {
    SharedAccounts.Run(SharedAccounts.Run(Reset(s), d.uses), d.looks)
  }

  ghost function AfterSlot(s: Shared, slot: Slot, d: Details): (t: Shared)
    requires Valid(s)
    ensures Valid(t)
  {
    if slot.fault == BeforeExecution then Reset(s)
    else if slot.RollsBack() then Reset(Written(Executed(s, d), d.written, d.dropped))
    else
      var u := Commit(Executed(s, d), d.dropped);
      if slot.fault == AfterCommit then u
      else if slot.RewardsFail() then Reset(Credited(u, d.credits))
      else Credited(u, d.credits)
  }

  ghost function AfterStep(s: Shared, step: NodeMachine.Step, d: Details): (t: Shared)
    requires Valid(s)
    ensures Valid(t)
  {
    match step
    case SubmitRequest(_, _) => SharedAccounts.Run(s, d.looks)
    case ProduceSlot(slot) => AfterSlot(s, slot, d)
  }

  /** The slot is carried out on the objects, and reads from them. */
  ghost predicate SlotOnObjects(n: Node, s: Shared, slot: Slot, d: Details)
    requires Valid(s)
  {
    && slot.base == Seen(Reset(s))
    && (slot.fault != BeforeExecution ==>
      && Executes(Reset(s), d.uses, d.looks, Ordered(n.pool.pending.Values), Executed(s, d))
      && CreditsCarriedOut(Commit(Executed(s, d), d.dropped), d.credits)
      && (slot.RollsBack() || (slot.Saves() && slot.RewardsFail()) ==> slot.residue == Seen(AfterSlot(s, slot, d))))
  }

  ghost predicate StepOnObjects(n: Node, s: Shared, step: NodeMachine.Step, d: Details)
    requires Valid(s)
  {
    match step
    case SubmitRequest(_, seen) => OnlyLooks(d.looks) && seen == Seen(AfterStep(s, step, d))
    case ProduceSlot(slot) => SlotOnObjects(n, s, slot, d)
  }

  /** Nobody is charged by the block. */
  ghost predicate ChargesNobody(n: Node, slot: Slot) {
    forall i | 0 <= i < |ExecuteBlock(n.pool, slot.base).outcomes| ::
      ExecuteBlock(n.pool, slot.base).outcomes[i] == Unpaid
  }

  /** The step abandons no block that charged somebody. */
  ghost predicate AbandonsNoCharge(n: Node, step: NodeMachine.Step) {
    step.ProduceSlot? && step.slot.RollsBack() ==> ChargesNobody(n, step.slot)
  }

  // ---------- Such runs are steady ----------

  /** The objects read as the node does, as far as nonces go, and show what is stored. */
  ghost predicate Tracks(n: Node, s: Shared) {
    Valid(s) && Level(s) && SameNonces(n.accounts, s.table)
  }

  lemma {:induction false} UnpaidKeepsNonces(l: Ledger, txs: seq<Tx>)
    requires forall i | 0 <= i < |txs| :: ApplyAll(l, txs).1[i] == Unpaid
    ensures SameNonces(ApplyAll(l, txs).0, l)
  {
    if |txs| > 0 {
      var init, last := txs[..|txs| - 1], txs[|txs| - 1];
      var (l1, os) := ApplyAll(l, init);
      assert ApplyAll(l, txs).1 == os + [ApplyTx(l1, last).1];
      forall i | 0 <= i < |init| ensures os[i] == Unpaid {
        assert ApplyAll(l, txs).1[i] == os[i];
      }
      assert ApplyAll(l, txs).1[|txs| - 1] == ApplyTx(l1, last).1;
      UnpaidKeepsNonces(l, init);
      ApplyTxMeaning(l1, last);
      hide ApplyTx;
    }
  }

  /** After the execution of the slot's block. */
  lemma ExecutedOnObjects(n: Node, s: Shared, slot: Slot, d: Details)
    requires Tracks(n, s) && SlotOnObjects(n, s, slot, d) && slot.fault != BeforeExecution
    ensures
      var t := Executed(s, d);
      && Loose(t) && t.table == s.table && Seen(t) == ExecuteBlock(n.pool, slot.base).ledger
  {
    hide Valid, Level, Loose, Ahead, Seen, Reset, SharedAccounts.Run, Executes, ApplyAll, Ordered, PoolAfter,
      AfterSlot, CreditsCarriedOut, Slot.RollsBack, Slot.Saves, Slot.RewardsFail, SameNonces;
    ResetLevel(s);
    LevelReads(Reset(s));
    ExecutesSeen(Reset(s), d.uses, d.looks, Ordered(n.pool.pending.Values), Executed(s, d));
    RunLevel(Reset(s), d.uses);
    RunLevel(SharedAccounts.Run(Reset(s), d.uses), d.looks);
  }

  lemma BaseKeepsNonces(n: Node, s: Shared, slot: Slot, d: Details)
    requires Tracks(n, s) && SlotOnObjects(n, s, slot, d)
    ensures SameNonces(slot.base, n.accounts)
  {
    ResetLevel(s);
    LevelReads(Reset(s));
    hide Valid, Level, Loose, Ahead, Seen, Reset, Executes, AfterSlot;
  }

  /** A slot that abandons a block which charged nobody. */
  lemma AbandonTracks(c: Crypto, n: Node, s: Shared, slot: Slot, d: Details)
    requires Tracks(n, s) && SlotOnObjects(n, s, slot, d) && n.chain != []
    requires slot.RollsBack() && ChargesNobody(n, slot)
    ensures ResidueBounded(n, slot) && ResidueFits(n, slot)
    ensures Tracks(Abandon(n, slot), AfterSlot(s, slot, d))
  {
    ExecutedOnObjects(n, s, slot, d);
    BaseKeepsNonces(n, s, slot, d);
    var t := Executed(s, d);
    var txs := Ordered(n.pool.pending.Values);
    hide Valid, Level, Loose, Ahead, Seen, Reset, Executed, Executes, ApplyAll, Ordered, PoolAfter, CreditsCarriedOut,
      Written;
    UnpaidKeepsNonces(slot.base, txs);
    LooseIsLevel(t);
    WrittenLevel(t, d.written, d.dropped);
    LevelReads(AfterSlot(s, slot, d));
  }

  /** A slot that commits its block, whatever becomes of it then. */
  lemma CommitTracks(c: Crypto, n: Node, s: Shared, slot: Slot, d: Details)
    requires Tracks(n, s) && SlotOnObjects(n, s, slot, d) && n.chain != []
    requires slot.fault != BeforeExecution && !slot.RollsBack()
    ensures ResetKeepsNonces(n, ProduceSlot(slot))
    ensures Tracks(Produce(c, n, slot), AfterSlot(s, slot, d))
  {
    ExecutedOnObjects(n, s, slot, d);
    BaseKeepsNonces(n, s, slot, d);
    var t := Executed(s, d);
    hide Valid, Level, Loose, Ahead, Seen, Reset, Executed, Executes, ExecuteBlock, Commit, Credited,
      CreditsCarriedOut, AfterRewards, NewBlock, Slot.RollsBack, Slot.RewardsFail;
    CommitLevel(t, d.dropped);
    var u := Commit(t, d.dropped);
    CreditedLevel(u, d.credits);
    ResetLevel(Credited(u, d.credits));
    LevelReads(AfterSlot(s, slot, d));
    if slot.Saves() {
      AfterRewardsNonces(ExecuteBlock(n.pool, slot.base).ledger, slot);
    }
  }

  lemma StepTracks(c: Crypto, n: Node, s: Shared, step: NodeMachine.Step, d: Details)
    requires Tracks(n, s) && n.chain != [] && StepOnObjects(n, s, step, d) && AbandonsNoCharge(n, step)
    ensures SteadyStep(n, step)
    ensures Tracks(Next(c, n, step), AfterStep(s, step, d))
  {
    match step {
      case SubmitRequest(r, seen) =>
        RunLevel(s, d.looks);
        LooksKeep(s, d.looks);
        LevelReads(AfterStep(s, step, d));
      case ProduceSlot(slot) =>
        BaseKeepsNonces(n, s, slot, d);
        hide Valid, Level, SlotOnObjects, ExecuteBlock;
        if slot.fault == BeforeExecution {
          ResetLevel(s);
        } else if slot.RollsBack() {
          AbandonTracks(c, n, s, slot, d);
        } else {
          CommitTracks(c, n, s, slot, d);
        }
    }
  }

  // ---------- Runs ----------

  /** The objects after the steps. */
  ghost function ObjectsAfter(s: Shared, steps: seq<NodeMachine.Step>, ds: seq<Details>): (t: Shared)
    requires Valid(s) && |steps| == |ds|
    ensures Valid(t)
  {
    if |steps| == 0 then s
    else
      AfterStep(ObjectsAfter(s, steps[..|steps| - 1], ds[..|steps| - 1]), steps[|steps| - 1], ds[|steps| - 1])
  }

  /** Every step is carried out on the objects, and none abandons a block that charged somebody. */
  ghost predicate RunsOnObjects(c: Crypto, n: Node, s: Shared, steps: seq<NodeMachine.Step>, ds: seq<Details>)
    requires Valid(s)
  {
    |steps| == |ds| &&
    (|steps| == 0 ||
      var init, details := steps[..|steps| - 1], ds[..|steps| - 1];
      var m, step := NodeMachine.Run(c, n, init), steps[|steps| - 1];
      && RunsOnObjects(c, n, s, init, details)
      && StepOnObjects(m, ObjectsAfter(s, init, details), step, ds[|steps| - 1])
      && AbandonsNoCharge(m, step))
  }

  lemma SteadyOneMore(c: Crypto, n: Node, steps: seq<NodeMachine.Step>)
    requires |steps| > 0 && Steady(c, n, steps[..|steps| - 1])
    requires SteadyStep(NodeMachine.Run(c, n, steps[..|steps| - 1]), steps[|steps| - 1])
    ensures Steady(c, n, steps)
  {
    hide SteadyStep, NodeMachine.Run;
    var init := steps[..|steps| - 1];
    forall i | 0 <= i < |steps| ensures SteadyStep(NodeMachine.Run(c, n, steps[..i]), steps[i]) {
      if i < |init| {
        assert init[..i] == steps[..i] && init[i] == steps[i];
      }
    }
  }

  /** No nonce that is read moves but by execution, over any number of requests and slots, whatever the
      cache drops, as long as no block that charged somebody is abandoned. */
  lemma {:induction false} RunIsSteady(c: Crypto, n: Node, s: Shared, steps: seq<NodeMachine.Step>, ds: seq<Details>)
    requires n.chain != [] && Tracks(n, s) && RunsOnObjects(c, n, s, steps, ds)
    ensures Steady(c, n, steps)
    ensures NodeMachine.Run(c, n, steps).chain != []
    ensures Tracks(NodeMachine.Run(c, n, steps), ObjectsAfter(s, steps, ds))
  {
    hide SteadyStep, Next, StepOnObjects, AbandonsNoCharge, AfterStep, Level, SameNonces;
    if |steps| > 0 {
      var init, step := steps[..|steps| - 1], steps[|steps| - 1];
      var details := ds[..|steps| - 1];
      RunIsSteady(c, n, s, init, details);
      StepTracks(c, NodeMachine.Run(c, n, init), ObjectsAfter(s, init, details), step, ds[|steps| - 1]);
      ChainNonempty(c, NodeMachine.Run(c, n, init), step);
      SteadyOneMore(c, n, steps);
    }
  }

  /** From genesis, with its accounts committed and whatever the cache still holds of them, such a run
      leads to nodes whose pool fits the nonces that are read from the objects. */
  lemma PoolInvariantOnObjects(c: Crypto, alloc: seq<(Address, int)>, timestamp: nat, s: Shared,
                               steps: seq<NodeMachine.Step>, ds: seq<Details>)
    requires c.Valid() && Genesis(c, alloc, timestamp).Some?
    requires Valid(s) && Level(s) && s.table == Genesis(c, alloc, timestamp).value.accounts
    requires RunsOnObjects(c, Genesis(c, alloc, timestamp).value, s, steps, ds)
    ensures
      var n, t := NodeMachine.Run(c, Genesis(c, alloc, timestamp).value, steps), ObjectsAfter(s, steps, ds);
      && Steady(c, Genesis(c, alloc, timestamp).value, steps)
      && SameNonces(n.accounts, Seen(t)) && PoolInv(n.pool, Seen(t))
  {
    hide Level, Seen, Genesis, PoolInv, Steady, NodeMachine.Run, Valid;
    var g := Genesis(c, alloc, timestamp).value;
    GenesisKeepsNodeInv(c, alloc, timestamp);
    RunIsSteady(c, g, s, steps, ds);
    PoolInvariantHolds(c, alloc, timestamp, steps);
    var n, t := NodeMachine.Run(c, g, steps), ObjectsAfter(s, steps, ds);
    LevelReads(t);
    PoolInvNonces(n.pool, n.accounts, Seen(t));
  }
}
