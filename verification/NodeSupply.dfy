/** The money supply over whole runs. */
module NodeSupply {
  import opened Types
  import opened LedgerOps
  import opened PendingOrder
  import opened Mempool
  import opened TxRequests
  import opened BlockExecution
  import opened Consensus
  import opened Rewards
  import opened NodeMachine
  import opened NodeInvariants

  function Share(n: nat): nat {
    if n == 0 then 0 else n * (WEI_PER_DSTN / n)
  }

  /** What the rewards of the saved blocks made: 2 DSTN each, and what a committee gets of another. */
  function Minted(steps: seq<Step>): nat {
    if |steps| == 0 then 0
    else
      var last := steps[|steps| - 1];
      Minted(steps[..|steps| - 1]) +
      if last.ProduceSlot? && last.slot.Saves() && !last.slot.RewardsFail()
      then 2 * WEI_PER_DSTN + Share(|last.slot.Voters()|) else 0
  }

  /** The block of the slot is executed and committed. */
  predicate Commits(step: Step) {
    step.ProduceSlot? && step.slot.fault != BeforeExecution && !step.slot.RollsBack()
  }

  /** How many failed transactions were charged by committed blocks. */
  ghost function Fees(c: Crypto, s: Node, steps: seq<Step>): nat {
    if |steps| == 0 then 0
    else
      var init, last := steps[..|steps| - 1], steps[|steps| - 1];
      Fees(c, s, init) +
      if Commits(last) then CountFees(ExecuteBlock(Run(c, s, init).pool, last.slot.base).outcomes) else 0
  }

  /** Between the steps, and when the journal is emptied, the sum of what is read stays: an abandoned
      block is undone, and the rewards of earlier blocks are not. */
  ghost predicate ResetKeepsTotal(s: Node, step: Step) {
    match step
    case SubmitRequest(_, seen) => Total(seen) == Total(s.accounts)
    case ProduceSlot(slot) =>
      && Total(slot.base) == Total(s.accounts)
      && (slot.RollsBack() ==> Total(slot.residue) == Total(slot.base))
      && (slot.Saves() && slot.RewardsFail() ==>
        Total(slot.residue) == Total(ExecuteBlock(s.pool, slot.base).ledger))
  }

  ghost predicate TotalsKept(c: Crypto, s: Node, steps: seq<Step>) {
    |steps| == 0 ||
    var init := steps[..|steps| - 1];
    TotalsKept(c, s, init) && ResetKeepsTotal(Run(c, s, init), steps[|steps| - 1])
  }

  lemma ExecuteBlockTotal(p: Pool, l: Ledger)
    ensures
      var e := ExecuteBlock(p, l);
      Total(e.ledger) == Total(l) - TRANSFER_GAS * CountFees(e.outcomes)
  {
    ApplyAllConserves(l, Ordered(p.pending.Values));
    hide ApplyAll, Ordered, PoolAfter, Total, CountFees;
  }

  lemma AfterRewardsTotal(l: Ledger, slot: Slot)
    requires slot.RewardsFail() ==> Total(slot.residue) == Total(l)
    ensures Total(AfterRewards(l, slot)) == Total(l) +
      if slot.RewardsFail() then 0 else 2 * WEI_PER_DSTN + Share(|slot.Voters()|)
  {
    DistributeTotal(l, slot.proposer, slot.Voters());
    hide Distribute, Total, Attesters;
  }

  lemma StepSupply(c: Crypto, s: Node, step: Step)
    requires s.chain != [] && ResetKeepsTotal(s, step)
    ensures Total(Next(c, s, step).accounts) == Total(s.accounts) + Minted([step]) -
      if Commits(step) then TRANSFER_GAS * CountFees(ExecuteBlock(s.pool, step.slot.base).outcomes) else 0
  {
    hide Submit, ExecuteBlock, AfterRewards, NewBlock, Total, CountFees, Share, Slot.RollsBack, Slot.RewardsFail;
    assert [step][..0] == [];
    if step.ProduceSlot? {
      var slot := step.slot;
      ExecuteBlockTotal(s.pool, slot.base);
      if slot.Saves() {
        AfterRewardsTotal(ExecuteBlock(s.pool, slot.base).ledger, slot);
      }
    }
  }

  lemma OneMoreMinted(steps: seq<Step>)
    requires |steps| > 0
    ensures Minted(steps) == Minted(steps[..|steps| - 1]) + Minted([steps[|steps| - 1]])
  {
    hide Slot.Saves, Slot.RewardsFail, Slot.Voters, Share;
    assert [steps[|steps| - 1]][..0] == [];
  }

  /** Over every run in which nothing but the steps moves money, the sum of all balances is what it
      was, plus the rewards, minus 21000 wei for each failed transaction that was charged. */
  lemma {:induction false} RunSupply(c: Crypto, s: Node, steps: seq<Step>)
    requires s.chain != [] && TotalsKept(c, s, steps)
    ensures Run(c, s, steps).chain != []
    ensures Total(Run(c, s, steps).accounts) == Total(s.accounts) + Minted(steps) - TRANSFER_GAS * Fees(c, s, steps)
  {
    hide Next, ResetKeepsTotal, Total, Commits, ExecuteBlock, CountFees;
    if |steps| > 0 {
      hide Minted;
      var init, step := steps[..|steps| - 1], steps[|steps| - 1];
      RunSupply(c, s, init);
      var m := Run(c, s, init);
      ChainNonempty(c, m, step);
      StepSupply(c, m, step);
      OneMoreMinted(steps);
    }
  }

  // ---------- From genesis, against the chain ----------

  function Allocated(alloc: seq<(Address, int)>): int {
    if |alloc| == 0 then 0 else Allocated(alloc[..|alloc| - 1]) + alloc[|alloc| - 1].1
  }

  lemma {:induction false} AllocateTotal(alloc: seq<(Address, int)>)
    ensures Allocate(map[], alloc).Done? ==> Total(Allocate(map[], alloc).ledger) == Allocated(alloc)
    ensures Allocate(map[], alloc).Done? <==> forall i | 0 <= i < |alloc| :: alloc[i].1 > 0
  {
    if |alloc| > 0 {
      var init := alloc[..|alloc| - 1];
      AllocateTotal(init);
      AttemptConserves(Allocate(map[], init).ledger, alloc[|alloc| - 1].0, alloc[|alloc| - 1].1);
      hide Total;
    }
  }

  function Outcomes(log: seq<Included>): (r: seq<Outcome>)
    ensures |r| == |log|
  {
    seq(|log|, i requires 0 <= i < |log| => log[i].outcome)
  }

  lemma {:induction false} CountFeesConcat(first: seq<Outcome>, second: seq<Outcome>)
    ensures CountFees(first + second) == CountFees(first) + CountFees(second)
  {
    var all := first + second;
    if |second| == 0 {
      assert all == first;
    } else {
      assert all[..|all| - 1] == first + second[..|second| - 1];
      CountFeesConcat(first, second[..|second| - 1]);
    }
  }

  lemma FeesOfLog(log: seq<Included>, txs: seq<Tx>, os: seq<Outcome>)
    requires |os| == |txs|
    ensures CountFees(Outcomes(log + Log(txs, os))) == CountFees(Outcomes(log)) + CountFees(os)
  {
    assert Outcomes(log + Log(txs, os)) == Outcomes(log) + os;
    CountFeesConcat(Outcomes(log), os);
  }

  /** Every committed block is saved. */
  predicate SavesCommitted(steps: seq<Step>) {
    forall i | 0 <= i < |steps| && Commits(steps[i]) :: steps[i].slot.Saves()
  }

  lemma StepFees(c: Crypto, s: Node, step: Step)
    requires s.chain != [] && (Commits(step) ==> step.slot.Saves())
    ensures CountFees(Outcomes(Next(c, s, step).log)) == CountFees(Outcomes(s.log)) +
      if Commits(step) then CountFees(ExecuteBlock(s.pool, step.slot.base).outcomes) else 0
  {
    hide Submit, ExecuteBlock, AfterRewards, NewBlock, CountFees, Log, Slot.RollsBack;
    if step.ProduceSlot? && step.slot.Saves() {
      var e := ExecuteBlock(s.pool, step.slot.base);
      FeesOfLog(s.log, e.txs, e.outcomes);
    }
  }

  lemma {:induction false} FeesAreLogged(c: Crypto, s: Node, steps: seq<Step>)
    requires s.chain != [] && SavesCommitted(steps)
    ensures Run(c, s, steps).chain != []
    ensures CountFees(Outcomes(Run(c, s, steps).log)) == CountFees(Outcomes(s.log)) + Fees(c, s, steps)
  {
    hide Next, Outcomes, Commits, ExecuteBlock, CountFees, Slot.Saves;
    if |steps| > 0 {
      var init, step := steps[..|steps| - 1], steps[|steps| - 1];
      assert SavesCommitted(init) by {
        assert forall i | 0 <= i < |init| :: init[i] == steps[i];
      }
      FeesAreLogged(c, s, init);
      ChainNonempty(c, Run(c, s, init), step);
      StepFees(c, Run(c, s, init), step);
    }
  }

  /** From genesis: what was allocated, plus the rewards, minus 21000 wei for each transaction of the
      chain that failed and was charged. */
  lemma SupplyFromGenesis(c: Crypto, alloc: seq<(Address, int)>, timestamp: nat, steps: seq<Step>)
    requires Genesis(c, alloc, timestamp).Some?
    requires TotalsKept(c, Genesis(c, alloc, timestamp).value, steps) && SavesCommitted(steps)
    ensures
      var s := Run(c, Genesis(c, alloc, timestamp).value, steps);
      Total(s.accounts) == Allocated(alloc) + Minted(steps) - TRANSFER_GAS * CountFees(Outcomes(s.log))
  {
    var g := Genesis(c, alloc, timestamp).value;
    AllocateTotal(alloc);
    assert g.chain != [] && CountFees(Outcomes(g.log)) == 0 && Total(g.accounts) == Allocated(alloc);
    hide Genesis, Total, Minted, Run, TotalsKept, SavesCommitted, Fees, CountFees, Outcomes, Allocated;
    RunSupply(c, g, steps);
    FeesAreLogged(c, g, steps);
  }
}
