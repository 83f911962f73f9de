/** The block producer: one slot, from the choice of its proposer to the rewards, on the real pool
    and stores and on accounts held as values, for which it is a slot of the node machine. */
module BlockProducers {
  import opened Types
  import opened LedgerOps
  import opened PendingOrder
  import opened Mempool
  import opened BlockExecution
  import opened Consensus
  import opened Rewards
  import opened Journal
  import opened StateStore
  import opened StateManagers
  import opened AccountServices
  import opened BlockRepositories
  import opened ChainStore
  import opened NodeMachine
  import opened NodeChain
  import opened NodeInvariants
  import opened BlockServices
  import opened Validators

  /** What the step has to decide before anything is executed. */
  datatype Duty = Duty(slot: int, proposer: Address, committee: seq<Address>)

  /** The slot of the machine that accounts held as values take, for which a reset brings back what
      is committed: from s it leads to r, and committed is what is then committed. */
  ghost predicate TakesSlot(c: Crypto, s: Node, slot: Slot, r: Node, committed: Ledger) {
    && slot.residue == committed
    && r == Produce(c, s, slot).(dropped := [], log := [])
    && committed ==
      if s.chain == [] || slot.fault == BeforeExecution || slot.RollsBack() then slot.base
      else ExecuteBlock(s.pool, slot.base).ledger
  }

  class BlockProducer {
    var genesisTime: Option<int>
    const blockService: BlockService
    const validatorService: ValidatorService
    const accounts: AccountService

    constructor (b: BlockService, v: ValidatorService)
      ensures blockService == b && validatorService == v && accounts == b.accounts && genesisTime == None
    {
      genesisTime, blockService, validatorService, accounts := None, b, v, b.accounts;
    }

    ghost predicate Valid()
      reads this, blockService, blockService.repository, blockService.stateRepository, blockService.accounts,
        blockService.accounts.stateManager, blockService.accounts.stateManager.repository, blockService.txPool
    {
      && accounts == blockService.accounts
      && blockService.Valid()
      && validatorService.crypto == blockService.crypto
    }

    /** The node as the machine sees it, without its history. */
    ghost function Now(): Node
      reads this, blockService, blockService.repository, accounts, accounts.stateManager,
        accounts.stateManager.repository, blockService.txPool
    {
      Node(accounts.Accounts(), blockService.txPool.Contents(), blockService.repository.saved, [], [], [])
    }

    /** A genesis time of zero counts as unset. */
    function CurrentSlot(now: int): Option<int>
      reads this
    {
      if genesisTime.None? || genesisTime.value == 0 then None else Some(SlotAt(genesisTime.value, now))
    }

    /** Takes the genesis time from the genesis block; throws if there is none to start from. */
    method Bootstrap() returns (thrown: bool)
      requires Valid()
      modifies this`genesisTime, blockService.repository`headerCache
      ensures Valid()
      ensures thrown <==>
        blockService.repository.saved == [] || blockService.repository.saved[0].preimage.timestamp == 0
      ensures !thrown ==> genesisTime == Some(blockService.repository.saved[0].preimage.timestamp)
      ensures !thrown ==> forall now :: CurrentSlot(now).Some?
    {
      hide StateManager.Valid, Linked, BlockRepository.Valid, Crypto.Valid, Pool.Valid, Listed;
      LinkedIsListed(blockService.crypto, blockService.repository.saved);
      var genesis := blockService.repository.FindByNumber(0);
      if genesis.None? {
        return true;
      }
      genesisTime := Some(genesis.value.header.timestamp);
      return genesisTime.value == 0;
    }

    /** Who proposes and who attests, unless the genesis time is unset or no validator is active. */
    method Assign(now: int) returns (duty: Option<Duty>)
      requires validatorService.crypto.Valid()
      ensures duty.None? <==> CurrentSlot(now).None? || forall v | v in validatorService.validators :: !v.isActive
      ensures duty.Some? ==>
        var d := duty.value;
        && CurrentSlot(now) == Some(d.slot)
        && ChosenFor(validatorService.crypto, validatorService.validators, d.slot, d.proposer, d.committee)
        && Validator(d.proposer, true) in validatorService.validators
        && (forall a | a in d.committee :: Validator(a, true) in validatorService.validators)
        && |d.committee| <= COMMITTEE_SIZE
        && (Distinct(Addresses(Active(validatorService.validators))) ==> Distinct(d.committee))
    {
      hide Crypto.Valid, Seed, Distinct, Active, Addresses;
      var slot := CurrentSlot(now);
      if slot.None? {
        return None;
      }
      var proposer := validatorService.SelectProposer(slot.value);
      if proposer.None? {
        return None;
      }
      var committee := validatorService.SelectCommittee(slot.value);
      return Some(Duty(slot.value, proposer.value, committee));
    }

    /** For accounts held as values, starting a block leaves what is committed as what callers read,
        and rewards that are still in the journal are gone. Shared objects that the cache holds keep
        such changes. */
    method OpenBlock()
      requires Valid()
      modifies accounts.stateManager
      ensures Valid() && accounts.Committed() == old(accounts.Committed())
      ensures accounts.Accounts() == accounts.Committed()
    {
      hide StateManager.Valid, Apply, Linked, BlockRepository.Valid, Crypto.Valid, Pool.Valid;
      accounts.stateManager.StartBlock();
      OpenView(accounts.Committed());
    }

    /** For accounts held as values, so does abandoning a block. */
    method AbandonBlock()
      requires Valid()
      modifies accounts.stateManager
      ensures Valid() && accounts.Committed() == old(accounts.Committed())
      ensures accounts.Accounts() == accounts.Committed()
    {
      hide StateManager.Valid, Apply, Linked, BlockRepository.Valid, Crypto.Valid, Pool.Valid;
      accounts.stateManager.RollbackBlock();
    }

    /** The proposer's reward, then an equal share for each attestation; throws exactly if a share is
        less than one wei. */
    method DistributeRewards(proposer: Address, attestations: seq<Attestation>, ghost attesters: seq<Address>)
      returns (thrown: bool)
      requires accounts.Valid()
      requires |attesters| == |attestations|
      requires forall i | 0 <= i < |attestations| :: attestations[i].validator == attesters[i]
      modifies accounts.stateManager
      ensures accounts.Valid() && accounts.Committed() == old(accounts.Committed())
      ensures thrown <==> Distribute(old(accounts.Accounts()), proposer, attesters).Failed?
      ensures !thrown ==> Distribute(old(accounts.Accounts()), proposer, attesters) == Done(accounts.Accounts())
      ensures thrown <==> |attestations| > 1_000_000_000_000_000_000
      ensures !thrown ==> forall x ::
        BalanceOf(accounts.Accounts(), x) == BalanceOf(old(accounts.Accounts()), x) + Paid(proposer, attesters, x)
    {
      hide AccountService.Valid, AccountService.Accounts, AccountService.Committed;
      DistributeTotal(old(accounts.Accounts()), proposer, attesters);
      PaidAll(old(accounts.Accounts()), proposer, attesters);
      hide BalanceOf, Paid, Total;
      thrown := accounts.AddBalance(proposer, PROPOSER_REWARD * WEI_PER_DSTN);
      if thrown || |attestations| == 0 {
        return;
      }
      ghost var l := accounts.Accounts();
      var rewardPerAttester := COMMITTEE_REWARD_POOL * WEI_PER_DSTN / |attestations|;
      for i := 0 to |attestations|
        invariant accounts.Valid() && accounts.Committed() == old(accounts.Committed())
        invariant !thrown && CreditEach(l, attesters[..i], rewardPerAttester) == Done(accounts.Accounts())
      {
        assert attesters[..i + 1][..i] == attesters[..i];
        thrown := accounts.AddBalance(attestations[i].validator, rewardPerAttester);
        if thrown {
          CreditStops(l, attesters, rewardPerAttester, i + 1);
          return;
        }
      }
      assert attesters[..|attesters|] == attesters;
    }

    /** Opens the block and has it created, unless an exception interrupts that before the promotion:
        in the order of its transactions, if they have one, it does to the accounts and to the pool
        what the machine's execution does. */
    method Propose(proposer: Address, timestamp: nat, interrupted: bool) returns (block: Option<Block>)
      requires Valid()
      modifies accounts.stateManager, blockService.txPool, blockService.repository`headerCache
      ensures Valid() && accounts.Committed() == old(accounts.Committed())
      ensures block.None? <==> Now().chain == [] || interrupted
      ensures block.Some? ==>
        && Follows(blockService.crypto, Now().chain, block.value)
        && BuiltOn(blockService.crypto, Now().chain[|Now().chain| - 1], block.value, accounts.Committed(),
                   RootOf(blockService.crypto, accounts.Committed()), proposer, timestamp)
        && PricesFall(block.value.transactions)
        && accounts.Committed().Keys <= accounts.Accounts().Keys
      ensures block.Some? && StrictTotalOrder(old(blockService.txPool.pending).Values) ==>
        var e := ExecuteBlock(old(blockService.txPool.Contents()), accounts.Committed());
        && accounts.Accounts() == e.ledger && blockService.txPool.Contents() == e.pool
        && block.value == BlockOver(blockService.crypto, Now().chain[|Now().chain| - 1],
          RootOf(blockService.crypto, accounts.Committed()), proposer, timestamp, e.txs, e.outcomes)
      ensures block.None? ==>
        blockService.txPool.Contents()
          == if Now().chain == [] then old(blockService.txPool.Contents())
             else Pool(map[], old(blockService.txPool.Contents()).queued)
    {
      hide AccountService.Valid, AccountService.Accounts, AccountService.Committed, StrictTotalOrder, Ordered,
        ApplyAll, PoolAfter, RootOf, BlockOver, Follows, Receipts, ExecuteBlock, Linked, BlockRepository.Valid,
        StateRepository.Valid, HasFields, ReceiptsMatch, PricesFall, TiesRanked;
      assert accounts == blockService.accounts && blockService.crypto.Valid();
      hide BlockService.Valid, BlockProducer.Valid, Crypto.Valid;
      ghost var pool := blockService.txPool.Contents();
      OpenBlock();
      var created := blockService.CreateBlock(proposer, timestamp, interrupted);
      if created.None? {
        return None;
      }
      ghost var txs := created.value.block.transactions;
      Executed(pool, accounts.Committed(), txs);
      ghost var root := RootOf(blockService.crypto, accounts.Committed());
      ghost var outcomes := ApplyAll(accounts.Committed(), txs).1;
      BlockFollows(blockService.crypto, Now().chain, root, proposer, timestamp, txs, outcomes);
      return Some(created.value.block);
    }

    /** What follows a justified vote: commit, save, reward. */
    method Settle(d: Duty, block: Block, attestations: seq<Attestation>, fault: Fault, ghost attesters: seq<Address>)
      returns (thrown: bool)
      requires Valid() && accounts.Committed().Keys <= accounts.Accounts().Keys
      requires blockService.repository.saved != [] && Follows(blockService.crypto, blockService.repository.saved, block)
      requires |attesters| == |attestations|
      requires forall i | 0 <= i < |attestations| :: attestations[i].validator == attesters[i]
      modifies accounts.stateManager, blockService.repository, blockService.stateRepository
      ensures Valid() && accounts.Committed() == old(accounts.Accounts())
      ensures blockService.repository.saved
        == old(blockService.repository.saved) + if fault == AfterCommit then [] else [block]
      ensures thrown <==>
        || fault == AfterCommit || fault == DuringRewards
        || Distribute(old(accounts.Accounts()), d.proposer, attesters).Failed?
      ensures !thrown ==> Distribute(old(accounts.Accounts()), d.proposer, attesters) == Done(accounts.Accounts())
    {
      hide AccountService.Valid, AccountService.Accounts, AccountService.Committed, BlockRepository.Valid, Linked,
        Crypto.Valid, Distribute, Follows;
      blockService.CommitAccounts();
      if fault == AfterCommit {
        return true;
      }
      blockService.SaveBlock(block);
      thrown := DistributeRewards(d.proposer, attestations, attesters);
      thrown := thrown || fault == DuringRewards;
    }

    /** The part of a slot that follows the assignment of its proposer and committee, for accounts
        held as values. */
    method RunDuty(d: Duty, timestamp: nat, accepts: Address -> bool, fault: Fault) returns (ghost slot: Slot)
      requires Valid() && fault != BeforeExecution
      modifies accounts.stateManager, blockService.repository, blockService.stateRepository, blockService.txPool
      ensures Valid()
      ensures slot == Slot(d.proposer, d.committee, timestamp, RootOf(blockService.crypto, old(accounts.Committed())),
                           accepts, fault, old(accounts.Committed()), accounts.Committed())
      ensures StrictTotalOrder(old(blockService.txPool.pending).Values) ==>
        TakesSlot(blockService.crypto, old(Now()), slot, Now(), accounts.Committed())
    {
      hide AccountService.Valid, AccountService.Accounts, AccountService.Committed, BlockRepository.Valid,
        StateRepository.Valid, RootOf, Linked, Crypto.Valid, ExecuteBlock, Distribute, StrictTotalOrder, Ordered,
        ApplyAll, PoolAfter, BlockOver, Attesters, HasSupermajority, Distinct, Active, Addresses, Follows, Produce;
      assert accounts == blockService.accounts && blockService.crypto.Valid();
      hide BlockService.Valid, BlockProducer.Valid;
      ghost var base, root := accounts.Committed(), RootOf(blockService.crypto, accounts.Committed());
      slot := Slot(d.proposer, d.committee, timestamp, root, accepts, fault, base, base);
      var block := Propose(d.proposer, timestamp, fault == BeforePromotion);
      var abandoned := true;
      if block.Some? && fault != AfterExecution {
        var attestations := CollectAttestations(d.slot, block.value.hash, d.committee, accepts);
        abandoned := !HasSupermajority(|attestations|, |d.committee|);
        if !abandoned {
          abandoned := Settle(d, block.value, attestations, fault, slot.Voters());
        }
      }
      if abandoned {
        AbandonBlock();
      }
      slot := slot.(residue := accounts.Committed());
      SlotEnds(blockService.crypto, old(Now()), slot);
    }

    /** One slot. The environment says what time it is, whom the block convinces and at which point
        of Fault an exception interrupts the step, if one does. For accounts held as values the
        step is one of the machine's, with the committed accounts as base and residue. */
    method ProduceBlock(now: int, timestamp: nat, accepts: Address -> bool, fault: Fault) returns (ghost slot: Slot)
      requires Valid()
      modifies accounts.stateManager, blockService.repository, blockService.stateRepository, blockService.txPool
      ensures Valid()
      ensures slot.accepts == accepts && slot.timestamp == timestamp
      ensures slot.stateRoot == RootOf(blockService.crypto, old(accounts.Committed()))
      ensures slot.base == old(accounts.Committed())
      ensures slot.fault ==
        if CurrentSlot(now).None? || (forall v | v in validatorService.validators :: !v.isActive)
        then BeforeExecution else fault
      ensures slot.fault != BeforeExecution ==>
        && ChosenFor(blockService.crypto, validatorService.validators, CurrentSlot(now).value,
                     slot.proposer, slot.committee)
        && Validator(slot.proposer, true) in validatorService.validators
        && (forall a | a in slot.committee :: Validator(a, true) in validatorService.validators)
        && |slot.committee| <= COMMITTEE_SIZE
        && (Distinct(Addresses(Active(validatorService.validators))) ==> Distinct(slot.committee))
      ensures StrictTotalOrder(old(blockService.txPool.pending).Values) ==>
        TakesSlot(blockService.crypto, old(Now()), slot, Now(), accounts.Committed())
    {
      hide AccountService.Valid, AccountService.Accounts, AccountService.Committed, BlockRepository.Valid,
        StateRepository.Valid, RootOf, Linked, Crypto.Valid, ExecuteBlock, StrictTotalOrder, Ordered, Attesters,
        HasSupermajority, Distinct, Active, Addresses, AfterRewards, NewBlock, Produce;
      assert accounts == blockService.accounts;
      assert blockService.crypto.Valid() && validatorService.crypto == blockService.crypto;
      hide BlockService.Valid, BlockProducer.Valid;
      ghost var base, root := accounts.Committed(), RootOf(blockService.crypto, accounts.Committed());
      var duty := Assign(now);
      if duty.None? || fault == BeforeExecution {
        AbandonBlock();
        slot := Slot("", [], timestamp, root, accepts, BeforeExecution, base, base);
        SlotEnds(blockService.crypto, old(Now()), slot);
        return;
      }
      hide TakesSlot;
      slot := RunDuty(duty.value, timestamp, accepts, fault);
    }

    /** What the timer does: one slot, and then the delay until the next one. For accounts held as
        values: if the node keeps its invariant, and the committed accounts show the nonces that
        are read, both hold again after a slot, whatever goes wrong in it, unless a block that was
        executed and then abandoned leaves a pool that does not fit the nonces read afterwards. */
    method Tick(now: int, timestamp: nat, accepts: Address -> bool, fault: Fault, afterwards: int)
      returns (delay: Option<int>, ghost slot: Slot)
      requires Valid() && Now().chain != []
      modifies accounts.stateManager, blockService.repository, blockService.stateRepository, blockService.txPool
      ensures Valid()
      ensures NodeInv(blockService.crypto, old(Now()))
              && SameNonces(old(accounts.Committed()), old(accounts.Accounts())) ==>
        && SameNonces(accounts.Committed(), accounts.Accounts())
        && (NodeInv(blockService.crypto, Now()) <==> (slot.RollsBack() ==> ResidueFits(old(Now()), slot)))
      ensures delay.None? <==> CurrentSlot(afterwards).None?
      ensures delay.Some? ==>
        && 0 < delay.value <= BLOCK_TIME
        && CurrentSlot(afterwards + delay.value) == Some(CurrentSlot(afterwards).value + 1)
    {
      hide AccountService.Accounts, AccountService.Committed, BlockProducer.Valid, SameNonces, NodeInv, TakesSlot,
        ExecuteBlock, StrictTotalOrder, ResidueFits, Attesters, HasSupermajority, Distinct, Active, Addresses, RootOf,
        ChosenFor, Slot.RollsBack, BlockService.Valid, Crypto.Valid, BlockRepository.Valid, AccountService.Valid,
        Pool.Valid, Linked;
      ghost var c, s := blockService.crypto, Now();
      ghost var committed := accounts.Committed();
      slot := ProduceBlock(now, timestamp, accepts, fault);
      if NodeInv(c, s) && SameNonces(committed, s.accounts) {
        SlotOrdered(c, s);
        SlotKeeps(c, s, slot, Now(), accounts.Committed());
      }
      if CurrentSlot(afterwards).None? {
        return None, slot;
      }
      TimerFiresAtNextSlot(genesisTime.value, afterwards);
      return Some(DelayToNextSlot(genesisTime.value, afterwards)), slot;
    }
  }

  lemma SlotOrdered(c: Crypto, s: Node)
    requires NodeInv(c, s)
    ensures StrictTotalOrder(s.pool.pending.Values)
  {
    PendingIsOrdered(s.pool, s.accounts);
  }

  lemma SlotKeeps(c: Crypto, s: Node, slot: Slot, r: Node, committed: Ledger)
    requires NodeInv(c, s) && SameNonces(slot.base, s.accounts) && s.chain != []
    requires TakesSlot(c, s, slot, r, committed)
    ensures NodeInv(c, r) <==> (slot.RollsBack() ==> ResidueFits(s, slot))
    ensures SameNonces(committed, r.accounts)
  {
    hide PoolInv, ExecuteBlock, Attesters, HasSupermajority, AfterRewards, NewBlock, ResidueFits;
    var e := ExecuteBlock(s.pool, slot.base);
    assert slot.Saves() ==> SameNonces(AfterRewards(e.ledger, slot), e.ledger) by {
      if slot.Saves() {
        AfterRewardsNonces(e.ledger, slot);
      }
    }
    hide Produce;
    if slot.RollsBack() {
      BaseIsBounded(s, slot);
      AbandonKeepsNodeInvIff(c, s, slot);
    } else if slot.fault == BeforeExecution {
      SkipKeepsNodeInv(c, s, slot);
    } else {
      ProduceKeepsNodeInv(c, s, slot);
    }
  }

  /** Putting the nonces back is one way not to exceed what execution reached. */
  lemma BaseIsBounded(s: Node, slot: Slot)
    requires PoolInv(s.pool, s.accounts) && SameNonces(slot.base, s.accounts) && slot.residue == slot.base
    ensures ResidueBounded(s, slot)
  {
    PoolInvNonces(s.pool, s.accounts, slot.base);
    OrderedTakes(s.pool, slot.base);
    NonceBounds(slot.base, Ordered(s.pool.pending.Values));
    hide PoolInv, Ordered, ApplyAll, PoolAfter;
  }

  lemma Executed(p: Pool, base: Ledger, txs: seq<Tx>)
    ensures base.Keys <= ApplyAll(base, txs).0.Keys
    ensures txs == Ordered(p.pending.Values) ==>
      var (l, os) := ApplyAll(base, txs);
      ExecuteBlock(p, base) == Execution(txs, l, os, PoolAfter(p, l, txs))
  {
    hide Ordered, PoolAfter, ApplyAll;
    ApplyAllConserves(base, txs);
  }

  lemma BlockFollows(c: Crypto, chain: seq<Block>, root: Hash, proposer: Address, timestamp: nat,
                     txs: seq<Tx>, os: seq<Outcome>)
    requires chain != [] && |os| == |txs|
    ensures Follows(c, chain, BlockOver(c, chain[|chain| - 1], root, proposer, timestamp, txs, os))
  {
    hide TransactionsRoot, ReceiptsRoot, Receipts;
  }

  /** The ways a slot can end, for a node without history. */
  lemma SlotEnds(c: Crypto, s: Node, slot: Slot)
    requires s.log == [] && s.dropped == []
    ensures
      var r, e := Produce(c, s, slot).(log := [], dropped := []), ExecuteBlock(s.pool, slot.base);
      if slot.fault == BeforeExecution || s.chain == [] then r == s.(accounts := slot.base)
      else if slot.RollsBack() then
        r == s.(accounts := slot.residue,
                pool := if slot.fault == BeforePromotion then Pool(map[], s.pool.queued) else e.pool)
      else if slot.fault == AfterCommit then r == s.(accounts := e.ledger, pool := e.pool)
      else r == s.(accounts := AfterRewards(e.ledger, slot), pool := e.pool, chain := s.chain + [NewBlock(c, s, slot)])
  {
    hide ExecuteBlock, NewBlock, AfterRewards, Attesters, HasSupermajority;
  }

  lemma PaidAll(l: Ledger, proposer: Address, attesters: seq<Address>)
    ensures Distribute(l, proposer, attesters).Done? ==> forall x ::
      BalanceOf(Distribute(l, proposer, attesters).ledger, x) == BalanceOf(l, x) + Paid(proposer, attesters, x)
  {
    DistributeTotal(l, proposer, attesters);
    hide Distribute, BalanceOf, Paid, Total;
    if |attesters| <= WEI_PER_DSTN {
      forall x ensures
        BalanceOf(Distribute(l, proposer, attesters).ledger, x) == BalanceOf(l, x) + Paid(proposer, attesters, x)
      {
        DistributePays(l, proposer, attesters, x);
      }
    }
  }

  lemma OpenView(l: Ledger)
    ensures View(State([map[]], l)) == l
  {
    var empty: Layer := map[];
    assert [empty][..0] == [];
    assert Overlay(l, [empty][..0]) == l;
    assert Apply(l, empty) == l;
  }

  lemma {:induction false} CreditStops(l: Ledger, addresses: seq<Address>, amount: int, n: nat)
    requires n <= |addresses| && CreditEach(l, addresses[..n], amount).Failed?
    ensures CreditEach(l, addresses, amount).Failed?
  {
    if n < |addresses| {
      assert addresses[..|addresses| - 1][..n] == addresses[..n];
      CreditStops(l, addresses[..|addresses| - 1], amount, n);
    } else {
      assert addresses[..n] == addresses;
    }
  }
}
