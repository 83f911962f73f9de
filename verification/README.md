# Dustin chain: a verified model

This project models one node of the Dustin chain, without its virtual machine, and proves what the
node keeps from the moment a request is submitted until its transaction lies in a saved block.

Every class of the source that changes its fields in place is a Dafny class here, and each of its
methods is proved equal to a function on plain values. The properties that span many calls are proved
about those functions:

- `Types`, `Text`, `Numerals`: accounts, transactions, blocks, strings and digit strings. Signing, Keccak,
  RLP and the Merkle tries are the fields of `Crypto`, known only to be injective or inverse to each other.
- `Mempool`, `PendingOrder`, `TransactionPools`, `TxRequests`, `TransactionServices`: the two queues, the order of
  a block, normalisation, validation and submission, the choice of the next nonce.
- `LedgerOps`, `AccountServices`, `Rewards`: money and nonces, on maps and through the account service.
- `SharedAccounts`, `SharedLevels`, `SharedNode`: the account objects that service, journal and cache share, when
  they are as good as values, what a rollback leaves of their changes, and runs of the node carried out on them.
- `Journal`, `AccountCache`, `StateStore`, `StateManagers`: the journal stack over a bounded cache over a
  table with its trie.
- `ChainStore`, `BlockRepositories`: the string-keyed block store with its header cache and transaction index.
- `BlockExecution`, `BlockServices`, `Consensus`, `Validators`, `BlockProducers`: one slot, from the choice of the
  committee to the rewards.
- `StateRoots`: when the state root in a header names the accounts that its block leaves.
- `NodeMachine`, `NodeInvariants`, `NodeHistory`, `NodeLiveness`, `NodeChain`, `NodeSupply`, `NodeWitness`: the node
  as a state machine whose steps are submissions and slots, and what holds over every run of it.
- `Units`, `ScalarCodec`: amounts as text, integers as minimal big-endian bytes.

The machine leaves open what the accounts read as after the journal was reset, and when a request arrives
(`Slot.base`, `Slot.residue`, `SubmitRequest.seen`), because in the source an account object can be shared between
the journal and the cache. `SharedAccounts` shows what can be read then. The objects of a block read as its execution
on values says, unless the cache drops one that shows a change which is neither journalled nor stored (`BlockSeen`).
After a rollback an address reads as changed exactly if the cache still holds the changed object, and otherwise as
stored (`ResetReads`). No object ever shows a nonce below the stored one, over any number of saved and abandoned
blocks (`RunAhead`, `ResetAndCommitAhead`), so no nonce reads as higher than execution left it. While no block that
charged somebody is abandoned, no nonce that is read moves but by execution (`SharedNode.RunIsSteady`); afterwards
one can, when the cache drops an object (`LaterEvictionLowersNonce`). The classes hold accounts as values; for those,
`BlockProducer.ProduceBlock` takes a step of the machine with the committed accounts in both places. What is claimed
of the node itself rests on the machine with those places open.

An exception can interrupt a slot of the machine before the block's first transaction, between the execution loop
and the promotion, between the promotion and the end of the commit, between the commit and the save, or after the
save (`Fault`). A commit that stops halfway is the third of these: the open residue may mix what was written with
what was not.

## Where the code does not do what its comments say

Each of these is modelled as the code has it, and the condition under which the intended law does hold is
proved, in both directions where there are two:

- The order of pending transactions is an order only while no sender has two of them and no hashes collide
  (`ComparatorIsOrderIff`, `ComparatorCanCycle`).
- Committing a checkpoint merges it into the layer below; with no layer below, its changes are dropped rather
  than kept for the block commit (`CommitLawIff`, `CommitDropsOnlyLayer`).
- A deletion never reaches the repository, so a deleted account that is stored comes back with the commit
  (`CommitBlockView`, `MissingIffDeleted`, `DeletedComesBack`).
- A rejected block has already left the pool and promoted successors, and a rollback undoes a raised nonce only if
  the cache has dropped the account object. The pool then fits the nonces that are read exactly if each promoted
  successor's sender still reads as raised (`AbandonedPoolInvIff`, `AbandonKeepsNodeInvIff`), that is, if its object
  is still cached (`AbandonOnObjectsIff`): always if all of them are (`AbandonWithNewNonces`), and only if nothing
  was promoted if none is (`AbandonWithOldNonces`). Both happen to one reachable node
  (`AbandonedBlockCanBreakThePool`).
- A failed transaction is charged 21000 wei, not 21000 times its gas price, and one that cannot pay even that
  raises no nonce, so the nonces in the chain are 0, 1, 2, ... exactly for senders whose transactions were all
  charged (`ApplyTxMeaning`, `SenderNoncesIff`). Validation lets such a transaction in (`AcceptedCanBeUnpaid`).
- The state root in a header is read before the block's accounts are committed: it names the accounts before
  the block. A root names one ledger only (`RootNamesLedger`), so it names those after the block too exactly if no
  pending transaction can transfer, every sender's balance is below 21000 wei, and every sender has an account
  (`HeaderRootIff`, `BlockService.CreateBlock`). One request after genesis it does not (`HeaderRootCanLag`).
- `setStateRoot` does not use the requested root; what it rebuilds is the stored table, as far as its keys lie in
  the scanned range (`RebuildIff`). A restart thus arrives at the root of the accounts after the latest block, which
  is the one requested in the same case only (`RestartRootIff`, `BlockService.RestoreState`).
- Rewards are journalled after the commit and `startBlock` empties the journal: with accounts as values, what is
  committed never holds the rewards of the last block (`BlockProducer.ProduceBlock`, `BlockProducer.OpenBlock`).
  In the source they live on in account objects that the cache shares, until it drops them: emptying the journal
  undoes nothing exactly if every object whose change was not stored is cached (`ResetUndoesNothingIff`).
- A contract deployment is stored with an empty recipient, and read back with the recipient `0x` instead of none:
  the RLP library decodes an empty array, which is turned into text before it is compared with nothing (`RecipientKeptIff`).

## Model

| member | source | states |
|---|---|---|
| `Mempool.AddKeepsInv` | src/transaction/pool/transaction.pool.ts:64-87 | adding keeps every pooled nonce on the right side of the account nonce and unique for its sender, and succeeds iff the hash is new and the nonce not too old |
| `TransactionPools.TransactionPool.Add` | src/transaction/pool/transaction.pool.ts:64-87 | the maps after an addition, and its answer |
| `TransactionPools.TransactionPool.Get` | src/transaction/pool/transaction.pool.ts:95-97 | finds a pooled transaction with the hash iff there is one |
| `TransactionPools.TransactionPool.GetPending` | src/transaction/pool/transaction.pool.ts:107-122 | a permutation of the pending transactions in which gas prices fall; whenever the comparator is an order on them, the only sorted one, however the map enumerates them: at one price nonces of a sender rise, and so do hashes of different senders |
| `TransactionPools.TransactionPool.PromoteQueuedToPending` | src/transaction/pool/transaction.pool.ts:142-159 | the loop over a copy of the queue moves exactly the sender's transactions at the new nonce |
| `TransactionPools.TransactionPool.Remove` | src/transaction/pool/transaction.pool.ts:189-198 | removes from pending, and only failing that from the queue |
| `PendingOrder.ComparatorIsOrderIff` | src/transaction/pool/transaction.pool.ts:107-122 | the comparator is a strict total order on a set iff the set has no tie and no inversion of nonce rule and hash rule |
| `PendingOrder.ComparatorCanCycle` | src/transaction/pool/transaction.pool.ts:107-122 | three transactions, two of one sender, that the comparator puts in a circle |
| `PendingOrder.OrderUnique` | src/transaction/pool/transaction.pool.ts:107-122 | if the comparator orders a set, exactly one list of its members is sorted |
| `PendingOrder.SortIsOrdered` | src/transaction/pool/transaction.pool.ts:107-122 | sorting any enumeration of the set gives that list |
| `PendingOrder.SortedIff` | src/transaction/pool/transaction.pool.ts:112-121 | a list is sorted iff gas prices never rise, and at one price nonces of a sender and hashes of different senders do |
| `PendingOrder.OrderedMeans` | src/transaction/pool/transaction.pool.ts:112-121 | so the block order takes the highest gas price first, and ranks ties by nonce and by hash where the comparator is an order |
| `Text.LexLessIff` | src/transaction/pool/transaction.pool.ts:120 | one hash comes before another iff they agree up to a place where it ends or has the smaller character |
| `Mempool.PendingIsOrdered` | src/transaction/pool/transaction.pool.ts:107-122 | every pool that keeps the invariant is ordered by the comparator, with at most one pending transaction for a sender |
| `TxRequests.NormalizeAccepts` | src/transaction/transaction.service.ts:533-556 | exactly which data strings are accepted |
| `TxRequests.NormalizeIdempotent` | src/transaction/transaction.service.ts:184-188 | the normalisations repeated during validation leave the data, and so the hash, as they were |
| `TxRequests.NormalizeDigits` | src/transaction/transaction.service.ts:533-556 | the normal form has the digits of the trimmed text, without its prefix, one by one and in lower case |
| `TxRequests.AcceptedIff` | src/transaction/transaction.service.ts:342-440 | a request enters the pool iff its data, signature, nonce, gas and funds are in order; the pool never refuses what validation let through |
| `TxRequests.AcceptedFields` | src/transaction/transaction.service.ts:371-440 | the accepted transaction has each field of the request, with the defaults for price and limit, and the hash of these |
| `TxRequests.RefusedIff` | src/transaction/transaction.service.ts:251-369 | any other request is refused for the first reason that applies, in the order data, signature, nonce too old, nonce taken, gas, funds |
| `TxRequests.AcceptedIsCharged` | src/transaction/transaction.service.ts:290-302 | an accepted transaction that offers gas worth the fee is charged if it is executed on the balances it was accepted on |
| `TxRequests.AcceptedCanBeUnpaid` | src/transaction/transaction.service.ts:290-302 | one that offers less can be accepted and then not be charged, on the same balances |
| `TxRequests.SubmitKeepsInv` | src/transaction/transaction.service.ts:371-440 | a submission keeps the pool invariant, adds just the accepted transaction, which was not there before, and changes nothing if it refuses |
| `TxRequests.NextNonceExtendsRun` | src/transaction/transaction.service.ts:86-99 | the nonce chosen for signing passes nonce validation and extends a gapless run of pooled nonces |
| `TransactionServices.TransactionService.VerifySignature` | src/transaction/transaction.service.ts:184-230 | leaves the data in normal form, and accepts iff the recovered address is the sender |
| `TransactionServices.TransactionService.ValidateNonce` | src/transaction/transaction.service.ts:251-280 | rejects a used-up nonce, then a nonce that another pooled transaction of the sender has |
| `TransactionServices.TransactionService.ValidateTransaction` | src/transaction/transaction.service.ts:312-356 | the first failing check, in order, with the accounts unchanged |
| `TransactionServices.TransactionService.SubmitTransaction` | src/transaction/transaction.service.ts:371-440 | on the real pool and accounts, submission is the function all run properties are about |
| `TransactionServices.TransactionService.ChooseNonce` | src/transaction/transaction.service.ts:86-99 | the filter-and-reduce loop computes that nonce, with the properties of NextNonceExtendsRun |
| `TransactionServices.TransactionService.GetTransaction` | src/transaction/transaction.service.ts:456-496 | over a chain of saved blocks, finds what is pooled or saved under a hash, at its last place, field by field, and nothing else |
| `LedgerOps.ApplyTxMeaning` | src/block/block.service.ts:369-398 | the outcome is decided by the sender's balance alone, every balance moves by exactly what the outcome says, and only the sender's nonce moves |
| `LedgerOps.ApplyTxAccounts` | src/block/block.service.ts:363-397 | just the sender, and the recipient of a transfer that was made, have an account if they had none, and no code changes |
| `LedgerOps.AttemptConserves` | src/account/account.service.ts:106-149 | what crediting, debiting and touching an account do to the sum of all balances |
| `LedgerOps.ApplyTxConserves` | src/block/block.service.ts:976-981 | one transaction conserves the sum of all balances but for the fee, and no balance turns negative |
| `LedgerOps.ApplyAllConserves` | src/block/block.service.ts:359-398 | after the loop the sum is less by 21000 wei for each failed transaction that could pay; no balance turns negative, no account disappears |
| `AccountServices.AccountEntity.AddBalance` | src/account/entities/account.entity.ts:104-109 | throws iff the amount is not positive, and then changes nothing |
| `AccountServices.AccountEntity.SubtractBalance` | src/account/entities/account.entity.ts:122-132 | throws iff the amount is not positive or not covered; a balance never turns negative |
| `AccountServices.AccountService.NeverNegative` | src/account/entities/account.entity.ts:122-132 | in every state of the service no account that can be read has a negative balance |
| `AccountServices.AccountService.GetOrCreateAccount` | src/account/account.service.ts:45-55 | for accounts held as values: returns the account of the view, which gains it if it was missing |
| `AccountServices.AccountService.AddBalance` | src/account/account.service.ts:106-118 | for accounts held as values: the whole view afterwards, also after a throw |
| `AccountServices.AccountService.SubtractBalance` | src/account/account.service.ts:137-149 | for accounts held as values: the whole view afterwards, also after a throw |
| `AccountServices.AccountService.Transfer` | src/account/account.service.ts:164-178 | for accounts held as values: the whole view afterwards, also after a throw |
| `AccountServices.AccountService.IncrementNonce` | src/account/account.service.ts:194-205 | for accounts held as values: the whole view afterwards |
| `SharedAccounts.StepSeen` | src/account/account.service.ts:45-55 | looking at, creating or changing an account does to what is read what it does to values, provided the cache drops no object that shows a change neither journalled nor stored |
| `SharedAccounts.RunSeen` | src/account/account.service.ts:45-55 | so does any sequence of them |
| `SharedAccounts.BlockSeen` | src/block/block.service.ts:354-402 | a block carried out on shared objects by the account operations leaves them reading as its execution on values, stores nothing and lowers no nonce, under the same proviso |
| `SharedAccounts.CommitSeen` | src/state/state-manager.ts:190-223 | a commit changes nothing that is read, under the same proviso, and stores exactly what is journalled |
| `SharedAccounts.ResetReads` | src/state/state-manager.ts:231-235 | emptying the journal undoes a change exactly if the cache no longer holds the changed object |
| `SharedAccounts.ResetUndoesNothingIff` | src/state/state-manager.ts:123-127 | it undoes nothing exactly if the cache holds every object whose change was not stored |
| `SharedAccounts.ResetAndCommitAhead` | src/state/state-manager.ts:190-235 | that no object shows a nonce below the stored one survives commits and resets, whatever the cache drops |
| `SharedAccounts.AbandonedNonces` | src/state/state-manager.ts:231-235 | after any operations that lower no nonce, also when earlier blocks were abandoned, a rollback leaves every nonce between the stored and the reached one; if the reached ones are the stored ones it leaves them alone |
| `SharedAccounts.AbandonOnObjectsIff` | src/block/producer/block.producer.ts:238-260 | an abandoned block that was carried out on objects and had promoted keeps the node's invariant iff the cache still holds the account of every sender whose successor was promoted; earlier blocks may have been abandoned |
| `SharedAccounts.BothEndsAreReached` | src/state/state-manager.ts:71-83 | one charge that a rollback keeps and undoes, with and without the object in the cache |
| `SharedLevels.RunLevel` | src/state/state-manager.ts:55-101 | operations that change no nonce keep every object at the stored nonce; any operations keep those that are only cached so |
| `SharedLevels.CommitLevel` | src/state/state-manager.ts:190-223 | a commit brings every object to the stored nonce again and moves no nonce that is read |
| `SharedLevels.LaterEvictionLowersNonce` | src/state/state-manager.ts:240-248 | after an abandoned charge, looking at another account can drop the object and so lower the nonce that is read |
| `SharedNode.RunIsSteady` | src/block/producer/block.producer.ts:188-267 | a run of requests and slots carried out on shared objects, whatever the cache drops, moves no nonce that is read but by execution, as long as no block that charged somebody is abandoned |
| `SharedNode.PoolInvariantOnObjects` | src/block/producer/block.producer.ts:188-267 | from genesis such a run keeps the pool in step with the nonces that are read from the objects |
| `BlockExecution.ExecutedAtAccountNonce` | src/block/block.service.ts:976-981 | although execution checks no nonce, each transaction of a block meets exactly its sender's nonce at that moment |
| `BlockExecution.NoncesMove` | src/block/block.service.ts:359-398 | a block raises the nonce of each sender it charges by one and moves no other |
| `BlockExecution.BlockKeepsInv` | src/block/block.service.ts:475-486 | after execution and promotion the pool keeps its invariant against the new nonces |
| `BlockExecution.AbandonedPoolInvIff` | src/block/producer/block.producer.ts:238-260 | the pool of an abandoned block fits the nonces that are read afterwards, whichever they are up to those that execution reached, iff each promoted successor's sender reads as raised |
| `BlockExecution.UnpromotedPoolInvIff` | src/block/block.service.ts:438-486 | if it is abandoned before the promotion, iff no successor's sender reads as raised |
| `BlockExecution.RollbackKeepsInvIff` | src/block/producer/block.producer.ts:238-260 | for nonces that are all put back: iff nothing was promoted |
| `BlockServices.BlockService.ExecuteTransaction` | src/block/block.service.ts:976-981 | the branch without a virtual machine, on the real accounts |
| `BlockServices.BlockService.ExecuteOrCharge` | src/block/block.service.ts:369-398 | one round of the loop: execution, or the fee and the nonce |
| `BlockServices.BlockService.ExecuteAll` | src/block/block.service.ts:359-433 | the loop executes in order, empties the pool of its transactions and writes receipts whose gas accumulates |
| `BlockServices.BlockService.PromoteAll` | src/block/block.service.ts:475-486 | promoting sender by sender, each once, is promoting all that the new nonces allow |
| `BlockServices.BlockService.CreateBlock` | src/block/block.service.ts:336-500 | each field of the block and of its receipts, the order of its transactions, the accounts and the pool afterwards; opened on the committed accounts, its header root names those afterwards iff every pending transaction is idle; what an exception before the promotion leaves; nothing happens without a genesis block |
| `BlockServices.BlockService.Assemble` | src/block/block.service.ts:436-474 | the block of executed transactions, field by field, and its receipts, which name its hash |
| `BlockServices.BlockService.CreateGenesisBlock` | src/block/block.service.ts:229-290 | with a block already saved no change; otherwise the allocation over whatever accounts there are, committed, and the block, field by field; from empty stores the genesis node of the machine, and every balance is the sum of its entries |
| `NodeMachine.GenesisPays` | src/block/block.service.ts:242-245 | each balance at genesis is the sum of the address's entries in the allocation |
| `NodeChain.FieldsOfGenesis` | src/block/block.service.ts:254-278 | each field of the genesis block |
| `BlockServices.BlockService.RestoreState` | src/block/block.service.ts:198-219 | a restart rebuilds the trie of the stored accounts, whatever root the latest header asks for |
| `StateRoots.RootNamesLedger` | src/storage/repositories/state-leveldb.repository.ts:172-213 | two ledgers without debts have the same root iff they are equal |
| `StateRoots.UnchangedIff` | src/block/block.service.ts:354-402 | a block leaves the accounts as they were iff each of its transactions is idle on the accounts before it: it cannot transfer, its sender cannot pay the fee and has an account |
| `StateRoots.UnchangedIffUnpaid` | src/block/block.service.ts:354-402 | the same by outcomes: nobody is charged and every sender had an account |
| `StateRoots.HeaderRootIff` | src/block/block.service.ts:436-440 | the root of the accounts before a block is that of the accounts after it iff every pending transaction is idle |
| `StateRoots.RestartRootIff` | src/block/block.service.ts:198-219 | the root after a restart is the one in the latest header iff every transaction of its block was idle |
| `NodeWitness.HeaderRootCanLag` | src/block/block.service.ts:436-440 | one request after genesis the next block's header root does not name the accounts it leaves |
| `BlockServices.BlockService.SaveBlock` | src/block/block.service.ts:509-510 | saving a block built over the latest one keeps the saved blocks a linked chain |
| `BlockServices.LinkedIsListed` | src/storage/repositories/block-leveldb.repository.ts:88-135 | a linked chain is always one the repository can hold: numbers from zero, no hash twice |
| `Rewards.DistributeTotal` | src/block/producer/block.producer.ts:283-316 | completes iff there are at most 10^18 attesters, makes 2 DSTN and n equal shares, and loses less than n wei |
| `Rewards.DistributePays` | src/block/producer/block.producer.ts:283-316 | every address gets 2 DSTN if it is the proposer, and for each of its attestations an equal share of 1 DSTN rounded down to the wei |
| `NodeInvariants.SlotPays` | src/block/producer/block.producer.ts:225-238 | so it does in a saved slot of the machine, over what execution left |
| `Rewards.DistributeNonces` | src/block/producer/block.producer.ts:283-316 | rewards move no nonce and make no balance negative, even if proposer and attesters coincide |
| `Consensus.CollectAttestations` | src/consensus/consensus.service.ts:64-98 | one attestation for each accepting committee member, in committee order, naming slot, block and member |
| `Consensus.AttestersMeaning` | src/consensus/consensus.service.ts:64-98 | exactly the accepting members attest, without repetition if the committee has none |
| `Consensus.AttestersInOrder` | src/consensus/consensus.service.ts:64-98 | they attest in committee order, each as often as it sits there |
| `Consensus.SupermajorityIff` | src/consensus/consensus.service.ts:109-121 | the rounded threshold is 3a >= 2n |
| `Consensus.StubNeverRejects` | src/consensus/consensus.service.ts:141-150 | while validation accepts everything, no block is rejected |
| `Consensus.SupermajoritiesIntersect` | src/consensus/consensus.service.ts:109-121 | two supermajorities of a committee share at least a third of it |
| `Consensus.HonestAttesterInBoth` | src/consensus/consensus.service.ts:109-121 | with less than a third dishonest, two justified blocks share an honest attester |
| `Consensus.TimerFiresAtNextSlot` | src/block/producer/block.producer.ts:141-175 | the timer waits more than nothing and at most a slot, and fires at the first moment of the next slot |
| `Consensus.EpochBounds` | src/consensus/consensus.service.ts:207-224 | a slot belongs to an epoch iff it lies between the epoch's first and last slot |
| `Validators.SeedBijection` | src/validator/validator.service.ts:219-234 | the generator step is a bijection of the residues, with inverse factor 1899818559 |
| `Validators.SeedNeverCollapses` | src/validator/validator.service.ts:219-234 | after any number of steps the seed is zero iff the first one was a multiple of the modulus |
| `Validators.SeedIsPower` | src/validator/validator.service.ts:225-228 | after n steps the seed is the first one times 48271^n modulo 2147483647 |
| `Validators.SeedDigits` | src/validator/validator.service.ts:251-253 | a slot's seed is the number in the first digits of the hash of the text for slot and purpose |
| `Validators.SeedTextInjective` | src/validator/validator.service.ts:251-253 | different slots and purposes give different texts |
| `Validators.ActiveInOrder` | src/validator/validator.service.ts:117-119 | the active validators stay in the order of the list, each as often as it is there |
| `Validators.Shuffle` | src/validator/validator.service.ts:219-234 | the in-place loop ends where exchanging, for i = n-1, ..., 1, cell i with the cell that the generator picks among 0, ..., i ends; the last cell is the first pick |
| `Validators.ShuffledRuns` | src/validator/validator.service.ts:219-234 | the shuffle is the Fisher-Yates exchange by the generator's picks |
| `Validators.ChoicesMatter` | src/validator/validator.service.ts:219-234 | on different elements, different picks end in different orders |
| `Validators.ShufflePermutes` | src/validator/validator.service.ts:219-234 | for every seed the result is a permutation |
| `Validators.ValidatorService.SelectProposer` | src/validator/validator.service.ts:142-162 | an active validator, the one that the slot's hash points to; none iff none is active |
| `Validators.ValidatorService.SelectCommittee` | src/validator/validator.service.ts:182-210 | min(128, active) active validators, the first of that shuffle of them by the slot's seed, all different if the validators are |
| `Journal.RunRefines` | src/state/state-manager.ts:55-223 | any sequence of operations on the layers is the same sequence on a stack of full snapshots |
| `Journal.RevertRestores` | src/state/state-manager.ts:175-181 | checkpoint, any balanced body, revert: the very same journal |
| `Journal.CommitIsTransparent` | src/state/state-manager.ts:148-166 | over a block's layer, checkpoint, any balanced body, commit is the body alone |
| `Journal.CommitDropsOnlyLayer` | src/state/state-manager.ts:152-156 | with no layer below, committing drops the body's changes |
| `Journal.CommitLawIff` | src/state/state-manager.ts:148-166 | bracketing is transparent for every body iff the stack is not empty |
| `Journal.FlushIsOverlay` | src/state/state-manager.ts:197-218 | what a block commit writes is the view laid over the table |
| `Journal.CommitBlockView` | src/state/state-manager.ts:190-223 | a block commit leaves the view of every address as it was, unless a stored account was deleted; the whole view stays iff there is none |
| `Journal.MissingIffDeleted` | src/state/state-manager.ts:207-210 | a stored account is missing from the view iff its topmost entry is a deletion |
| `Journal.DeletedComesBack` | src/state/state-manager.ts:207-210 | a stored account, once deleted, is missing until the commit and back after it |
| `AccountCache.AddCoherent` | src/state/state-manager.ts:240-248 | adding, with eviction when full, keeps the cache equal to the repository where it has entries, and within 1000 |
| `AccountCache.AddOrder` | src/state/state-manager.ts:240-248 | a cache of 1000 loses its oldest entry, even if the added key is present; a new key comes last |
| `AccountCache.HoldsLatest` | src/state/state-manager.ts:240-248 | of accounts with different addresses, added one after the other, the cache holds the last 1000 |
| `AccountCache.SizeIsCount` | src/state/state-manager.ts:240-248 | the bounded size is the number of entries |
| `StateManagers.StateManager.GetAccount` | src/state/state-manager.ts:55-88 | layers, cache and repository together answer as the view does |
| `StateManagers.StateManager.SetAccount` | src/state/state-manager.ts:93-101 | one step of the journal, opening a layer if there is none, for any account |
| `StateManagers.StateManager.DeleteAccount` | src/state/state-manager.ts:106-114 | one step of the journal |
| `StateManagers.StateManager.StartBlock` | src/state/state-manager.ts:123-127 | one step of the journal |
| `StateManagers.StateManager.CommitCheckpoint` | src/state/state-manager.ts:148-166 | the merge loop is one step of the journal; throws iff the stack is empty |
| `StateManagers.StateManager.RevertCheckpoint` | src/state/state-manager.ts:175-181 | one step of the journal; throws iff the stack is empty |
| `StateManagers.StateManager.CommitBlock` | src/state/state-manager.ts:190-223 | merging and flushing, in any order, is one step of the journal, and the cache stays coherent; throws iff some merged account cannot be stored, leaving the journal and a part of the accounts written |
| `StateManagers.StateManager.Flush` | src/state/state-manager.ts:205-218 | the repository holds the live entries over what it held, whatever order they are written in, up to the first that cannot be stored |
| `StateManagers.StateManager.RollbackBlock` | src/state/state-manager.ts:231-235 | one step of the journal |
| `StateStore.StateRepository.GetAccount` | src/storage/repositories/state-leveldb.repository.ts:93-158 | reads back what was last saved |
| `StateStore.StateRepository.SaveAccount` | src/storage/repositories/state-leveldb.repository.ts:172-213 | table, trie and root stay images of the same accounts; a negative balance is refused and changes nothing |
| `StateStore.StateRepository.SetStateRoot` | src/storage/repositories/state-leveldb.repository.ts:249-277 | rebuilding the trie in any order restores contents and root |
| `StateStore.RebuildIff` | src/storage/repositories/state-leveldb.repository.ts:256-266 | it does so iff every stored address lies in the scanned key range, as every 0x address does |
| `ChainStore.KeysDistinct` | src/storage/repositories/block-leveldb.repository.ts:102-129 | key strings never collide across kinds or arguments |
| `ChainStore.HeaderRoundTrip` | src/storage/repositories/block-leveldb.repository.ts:315-367 | a header is read back as it was written |
| `ChainStore.BodyRoundTrip` | src/storage/repositories/block-leveldb.repository.ts:419-505 | of each transaction, in order, hash, sender, recipient text, value, nonce, r, s, gas price and gas limit are read back |
| `ChainStore.RecipientKeptIff` | src/storage/repositories/block-leveldb.repository.ts:480-481 | the recipient is read back as it was iff there is one |
| `ChainStore.ImageHashes` | src/storage/repositories/block-leveldb.repository.ts:102-121 | after any saves, a hash is stored iff a saved block has it, with the header and body of the last one |
| `ChainStore.StoredReadsBack` | src/storage/repositories/block-leveldb.repository.ts:102-121 | what is stored under a hash reads back as the block last saved with it, each field of header and transactions |
| `ChainStore.ImageNumbers` | src/storage/repositories/block-leveldb.repository.ts:112-114 | after any saves, a number is stored iff a saved block has it, with the hash of the last one |
| `ChainStore.PositionRoundTrip` | src/storage/repositories/block-leveldb.repository.ts:601-635 | an index entry is read back as it was written |
| `ChainStore.IndexIsLastPosition` | src/storage/repositories/block-leveldb.repository.ts:123-129 | after any number of saves the index holds the last position of each hash |
| `ChainStore.IndexSoundComplete` | src/storage/repositories/block-leveldb.repository.ts:123-129 | an entry names a saved block and an index that hold that hash; every saved transaction has an entry |
| `ChainStore.IndexNamesLast` | src/storage/repositories/block-leveldb.repository.ts:123-129 | of several places of a hash it names the last |
| `BlockRepositories.BlockRepository.Save` | src/storage/repositories/block-leveldb.repository.ts:88-142 | the string store afterwards stands for one more save, whatever number and hash it overwrites |
| `BlockRepositories.BlockRepository.FindByHash` | src/storage/repositories/block-leveldb.repository.ts:191-240 | each field of the block that was last saved with the hash, and of its transactions, whatever the header cache holds; none iff there is no such block |
| `BlockRepositories.BlockRepository.FindByNumber` | src/storage/repositories/block-leveldb.repository.ts:150-182 | each field of the last block with the hash that the number last had; over a chain, of the one at that position; none iff no saved block has the number |
| `BlockRepositories.BlockRepository.FindLatest` | src/storage/repositories/block-leveldb.repository.ts:245-263 | each field of the block last saved |
| `BlockRepositories.BlockRepository.FindByRange` | src/storage/repositories/block-leveldb.repository.ts:268-279 | the answers for the numbers of the range; over a chain, each field of each block of the slice, as far as there is one |
| `BlockRepositories.BlockRepository.Count` | src/storage/repositories/block-leveldb.repository.ts:284-287 | one more than the last number; over a chain, its length |
| `BlockRepositories.BlockRepository.FindAll` | src/storage/repositories/block-leveldb.repository.ts:292-297 | over a chain, each field of each of its blocks; otherwise the answers for all numbers up to the last |
| `BlockRepositories.ListedAnswers` | src/storage/repositories/block-leveldb.repository.ts:150-240 | the answers by number and by hash over a list numbered from zero with different hashes read back as the list's blocks, field by field |
| `BlockServices.FoundHeaders` | src/storage/repositories/block-leveldb.repository.ts:150-240 | over a linked chain, a found header hashes to its own hash, and its parent hash is the hash of the header found one number below |
| `BlockRepositories.BlockRepository.FindTxLookup` | src/storage/repositories/block-leveldb.repository.ts:645-669 | the last position of a hash in the list |
| `BlockRepositories.BlockRepository.EvictHeaders` | src/storage/repositories/block-leveldb.repository.ts:48-60 | any eviction from the header cache keeps the repository valid |
| `BlockProducers.BlockProducer.Bootstrap` | src/block/producer/block.producer.ts:69-106 | the genesis time is that of block 0; throws iff there is none or it is zero |
| `BlockProducers.BlockProducer.Assign` | src/block/producer/block.producer.ts:190-205 | proposer and committee are those that the slot's hashes determine, and active validators; none iff the genesis time is unset or nobody is active |
| `BlockProducers.BlockProducer.Propose` | src/block/producer/block.producer.ts:211-215 | for accounts held as values: start of the block and its creation do what the machine's execution does; the block has the fields that its parent, proposer, time and receipts give, and takes the highest gas price first |
| `BlockProducers.BlockProducer.Settle` | src/block/producer/block.producer.ts:230-238 | commit, save and rewards, and what an exception after the commit or after the save leaves |
| `BlockProducers.BlockProducer.DistributeRewards` | src/block/producer/block.producer.ts:283-316 | the loop pays 2 DSTN to the proposer and, for each attestation, an equal share of 1 DSTN to whom it names, and nothing to others; throws iff a share is less than one wei |
| `BlockProducers.BlockProducer.RunDuty` | src/block/producer/block.producer.ts:211-260 | for accounts held as values, and an exception at any of the points of Fault: from the opening of the block to its rewards or its rollback, a slot of the machine over the committed accounts |
| `BlockProducers.BlockProducer.ProduceBlock` | src/block/producer/block.producer.ts:188-267 | the same for the whole step, with the proposer and the committee of the current slot |
| `BlockProducers.BlockProducer.Tick` | src/block/producer/block.producer.ts:170-174 | for accounts held as values: a slot keeps the node's invariant, unless it abandons an executed block and leaves a pool that does not fit the nonces read afterwards; the next delay is computed from the clock afterwards |
| `NodeInvariants.SlotSupply` | src/block/producer/block.producer.ts:225-238 | the money supply over a saved slot: minus the fees burned, plus the rewards |
| `NodeSupply.RunSupply` | src/block/producer/block.producer.ts:188-316 | over a run in which emptying the journal keeps the sum of what is read: the sum at first, plus the rewards, minus 21000 wei for each failed transaction charged by a committed block |
| `NodeSupply.SupplyFromGenesis` | src/block/block.service.ts:229-290 | from genesis, if every committed block is saved: the allocation, plus the rewards, minus 21000 wei for each charged failure in the chain |
| `NodeInvariants.ProduceKeepsNodeInv` | src/block/producer/block.producer.ts:188-267 | a slot that is skipped, or whose block is committed, keeps the pool invariant, also if saving or rewarding then fails |
| `NodeInvariants.AbandonKeepsNodeInvIff` | src/block/producer/block.producer.ts:238-260 | a slot that abandons an executed block keeps it iff the promoted successors, or those left in the queue, are where the nonces read afterwards put them; those may be any up to what execution reached |
| `NodeInvariants.AbandonWithOldNonces` | src/block/producer/block.producer.ts:238-260 | if the nonces read as before the block: iff nothing was promoted |
| `NodeInvariants.AbandonWithNewNonces` | src/block/producer/block.producer.ts:238-260 | if they all still read as raised: always, once it had promoted |
| `NodeWitness.AbandonedBlockCanBreakThePool` | src/block/producer/block.producer.ts:238-260 | two requests after genesis lead to a node that keeps the invariant; a block then abandoned loses it if the accounts read as before, and keeps it if they read as raised |
| `NodeInvariants.PoolInvariantHolds` | src/block/block.service.ts:336-500 | in every state reached by submissions and slots, provided that no nonce that is read moves between or at the steps but by execution, and that slots which abandon a block leave a fitting pool: the queues are disjoint, sender and nonce unique, pending nonces equal to the account nonce and queued ones greater |
| `NodeHistory.NothingLost` | src/block/block.service.ts:399-402 | over every run, each accepted transaction is in a saved block, dropped with an unsaved one, or pooled, as often as it was accepted |
| `NodeHistory.ChainNoncesInOrder` | src/block/block.service.ts:336-500 | the charged transactions of each sender lie in the chain at nonces 0, 1, 2, ... in this order |
| `NodeHistory.SenderNoncesIff` | src/block/block.service.ts:386-397 | all included transactions do iff each of them was charged |
| `NodeHistory.ExactlyOnePlace` | src/block/block.service.ts:399-402 | in such a state an accepted transaction is in exactly one of pending, queued, chain |
| `NodeHistory.LifeOfTransactions` | src/block/block.service.ts:336-500 | both of these from genesis, for every run whose slots save their blocks and charge what they include |
| `NodeLiveness.RunDrains` | src/block/block.service.ts:475-486 | a pool that holds a sender's nonces k, ..., k+m-1 from its account nonce on is drained of them by m saved blocks, one each, in nonce order, whatever it and others submit meanwhile |
| `NodeLiveness.RunEmpties` | src/block/block.service.ts:475-486 | if it holds no others and the sender falls silent, nothing of it is left, and its account nonce is k+m |
| `NodeChain.StepOnChain` | src/block/producer/block.producer.ts:225-260 | a slot that saves appends its block; any other step leaves the chain as it was |
| `NodeChain.FieldsOfNewBlock` | src/block/block.service.ts:336-500 | each field of the block of a slot and of its receipts, and the order of its transactions |
| `NodeChain.ChainFromGenesis` | src/block/producer/block.producer.ts:188-267 | over every run the blocks are numbered 0, 1, ..., linked by parent hash, one for each saving slot, and hold exactly the logged transactions |
| `NodeChain.HashesDistinct` | src/block/block.service.ts:1025-1060 | no two blocks of a linked chain share a hash |
| `NodeChain.ReceiptsOfBlock` | src/block/block.service.ts:404-433 | receipts accumulate gas and report success exactly for the transfers that could be made |
| `Units.RoundTrip` | src/common/utils/units.util.ts:33-157 | printing in DUTN or Gwei with d decimals and reading back loses exactly the remainder modulo the last shown decimal |
| `Units.ExactRoundTrip` | src/common/utils/units.util.ts:33-157 | with all decimals it loses nothing |
| `Units.DecimalsEnd` | src/common/utils/units.util.ts:84-90 | printed decimals are as many as asked for or fewer, and never end in zero |
| `Units.ToWeiReads` | src/common/utils/units.util.ts:33-62 | any number of decimals is read as what it says, those that the unit does not have cut off |
| `Units.FormatRoundTrip` | src/common/utils/units.util.ts:203-252 | formatting and parsing in all three units, with any or the default number of decimals |
| `Units.BareRoundTrip` | src/common/utils/units.util.ts:250-251 | an amount printed in DUTN is also read back without its unit |
| `ScalarCodec.RoundTrip` | src/block/block.service.ts:535-553 | decoding inverts encoding, and the bytes have no leading zero; Appendix B of the Ethereum Yellow Paper |
| `ScalarCodec.FromIsBigEndian` | src/block/block.service.ts:547-553 | decoding reads any bytes as a big-endian number |
| `ScalarCodec.CanonicalIff` | src/transaction/transaction.service.ts:45-53 | bytes are the encoding of what they decode to iff they have no leading zero, so the form is unique |

## Left out

- The path with a virtual machine, contracts, contract storage and code, an account's storage root and code hash
  beyond one value, `Code`, and logs in receipts: their behaviour lies in libraries.
- Sharing of account objects in the classes: `AccountServices`, `StateManagers` and `BlockProducers` hold accounts as
  values. `SharedAccounts` has the objects, for one journal layer, without the order in which the cache drops them.
- An object that the cache drops in the middle of a block while it held changes that were never committed: the
  machine reads one set of accounts throughout a block, and `BlockSeen` asks that no such object is dropped.
- Keccak, secp256k1, RLP, the tries and key-value databases themselves: `Crypto.Valid` says what is taken from
  them. A missing and an empty recipient, and a negative amount and its digits, hash alike in the source; the
  model takes the hash of the fields as they are.
- Upper-case addresses: addresses are taken in one canonical lower-case form, and `localeCompare` on lower-case
  hexadecimal text as the lexicographic order.
- The library sort: any sort gives the same list wherever the comparator is an order; elsewhere the model uses
  insertion from the right.
- Interleavings between awaits: a submission and a slot are atomic steps. Clocks, timers and the exceptions of
  the environment are parameters.
- The body codec's fields v and data, which are not read back as they were written, and the timestamp, which
  transactions of the model do not have. Hashes, addresses, r and s are taken as 0x text of whole bytes in lower case.
- Stored receipts (the `r` keys), block and pool statistics, opening and closing of databases and the errors
  they can raise other than as the faults of a slot, logging, controllers, genesis and validator files.
- Header cache policy: which entries leave the cache, and when, is arbitrary.
- The block validation stub: whom a block convinces is a parameter, so that the rejecting branch is live.
- `signTransaction` beyond its choice of the nonce, and the signature arithmetic of EIP-155.
- Amounts given as floating-point numbers, negative amounts, conversion of whole units without a decimal point
  in bigint form, `dutnToGwei`, `gweiToDutn`, and strings that only the runtime's BigInt parser accepts (signs,
  0x digits, inner white space). White space outside ASCII is not trimmed.
- `BlockRepositories.BlockRepository.Save`: asks for a hash that starts with 0x, as every hash of the node does.
- `AccountServices.AccountService.GetOrCreateAccount`: returns a fresh object with the value, not the shared one.
- `BlockProducers.BlockProducer.Propose`: opens on the committed accounts, as values; shared objects may still show
  earlier rewards then.
- `BlockProducers.BlockProducer.RunDuty`: speaks of accounts held as values, which a reset puts back.
- `BlockProducers.BlockProducer.ProduceBlock`: takes a step of the machine for accounts held as values, with the
  committed accounts as base and residue.
- `ChainStore.BodyRoundTrip`: leaves out the timestamp, which transactions of the model do not have.
- `BlockProducers.BlockProducer.Tick`: speaks of accounts held as values, for which a rollback puts all nonces back.
- `BlockServices.BlockService.SaveBlock`: does not write the receipts.
