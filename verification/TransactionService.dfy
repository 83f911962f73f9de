/** The transaction service: validation and submission, the choice of the next nonce, and the
    search for a transaction in the pool and in the saved blocks. */
module TransactionServices {
  import opened Types
  import opened LedgerOps
  import opened Mempool
  import opened TxRequests
  import opened TransactionPools
  import opened AccountServices
  import opened ChainStore
  import opened BlockRepositories

  datatype Found = Pooled(tx: Tx) | Mined(stored: StoredTx, blockHash: Hash, blockNumber: nat, txIndex: nat)

  /** A saved block holds a transaction with this hash. */
  ghost predicate Holds(blocks: seq<Block>, hash: Hash) {
    exists k, i :: 0 <= k < |blocks| && 0 <= i < |blocks[k].transactions| && blocks[k].transactions[i].hash == hash
  }

  class TransactionService {
    const crypto: Crypto
    const repository: BlockRepository
    const accounts: AccountService
    const txPool: TransactionPool

    constructor (c: Crypto, r: BlockRepository, a: AccountService, p: TransactionPool)
      ensures crypto == c && repository == r && accounts == a && txPool == p
    {
      crypto, repository, accounts, txPool := c, r, a, p;
    }

    /** What is pooled, pending transactions first. */
    method AllPooled() returns (txs: seq<Tx>)
      requires txPool.Valid()
      ensures forall t :: t in txs <==> txPool.Contents().Contains(t)
    {
      var pending := txPool.GetPending();
      var queued := txPool.GetQueued();
      return pending + queued;
    }

    /** Recovers the signer from the data in its normal form, which it leaves in the transaction. */
    method VerifySignature(tx: Tx) returns (checked: Tx, reason: Option<Rejection>)
      ensures var data := NormalizeData(Some(tx.payload.data));
        && (data.None? ==> reason == Some(InvalidData))
        && (data.Some? ==>
          && checked == tx.(payload := tx.payload.(data := data.value))
          && reason ==
            if crypto.recover(checked.payload, tx.signature) == tx.from then None else Some(InvalidSignature))
    {
      hide NormalizeData;
      var data := NormalizeData(Some(tx.payload.data));
      if data.None? {
        return tx, Some(InvalidData);
      }
      checked := if data.value != tx.payload.data then tx.(payload := tx.payload.(data := data.value)) else tx;
      var recovered := crypto.recover(checked.payload, checked.signature);
      return checked, if recovered != tx.from then Some(InvalidSignature) else None;
    }

    /** The nonce must not be used up, nor be taken by another pooled transaction of the sender. */
    method ValidateNonce(tx: Tx) returns (reason: Option<Rejection>)
      requires accounts.Valid() && txPool.Valid()
      modifies accounts.stateManager
      ensures accounts.Valid() && accounts.Committed() == old(accounts.Committed())
      ensures accounts.Accounts() == old(accounts.Accounts())
      ensures reason ==
        if tx.Nonce() < NonceOf(accounts.Accounts(), tx.from) then Some(NonceTooOld)
        else if NonceTaken(txPool.Contents(), tx) then Some(DuplicateNonce)
        else None
    {
      hide AccountService.Valid, AccountService.Accounts, AccountService.Committed, NonceTaken;
      var accountNonce := accounts.GetNonce(tx.from);
      if tx.Nonce() < accountNonce {
        return Some(NonceTooOld);
      }
      var all := AllPooled();
      NonceTakenIff(txPool.Contents(), tx);
      for i := 0 to |all|
        invariant forall k | 0 <= k < i :: !SameSlot(all[k], tx)
      {
        assert all[i] in all;
        if all[i].from == tx.from && all[i].Nonce() == tx.Nonce() {
          return Some(DuplicateNonce);
        }
      }
      return None;
    }

    /** Signature, nonce, gas and balance, in this order; the normal form of the data is taken
        again on the way, and changes nothing more. */
    method ValidateTransaction(tx: Tx) returns (checked: Tx, reason: Option<Rejection>)
      requires accounts.Valid() && txPool.Valid()
      modifies accounts.stateManager
      ensures accounts.Valid() && accounts.Committed() == old(accounts.Committed())
      ensures accounts.Accounts() == old(accounts.Accounts())
      ensures var data := NormalizeData(Some(tx.payload.data));
        && (data.None? ==> reason == Some(InvalidData))
        && (data.Some? ==>
          && checked == tx.(payload := tx.payload.(data := data.value))
          && reason == Validate(crypto, accounts.Accounts(), txPool.Contents(), checked))
    {
      hide AccountService.Valid, AccountService.Accounts, AccountService.Committed, NonceTaken, NormalizeData;
      checked, reason := VerifySignature(tx);
      if reason.Some? {
        return;
      }
      reason := ValidateNonce(checked);
      if reason.Some? {
        return;
      }
      if checked.payload.gasPrice <= 0 || checked.payload.gasLimit <= 0 {
        return checked, Some(InvalidGas);
      }
      NormalizeIdempotent(Some(tx.payload.data));
      var again := NormalizeData(Some(checked.payload.data));
      checked := checked.(payload := checked.payload.(data := again.value));
      var balance := accounts.GetBalance(checked.from);
      if balance < checked.payload.value + checked.payload.gasPrice * checked.payload.gasLimit {
        reason := Some(InsufficientBalance);
      }
    }

    /** Submission on the real pool is submission on its value; it moves no account. */
    method SubmitTransaction(r: Request) returns (response: Response)
      requires accounts.Valid() && txPool.Valid()
      modifies accounts.stateManager, txPool
      ensures accounts.Valid() && accounts.Committed() == old(accounts.Committed()) && txPool.Valid()
      ensures accounts.Accounts() == old(accounts.Accounts())
      ensures (txPool.Contents(), response) == Submit(crypto, old(accounts.Accounts()), old(txPool.Contents()), r)
    {
      hide AccountService.Valid, AccountService.Accounts, AccountService.Committed, Validate, NormalizeData,
        Mempool.Add;
      var data := NormalizeData(r.data);
      if data.None? {
        return Refused(InvalidData);
      }
      var payload := Payload(r.nonce, OrElse(r.gasPrice, DEFAULT_GAS_PRICE), OrElse(r.gasLimit, DEFAULT_GAS_LIMIT),
                             r.to, r.value, data.value);
      var tx := Tx(r.from, payload, r.signature, crypto.txHash(payload, r.signature));
      NormalizeIdempotent(r.data);
      var checked, reason := ValidateTransaction(tx);
      if reason.Some? {
        return Refused(reason.value);
      }
      var accountNonce := accounts.GetNonce(r.from);
      var added := txPool.Add(checked, accountNonce);
      return if added then Accepted(checked) else Refused(AlreadyInPool);
    }

    /** The nonce that the signing helper gives a sender: over a pool that keeps the invariant it
        is one that validation accepts, and it extends a gapless run of pooled nonces. */
    method ChooseNonce(from: Address) returns (nonce: int, ghost txs: seq<Tx>)
      requires accounts.Valid() && txPool.Valid()
      modifies accounts.stateManager
      ensures accounts.Valid() && accounts.Committed() == old(accounts.Committed())
      ensures accounts.Accounts() == old(accounts.Accounts())
      ensures forall t :: t in txs <==> txPool.Contents().Contains(t)
      ensures nonce == NextNonce(txs, NonceOf(accounts.Accounts(), from), from)
      ensures PoolInv(txPool.Contents(), accounts.Accounts()) ==>
        && nonce >= NonceOf(accounts.Accounts(), from)
        && !HasNonce(txPool.Contents(), from, nonce)
        && forall m: nat | PooledRun(txPool.Contents(), from, NonceOf(accounts.Accounts(), from), m) ::
             nonce == NonceOf(accounts.Accounts(), from) + m
    {
      hide AccountService.Valid, AccountService.Accounts, AccountService.Committed, PoolInv, PooledRun;
      var accountNonce := accounts.GetNonce(from);
      var all := AllPooled();
      var maxNonce := -1;
      for i := 0 to |all|
        invariant maxNonce == MaxNonce(all[..i], from)
      {
        assert all[..i + 1][..i] == all[..i];
        if all[i].from == from && all[i].Nonce() > maxNonce {
          maxNonce := all[i].Nonce();
        }
      }
      assert all[..|all|] == all;
      if PoolInv(txPool.Contents(), accounts.Accounts()) {
        NextNonceExtendsRun(txPool.Contents(), accounts.Accounts(), all, from);
      }
      return if maxNonce == -1 then accountNonce else maxNonce + 1, all;
    }

    /** Looks in the pool first, then follows the transaction index into its block. If the saved
        blocks are a chain, whatever is pooled or saved under the hash is found, and nothing else. */
    method GetTransaction(hash: Hash) returns (found: Option<Found>)
      requires repository.Valid() && txPool.Valid()
      modifies repository`headerCache
      ensures repository.Valid()
      ensures found.Some? && found.value.Pooled? ==>
        txPool.Contents().Contains(found.value.tx) && found.value.tx.hash == hash
      ensures found.None? || found.value.Mined? ==> forall t | txPool.Contents().Contains(t) :: t.hash != hash
      ensures Listed(repository.saved) && found.None? ==> !Holds(repository.saved, hash)
      ensures Listed(repository.saved) && found.Some? && found.value.Mined? ==>
        var f := found.value;
        && LastPosition(repository.saved, hash) == Some(Position(f.blockHash, f.blockNumber, f.txIndex))
        && f.blockNumber < |repository.saved| && f.txIndex < |repository.saved[f.blockNumber].transactions|
        && f.blockHash == repository.saved[f.blockNumber].hash
        && f.stored == Kept(repository.saved[f.blockNumber].transactions[f.txIndex]) && f.stored.hash == hash
        && TxReadsBack(f.stored, repository.saved[f.blockNumber].transactions[f.txIndex])
        && LastPlace(repository.saved, hash, f.blockNumber, f.txIndex)
    {
      hide Represents, Image, CacheAgrees, LastPosition, Listed;
      var pooled := txPool.Get(hash);
      if pooled.Some? {
        return Some(Pooled(pooled.value));
      }
      var lookup := repository.FindTxLookup(hash);
      if Listed(repository.saved) {
        IndexSoundComplete(repository.saved, hash);
        if lookup.Some? {
          IndexNamesLast(repository.saved, hash);
          KeptReadsBack(repository.saved[lookup.value.blockNumber].transactions);
          ListedAnswers(repository.saved, lookup.value.blockNumber);
        }
      }
      if lookup.None? {
        return None;
      }
      var block := repository.FindByHash(lookup.value.blockHash);
      if block.None? || lookup.value.txIndex >= |block.value.transactions| {
        return None;
      }
      var stored := block.value.transactions[lookup.value.txIndex];
      return Some(Mined(stored, lookup.value.blockHash, lookup.value.blockNumber, lookup.value.txIndex));
    }
  }
}
