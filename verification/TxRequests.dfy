/** How a submitted request becomes a transaction: normalisation of its data field, its hash,
    and the checks it must pass. */
module TxRequests {
  import opened Types
  import opened LedgerOps
  import opened Mempool
  import opened Text
  import opened Numerals

  const DEFAULT_GAS_PRICE := 1_000_000_000
  const DEFAULT_GAS_LIMIT := 21000

  // ---------- The data field ----------

  /** The normal form "0x" plus lower-case digits, or None where the source throws. */
  function NormalizeData(data: Option<string>): Option<string> {
    if data.None? || data.value == "" || data.value == "0x" || data.value == "0X" then Some("0x")
    else
      var trimmed := Trim(data.value);
      if |trimmed| == 0 then Some("0x")
      else if StartsWith(trimmed, "0x") || StartsWith(trimmed, "0X") then
        if StartsWith(trimmed, "0x") && AllDigits(trimmed[2..], Hex) then Some("0x" + ToLower(trimmed[2..])) else None
      else if AllDigits(trimmed, Hex) then Some("0x" + ToLower(trimmed)) else None
  }

  /** Exactly the hexadecimal strings, with or without the prefix and surrounding white space,
      are accepted; an upper-case prefix is accepted only when nothing else is there. */
  lemma NormalizeAccepts(d: string)
    ensures NormalizeData(Some(d)).Some? <==>
      d == "0X" || AllDigits(Trim(d), Hex) || (StartsWith(Trim(d), "0x") && AllDigits(Trim(d)[2..], Hex))
  {
    if d == "0x" {
      assert Trim(d) == d;
    }
    if StartsWith(Trim(d), "0X") || StartsWith(Trim(d), "0x") {
      assert DigitValue(Trim(d)[1]) == 16;
    }
  }

  /** What is accepted without a prefix, and what follows one, is kept digit by digit, in lower case. */
  lemma NormalizeDigits(d: string)
    requires NormalizeData(Some(d)).Some? && d != "0X"
    ensures
      var digits := if StartsWith(Trim(d), "0x") then Trim(d)[2..] else Trim(d);
      var r := NormalizeData(Some(d)).value;
      && |r| == 2 + |digits| && r[0] == '0' && r[1] == 'x'
      && forall i | 0 <= i < |digits| ::
        DigitValue(digits[i]) < 16 && DigitValue(r[2 + i]) == DigitValue(digits[i]) && !('A' <= r[2 + i] <= 'F')
  {
    if d == "0x" || d == "" {
      assert Trim(d) == d;
    }
    var t := Trim(d);
    if StartsWith(t, "0X") || StartsWith(t, "0x") {
      assert DigitValue(t[1]) == 16;
    }
    var digits := if StartsWith(t, "0x") then t[2..] else t;
    assert AllDigits(digits, Hex) && NormalizeData(Some(d)).value == "0x" + ToLower(digits) by {
      hide Trim, DigitValue;
      assert "0x" + ToLower("") == "0x";
    }
    hide NormalizeData, Trim;
    LowerDigits(digits);
  }

  lemma LowerDigits(digits: string)
    requires AllDigits(digits, Hex)
    ensures forall i | 0 <= i < |digits| ::
      && DigitValue(digits[i]) < 16
      && DigitValue(("0x" + ToLower(digits))[2 + i]) == DigitValue(digits[i])
      && !('A' <= ("0x" + ToLower(digits))[2 + i] <= 'F')
  {
    var r := "0x" + ToLower(digits);
    forall i | 0 <= i < |digits|
      ensures DigitValue(digits[i]) < 16 && DigitValue(r[2 + i]) == DigitValue(digits[i]) && !('A' <= r[2 + i] <= 'F')
    {
      assert r[2 + i] == LowerChar(digits[i]);
    }
  }

  lemma TrimPrefixed(b: string)
    requires AllDigits(b, Hex)
    ensures Trim("0x" + b) == "0x" + b
  {
    var y := "0x" + b;
    assert !IsSpace(y[|y| - 1]) by {
      assert |b| > 0 ==> y[|y| - 1] == b[|b| - 1];
    }
  }

  lemma NormalFormIsFixed(b: string)
    requires AllDigits(b, Hex)
    ensures NormalizeData(Some("0x" + ToLower(b))) == Some("0x" + ToLower(b))
  {
    var low := ToLower(b);
    assert AllDigits(low, Hex) && ToLower(low) == low;
    TrimPrefixed(low);
    hide Trim, ToLower, AllDigits;
    var y := "0x" + low;
    assert y[..2] == "0x" && y[2..] == low;
    if low == "" {
      assert y == "0x";
    }
  }

  lemma NormalFormShape(data: Option<string>) returns (b: string)
    requires NormalizeData(data).Some?
    ensures AllDigits(b, Hex) && NormalizeData(data).value == "0x" + ToLower(b)
  {
    hide Trim, DigitValue;
    b := "";
    if data.Some? && data.value != "" && data.value != "0x" && data.value != "0X" && |Trim(data.value)| > 0 {
      b := if StartsWith(Trim(data.value), "0x") then Trim(data.value)[2..] else Trim(data.value);
    }
  }

  /** Normalising again changes nothing, so the repeated normalisation during validation
      leaves the data, and with it the hash that was computed before, as it was. */
  lemma NormalizeIdempotent(data: Option<string>)
    requires NormalizeData(data).Some?
    ensures NormalizeData(NormalizeData(data)) == NormalizeData(data)
  {
    hide NormalizeData, ToLower, AllDigits;
    var b := NormalFormShape(data);
    NormalFormIsFixed(b);
  }

  // ---------- Requests ----------

  datatype Request = Request(
    from: Address, to: Option<Address>, value: int, nonce: int, signature: Signature,
    gasPrice: Option<int>, gasLimit: Option<int>, data: Option<string>)

  function OrElse(o: Option<int>, default: int): int {
    if o.Some? then o.value else default
  }

  function BuildTx(c: Crypto, r: Request): Option<Tx> {
    match NormalizeData(r.data)
    case None => None
    case Some(data) =>
      var p := Payload(r.nonce, OrElse(r.gasPrice, DEFAULT_GAS_PRICE), OrElse(r.gasLimit, DEFAULT_GAS_LIMIT),
                       r.to, r.value, data);
      Some(Tx(r.from, p, r.signature, c.txHash(p, r.signature)))
  }

  datatype Rejection =
    | InvalidData | InvalidSignature | NonceTooOld | DuplicateNonce | InvalidGas | InsufficientBalance | AlreadyInPool

  predicate NonceTaken(p: Pool, tx: Tx) {
    || (exists h | h in p.pending :: SameSlot(p.pending[h], tx))
    || (exists h | h in p.queued :: SameSlot(p.queued[h], tx))
  }

  /** The first check that fails, in the order in which they are made. */
  function Validate(c: Crypto, l: Ledger, p: Pool, tx: Tx): Option<Rejection> {
    if c.recover(tx.payload, tx.signature) != tx.from then Some(InvalidSignature)
    else if tx.Nonce() < NonceOf(l, tx.from) then Some(NonceTooOld)
    else if NonceTaken(p, tx) then Some(DuplicateNonce)
    else if tx.payload.gasPrice <= 0 || tx.payload.gasLimit <= 0 then Some(InvalidGas)
    else if BalanceOf(l, tx.from) < tx.payload.value + tx.payload.gasPrice * tx.payload.gasLimit then
      Some(InsufficientBalance)
    else None
  }

  datatype Response = Accepted(tx: Tx) | Refused(reason: Rejection)

  function Submit(c: Crypto, l: Ledger, p: Pool, r: Request): (Pool, Response) {
    match BuildTx(c, r)
    case None => (p, Refused(InvalidData))
    case Some(tx) =>
      match Validate(c, l, p, tx)
      case Some(reason) => (p, Refused(reason))
      case None =>
        var (p', added) := Add(p, tx, NonceOf(l, tx.from));
        (p', if added then Accepted(tx) else Refused(AlreadyInPool))
  }

  // ---------- What the checks guarantee ----------

  /** Hashed and signed as the node does it. */
  ghost predicate Genuine(c: Crypto, tx: Tx) {
    && tx.hash == c.txHash(tx.payload, tx.signature)
    && tx.from == c.recover(tx.payload, tx.signature)
  }

  /** Genuine transactions with equal hashes are equal: the sender, who is not hashed, is
      recovered from what is. */
  lemma GenuineHash(c: Crypto, t: Tx, u: Tx)
    requires c.Valid() && Genuine(c, t) && Genuine(c, u)
    ensures t.hash == u.hash <==> t == u
  {
  }

  lemma NonceTakenIff(p: Pool, tx: Tx)
    requires p.Valid()
    ensures NonceTaken(p, tx) <==> !NonceFree(p, tx)
  {
    if NonceTaken(p, tx) {
      if h :| h in p.pending && SameSlot(p.pending[h], tx) {
        assert p.Contains(p.pending[h]);
      } else {
        var h :| h in p.queued && SameSlot(p.queued[h], tx);
        assert p.Contains(p.queued[h]);
      }
    }
  }

  /** What a submission does to a pool of genuine transactions that keeps the invariant: the
      invariant stays, an accepted transaction is in the pool and was not there before, nothing
      else enters or leaves, and the pool itself never refuses what validation let through. */
  lemma SubmitKeepsInv(c: Crypto, l: Ledger, p: Pool, r: Request)
    requires c.Valid() && PoolInv(p, l) && (forall t | p.Contains(t) :: Genuine(c, t))
    ensures
      var (p', response) := Submit(c, l, p, r);
      && PoolInv(p', l)
      && (response.Refused? ==> p' == p && response.reason != AlreadyInPool)
      && (response.Accepted? ==>
        && Genuine(c, response.tx) && !p.Contains(response.tx)
        && NonceOf(l, r.from) <= response.tx.Nonce() == r.nonce && response.tx.from == r.from
        && (forall t :: p'.Contains(t) <==> p.Contains(t) || t == response.tx))
  {
    match BuildTx(c, r)
    case None =>
    case Some(tx) =>
      if Validate(c, l, p, tx).None? {
        NonceTakenIff(p, tx);
        AddKeepsInv(p, l, tx);
        if tx.hash in p.pending {
          assert p.Contains(p.pending[tx.hash]);
          GenuineHash(c, tx, p.pending[tx.hash]);
        }
        if tx.hash in p.queued {
          assert p.Contains(p.queued[tx.hash]);
          GenuineHash(c, tx, p.queued[tx.hash]);
        }
      }
  }

  /** What an accepted request becomes: what it asks for, with 1 Gwei and 21000 gas where it leaves them
      out, signed as it was, under the hash of that. */
  lemma AcceptedFields(c: Crypto, l: Ledger, p: Pool, r: Request)
    requires Submit(c, l, p, r).1.Accepted?
    ensures
      var tx := Submit(c, l, p, r).1.tx;
      && tx.from == r.from && tx.signature == r.signature && tx.hash == c.txHash(tx.payload, r.signature)
      && tx.payload.nonce == r.nonce && tx.payload.to == r.to && tx.payload.value == r.value
      && tx.payload.gasPrice == (if r.gasPrice.Some? then r.gasPrice.value else 1_000_000_000)
      && tx.payload.gasLimit == (if r.gasLimit.Some? then r.gasLimit.value else 21000)
      && NormalizeData(r.data) == Some(tx.payload.data)
  {
    hide Validate, Add, NormalizeData;
  }

  /** Why a request is refused: for the first reason that applies. */
  lemma RefusedIff(c: Crypto, l: Ledger, p: Pool, r: Request)
    requires c.Valid() && PoolInv(p, l) && (forall t | p.Contains(t) :: Genuine(c, t))
    ensures
      var response := Submit(c, l, p, r).1;
      var price, limit := OrElse(r.gasPrice, 1_000_000_000), OrElse(r.gasLimit, 21000);
      var data := NormalizeData(r.data);
      if data.None? then response == Refused(InvalidData)
      else if c.recover(Payload(r.nonce, price, limit, r.to, r.value, data.value), r.signature) != r.from then
        response == Refused(InvalidSignature)
      else if r.nonce < NonceOf(l, r.from) then response == Refused(NonceTooOld)
      else if HasNonce(p, r.from, r.nonce) then response == Refused(DuplicateNonce)
      else if price <= 0 || limit <= 0 then response == Refused(InvalidGas)
      else if BalanceOf(l, r.from) < r.value + price * limit then response == Refused(InsufficientBalance)
      else response.Accepted?
  {
    AcceptedIff(c, l, p, r);
    PoolIsValid(p, l);
    if NormalizeData(r.data).Some? {
      var tx := BuildTx(c, r).value;
      NonceTakenIff(p, tx);
      assert HasNonce(p, r.from, r.nonce) <==> !NonceFree(p, tx);
    }
    hide PoolInv, NormalizeData, NonceTaken, Add;
  }

  /** Everything that a request must satisfy to enter the pool, and nothing else is asked of it. */
  lemma AcceptedIff(c: Crypto, l: Ledger, p: Pool, r: Request)
    requires c.Valid() && PoolInv(p, l) && (forall t | p.Contains(t) :: Genuine(c, t))
    ensures Submit(c, l, p, r).1.Accepted? <==>
      var data := NormalizeData(r.data);
      var price, limit := OrElse(r.gasPrice, DEFAULT_GAS_PRICE), OrElse(r.gasLimit, DEFAULT_GAS_LIMIT);
      && data.Some?
      && r.from == c.recover(Payload(r.nonce, price, limit, r.to, r.value, data.value), r.signature)
      && r.nonce >= NonceOf(l, r.from)
      && !HasNonce(p, r.from, r.nonce)
      && price > 0 && limit > 0
      && BalanceOf(l, r.from) >= r.value + price * limit
  {
    SubmitKeepsInv(c, l, p, r);
    hide PoolInv, NormalizeData;
    if NormalizeData(r.data).Some? {
      var tx := BuildTx(c, r).value;
      NonceTakenIff(p, tx) by {
        assert p.Valid() by { PoolIsValid(p, l); }
      }
      assert HasNonce(p, r.from, r.nonce) <==> !NonceFree(p, tx);
    }
  }

  lemma PoolIsValid(p: Pool, l: Ledger)
    requires PoolInv(p, l)
    ensures p.Valid()
  {
  }

  /** An accepted transaction of a non-negative amount that offers gas worth the fee is charged
      if it is executed on the balances it was accepted on. */
  lemma AcceptedIsCharged(c: Crypto, l: Ledger, p: Pool, r: Request)
    requires Submit(c, l, p, r).1.Accepted? && r.value >= 0
    requires OrElse(r.gasPrice, DEFAULT_GAS_PRICE) * OrElse(r.gasLimit, DEFAULT_GAS_LIMIT) >= TRANSFER_GAS
    ensures ApplyTx(l, Submit(c, l, p, r).1.tx).1 != Unpaid
  {
    hide NormalizeData, Add, NonceTaken;
    ApplyTxMeaning(l, Submit(c, l, p, r).1.tx);
    hide ApplyTx, CanTransfer;
  }

  /** One that offers less need not be: the sender of this one can pay for its gas at its own price,
      but not the flat fee, and it transfers nothing. */
  lemma AcceptedCanBeUnpaid(c: Crypto, signature: Signature)
    requires c.Valid() && c.recover(Payload(0, 1, 1, Some("0xbb"), 0, "0x"), signature) == "0xaa"
    ensures
      var l := map["0xaa" := Account(1, 0, NoCode)];
      var r := Request("0xaa", Some("0xbb"), 0, 0, signature, Some(1), Some(1), None);
      var response := Submit(c, l, EMPTY_POOL, r).1;
      response.Accepted? && ApplyTx(l, response.tx).1 == Unpaid
  {
    var l := map["0xaa" := Account(1, 0, NoCode)];
    var r := Request("0xaa", Some("0xbb"), 0, 0, signature, Some(1), Some(1), None);
    AcceptedIff(c, l, EMPTY_POOL, r);
    assert Submit(c, l, EMPTY_POOL, r).1.Accepted?;
    ApplyTxMeaning(l, Submit(c, l, EMPTY_POOL, r).1.tx);
    hide ApplyTx;
  }

  // ---------- The nonce that the signing helper chooses ----------

  /** The largest nonce the pool holds for a sender, or -1. */
  function MaxNonce(txs: seq<Tx>, from: Address): int {
    if |txs| == 0 then -1
    else
      var m := MaxNonce(txs[..|txs| - 1], from);
      var tx := txs[|txs| - 1];
      if tx.from == from && tx.Nonce() > m then tx.Nonce() else m
  }

  /** txs lists the pool's transactions, pending first. */
  function NextNonce(txs: seq<Tx>, accountNonce: nat, from: Address): int {
    var m := MaxNonce(txs, from);
    if m == -1 then accountNonce else m + 1
  }

  lemma {:induction false} MaxNonceBounds(txs: seq<Tx>, from: Address)
    ensures forall t | t in txs && t.from == from :: t.Nonce() <= MaxNonce(txs, from)
    ensures MaxNonce(txs, from) >= -1
    ensures MaxNonce(txs, from) != -1 ==> exists t :: t in txs && t.from == from && t.Nonce() == MaxNonce(txs, from)
  {
    if |txs| > 0 {
      var init, last := txs[..|txs| - 1], txs[|txs| - 1];
      MaxNonceBounds(init, from);
      assert txs == init + [last];
    }
  }

  ghost predicate HasNonce(p: Pool, from: Address, n: int) {
    exists t :: p.Contains(t) && t.from == from && t.Nonce() == n
  }

  /** The sender's pooled nonces are k, k+1, ..., k+m-1. */
  ghost predicate PooledRun(p: Pool, from: Address, k: int, m: nat) {
    forall n :: HasNonce(p, from, n) <==> k <= n < k + m
  }

  /** The chosen nonce is one that nonce validation accepts, and it extends a gapless run of
      pooled nonces that starts at the account nonce. */
  lemma NextNonceExtendsRun(p: Pool, l: Ledger, txs: seq<Tx>, from: Address)
    requires PoolInv(p, l) && forall t :: t in txs <==> p.Contains(t)
    ensures
      var n := NextNonce(txs, NonceOf(l, from), from);
      && n >= NonceOf(l, from)
      && (forall t | p.Contains(t) && t.from == from :: t.Nonce() != n)
      && (forall m: nat | PooledRun(p, from, NonceOf(l, from), m) :: n == NonceOf(l, from) + m)
  {
    var k := NonceOf(l, from);
    var top := MaxNonce(txs, from);
    MaxNonceBounds(txs, from);
    forall m: nat | PooledRun(p, from, k, m) ensures NextNonce(txs, k, from) == k + m {
      assert forall t | t in txs && t.from == from :: HasNonce(p, from, t.Nonce());
      if m > 0 {
        var last := k + m - 1;
        assert HasNonce(p, from, last);
        var t :| p.Contains(t) && t.from == from && t.Nonce() == last;
        assert t in txs;
      }
    }
  }
}
