/** The arithmetic of the account service on plain maps from address to account: what each
    operation does to the whole ledger, on success and on failure, and to the money supply. */
module LedgerOps {
  import opened Types

  /** What a failed transaction is charged: 21000 wei, not 21000 times the gas price. */
  const TRANSFER_GAS := 21000

  /** An account operation either completes or throws. A throw can still leave an account
      behind, because the account is created before its balance is checked. */
  datatype Attempt = Done(ledger: Ledger) | Failed(ledger: Ledger)

  function AccountOf(l: Ledger, a: Address): Account {
    if a in l then l[a] else NEW_ACCOUNT
  }

  function BalanceOf(l: Ledger, a: Address): int {
    AccountOf(l, a).balance
  }

  function NonceOf(l: Ledger, a: Address): nat {
    AccountOf(l, a).nonce
  }

  function Touch(l: Ledger, a: Address): Ledger {
    l[a := AccountOf(l, a)]
  }

  function AddBalance(l: Ledger, a: Address, amount: int): Attempt {
    if amount <= 0 then Failed(Touch(l, a))
    else Done(l[a := AccountOf(l, a).(balance := BalanceOf(l, a) + amount)])
  }

  function SubtractBalance(l: Ledger, a: Address, amount: int): Attempt {
    if amount <= 0 || BalanceOf(l, a) < amount then Failed(Touch(l, a))
    else Done(l[a := AccountOf(l, a).(balance := BalanceOf(l, a) - amount)])
  }

  function IncrementNonce(l: Ledger, a: Address): Ledger {
    l[a := AccountOf(l, a).(nonce := NonceOf(l, a) + 1)]
  }

  function Transfer(l: Ledger, from: Address, to: Address, amount: int): Attempt {
    if amount <= 0 || from == to then Failed(l)
    else match SubtractBalance(l, from, amount)
      case Failed(l1) => Failed(l1)
      case Done(l1) => AddBalance(l1, to, amount)
  }

  // ---------- One transaction of a block, without the virtual machine ----------

  datatype Outcome = Succeeded | FeeTaken | Unpaid

  /** A missing or empty recipient is a contract deployment. */
  predicate IsDeployment(tx: Tx) {
    tx.payload.to.None? || tx.payload.to.value == ""
  }

  function Execute(l: Ledger, tx: Tx): Attempt {
    if IsDeployment(tx) then Failed(l)
    else match Transfer(l, tx.from, tx.payload.to.value, tx.payload.value)
      case Failed(l1) => Failed(l1)
      case Done(l1) => Done(IncrementNonce(l1, tx.from))
  }

  /** Execution with the fee fallback: a transaction that throws pays the fee if it can. */
  function ApplyTx(l: Ledger, tx: Tx): (Ledger, Outcome) {
    match Execute(l, tx)
    case Done(l1) => (l1, Succeeded)
    case Failed(l1) =>
      match SubtractBalance(l1, tx.from, TRANSFER_GAS)
      case Done(l2) => (IncrementNonce(l2, tx.from), FeeTaken)
      case Failed(l2) => (l2, Unpaid)
  }

  // ---------- What one transaction means ----------

  /** The transfer that a transaction asks for can be made. */
  predicate CanTransfer(l: Ledger, tx: Tx) {
    && !IsDeployment(tx)
    && tx.payload.value > 0
    && tx.from != tx.payload.to.value
    && BalanceOf(l, tx.from) >= tx.payload.value
  }

  /** The balance every address must have afterwards, given the outcome. */
  function BalanceAfter(l: Ledger, tx: Tx, o: Outcome, x: Address): int {
    BalanceOf(l, x) + match o
      case Succeeded =>
        if x == tx.from then -tx.payload.value
        else if tx.payload.to == Some(x) then tx.payload.value else 0
      case FeeTaken => if x == tx.from then -TRANSFER_GAS else 0
      case Unpaid => 0
  }

  /** A transaction is all-or-nothing before the fee: its outcome is decided by the sender's
      balance alone, every balance moves by exactly what that outcome says, and only the
      sender's nonce moves, by one, unless nothing could be charged. */
  lemma ApplyTxMeaning(l: Ledger, tx: Tx)
    ensures
      var (l', o) := ApplyTx(l, tx);
      && (o == Succeeded <==> CanTransfer(l, tx))
      && (o == Unpaid <==> !CanTransfer(l, tx) && BalanceOf(l, tx.from) < TRANSFER_GAS)
      && (forall x :: BalanceOf(l', x) == BalanceAfter(l, tx, o, x))
      && (forall x :: NonceOf(l', x) == NonceOf(l, x) + if x == tx.from && o != Unpaid then 1 else 0)
      && l.Keys <= l'.Keys
  {
  }

  /** The sender has an account afterwards, and so has the recipient of a transfer that was made; no
      other account is new, and no code changes. */
  lemma ApplyTxAccounts(l: Ledger, tx: Tx)
    ensures
      var l' := ApplyTx(l, tx).0;
      && l'.Keys == l.Keys + {tx.from} + (if CanTransfer(l, tx) then {tx.payload.to.value} else {})
      && (forall x :: AccountOf(l', x).code == AccountOf(l, x).code)
  {
  }

  // ---------- The money supply ----------

  /** The sum of all balances. */
  ghost function Total(l: Ledger): int {
    if l == map[] then 0 else
      var a :| a in l;
      l[a].balance + Total(l - {a})
  }

  ghost predicate Solvent(l: Ledger) {
    forall a :: BalanceOf(l, a) >= 0
  }

  lemma {:induction false} TotalRemove(l: Ledger, a: Address)
    requires a in l
    ensures Total(l) == l[a].balance + Total(l - {a})
    decreases |l|
  {
    var b :| b in l && Total(l) == l[b].balance + Total(l - {b});
    if b != a {
      TotalRemove(l - {b}, a);
      TotalRemove(l - {a}, b);
      assert l - {b} - {a} == l - {a} - {b};
    }
  }

  /** Replacing one account changes the sum by the difference of the two balances. */
  lemma TotalUpdate(l: Ledger, a: Address, v: Account)
    ensures Total(l[a := v]) == Total(l) - BalanceOf(l, a) + v.balance
  {
    TotalRemove(l[a := v], a);
    assert l[a := v] - {a} == l - {a};
    if a in l {
      TotalRemove(l, a);
    } else {
      assert l - {a} == l;
    }
  }

  lemma AttemptConserves(l: Ledger, a: Address, amount: int)
    ensures Total(Touch(l, a)) == Total(l)
    ensures Total(IncrementNonce(l, a)) == Total(l)
    ensures Total(AddBalance(l, a, amount).ledger) == Total(l) + if amount <= 0 then 0 else amount
    ensures
      var r := SubtractBalance(l, a, amount);
      Total(r.ledger) == Total(l) - if r.Done? then amount else 0
  {
    var v := AccountOf(l, a);
    TotalUpdate(l, a, v);
    TotalUpdate(l, a, v.(nonce := v.nonce + 1));
    TotalUpdate(l, a, v.(balance := v.balance + amount));
    TotalUpdate(l, a, v.(balance := v.balance - amount));
  }

  lemma ExecuteConserves(l: Ledger, tx: Tx)
    ensures Total(Execute(l, tx).ledger) == Total(l)
  {
    if CanTransfer(l, tx) {
      var value := tx.payload.value;
      AttemptConserves(l, tx.from, value);
      var paid := SubtractBalance(l, tx.from, value).ledger;
      AttemptConserves(paid, tx.payload.to.value, value);
      var moved := AddBalance(paid, tx.payload.to.value, value).ledger;
      AttemptConserves(moved, tx.from, value);
    } else {
      AttemptConserves(l, tx.from, tx.payload.value);
    }
  }

  /** Money is neither made nor lost by a transaction, except that a charged failure burns
      exactly the fee; and no balance becomes negative. */
  lemma ApplyTxConserves(l: Ledger, tx: Tx)
    ensures
      var (l', o) := ApplyTx(l, tx);
      && Total(l') == Total(l) - (if o == FeeTaken then TRANSFER_GAS else 0)
      && (Solvent(l) ==> Solvent(l'))
  {
    var l1 := Execute(l, tx).ledger;
    var l2 := SubtractBalance(l1, tx.from, TRANSFER_GAS).ledger;
    assert Total(ApplyTx(l, tx).0) == Total(l) - (if ApplyTx(l, tx).1 == FeeTaken then TRANSFER_GAS else 0) by {
      ExecuteConserves(l, tx);
      AttemptConserves(l1, tx.from, TRANSFER_GAS);
      AttemptConserves(l2, tx.from, TRANSFER_GAS);
    }
    ApplyTxMeaning(l, tx);
  }

  // ---------- A list of transactions, in order ----------

  function ApplyAll(l: Ledger, txs: seq<Tx>): (r: (Ledger, seq<Outcome>))
    ensures |r.1| == |txs|
  {
    if |txs| == 0 then (l, [])
    else
      var (l1, os) := ApplyAll(l, txs[..|txs| - 1]);
      var (l2, o) := ApplyTx(l1, txs[|txs| - 1]);
      (l2, os + [o])
  }

  function CountFees(os: seq<Outcome>): nat {
    if |os| == 0 then 0
    else CountFees(os[..|os| - 1]) + if os[|os| - 1] == FeeTaken then 1 else 0
  }

  /** After the execution loop the sum of all balances is what it was, less one fee for each
      failed transaction whose fee could be taken. */
  lemma {:induction false} ApplyAllConserves(l: Ledger, txs: seq<Tx>)
    ensures
      var (l', os) := ApplyAll(l, txs);
      && Total(l') == Total(l) - TRANSFER_GAS * CountFees(os)
      && (Solvent(l) ==> Solvent(l'))
      && l.Keys <= l'.Keys
  {
    if |txs| > 0 {
      var init := txs[..|txs| - 1];
      ApplyAllConserves(l, init);
      var (l1, os) := ApplyAll(l, init);
      ApplyTxConserves(l1, txs[|txs| - 1]);
      ApplyTxMeaning(l1, txs[|txs| - 1]);
      var (l2, o) := ApplyTx(l1, txs[|txs| - 1]);
      assert (os + [o])[..|os|] == os;
    }
  }
}
