/** The reward of a justified block. */
module Rewards {
  import opened Types
  import opened LedgerOps

  const WEI_PER_DSTN := 1_000_000_000_000_000_000
  const PROPOSER_REWARD := 2
  const COMMITTEE_REWARD_POOL := 1

  /** Adds the same amount to each address in turn. */
  function CreditEach(l: Ledger, addresses: seq<Address>, amount: int): Attempt {
    if |addresses| == 0 then Done(l)
    else match CreditEach(l, addresses[..|addresses| - 1], amount)
      case Failed(l1) => Failed(l1)
      case Done(l1) => AddBalance(l1, addresses[|addresses| - 1], amount)
  }

  function Distribute(l: Ledger, proposer: Address, attesters: seq<Address>): Attempt {
    match AddBalance(l, proposer, PROPOSER_REWARD * WEI_PER_DSTN)
    case Failed(l1) => Failed(l1)
    case Done(l1) =>
      if |attesters| == 0 then Done(l1)
      else CreditEach(l1, attesters, COMMITTEE_REWARD_POOL * WEI_PER_DSTN / |attesters|)
  }

  lemma OneMoreShare(n: nat, amount: int)
    ensures (n + 1) * amount == n * amount + amount
  {
  }

  lemma {:induction false} CreditEachTotal(l: Ledger, addresses: seq<Address>, amount: int)
    ensures CreditEach(l, addresses, amount).Done? <==> amount > 0 || |addresses| == 0
    ensures CreditEach(l, addresses, amount).Done? ==>
      Total(CreditEach(l, addresses, amount).ledger) == Total(l) + |addresses| * amount
  {
    hide Total;
    if |addresses| > 0 {
      var init := addresses[..|addresses| - 1];
      CreditEachTotal(l, init, amount);
      AttemptConserves(CreditEach(l, init, amount).ledger, addresses[|addresses| - 1], amount);
      OneMoreShare(|init|, amount);
    }
  }

  /** The distribution completes exactly when there are at most 10^18 attesters; it then makes
      2 DSTN for the proposer and an equal share of 1 DSTN for each attester, and rounding
      loses less wei than there are attesters, whoever the attesters are. */
  lemma DistributeTotal(l: Ledger, proposer: Address, attesters: seq<Address>)
    ensures
      var n, r := |attesters|, Distribute(l, proposer, attesters);
      && (r.Done? <==> n <= WEI_PER_DSTN)
      && (n == 0 ==> Total(r.ledger) == Total(l) + 2 * WEI_PER_DSTN)
      && (0 < n <= WEI_PER_DSTN ==>
        && Total(r.ledger) == Total(l) + 2 * WEI_PER_DSTN + n * (WEI_PER_DSTN / n)
        && 0 <= Total(l) + 3 * WEI_PER_DSTN - Total(r.ledger) < n)
  {
    AttemptConserves(l, proposer, PROPOSER_REWARD * WEI_PER_DSTN);
    var l1 := AddBalance(l, proposer, PROPOSER_REWARD * WEI_PER_DSTN).ledger;
    var n := |attesters|;
    if n > 0 {
      var share := WEI_PER_DSTN / n;
      Quotient(WEI_PER_DSTN, n);
      CreditEachTotal(l1, attesters, share);
    }
  }

  lemma Quotient(x: nat, n: nat)
    requires n > 0
    ensures 0 <= x - n * (x / n) < n
    ensures x / n > 0 <==> n <= x
  {
    assert x == n * (x / n) + x % n;
    if x / n == 0 {
      assert x == x % n;
    } else {
      assert n * (x / n) >= n by {
        assert n * (x / n - 1) >= 0;
      }
    }
  }

  // ---------- Who is paid ----------

  lemma AddPays(l: Ledger, a: Address, amount: int, x: Address)
    ensures amount > 0 ==>
      BalanceOf(AddBalance(l, a, amount).ledger, x) == BalanceOf(l, x) + if x == a then amount else 0
  {
  }

  /** Every address is credited as often as it is listed. */
  lemma {:induction false} CreditEachPays(l: Ledger, addresses: seq<Address>, amount: int, x: Address)
    requires amount > 0
    ensures BalanceOf(CreditEach(l, addresses, amount).ledger, x) == BalanceOf(l, x) + multiset(addresses)[x] * amount
  {
    if |addresses| > 0 {
      var init, last := addresses[..|addresses| - 1], addresses[|addresses| - 1];
      CreditEachTotal(l, init, amount);
      CreditEachPays(l, init, amount, x);
      AddPays(CreditEach(l, init, amount).ledger, last, amount, x);
      assert addresses == init + [last];
      OneMoreShare(multiset(init)[x], amount);
      hide AddBalance, BalanceOf, Total;
    }
  }

  /** What an address gets: 2 DSTN as the proposer, and for each of its attestations an equal share of
      1 DSTN, rounded down to the wei. */
  function Paid(proposer: Address, attesters: seq<Address>, x: Address): nat {
    (if x == proposer then 2_000_000_000_000_000_000 else 0)
    + if |attesters| == 0 then 0 else multiset(attesters)[x] * (1_000_000_000_000_000_000 / |attesters|)
  }

  /** Everybody gets just that, if there are at most 10^18 attesters. */
  lemma DistributePays(l: Ledger, proposer: Address, attesters: seq<Address>, x: Address)
    requires |attesters| <= 1_000_000_000_000_000_000
    ensures BalanceOf(Distribute(l, proposer, attesters).ledger, x) == BalanceOf(l, x) + Paid(proposer, attesters, x)
  {
    AddPays(l, proposer, PROPOSER_REWARD * WEI_PER_DSTN, x);
    var l1 := AddBalance(l, proposer, PROPOSER_REWARD * WEI_PER_DSTN).ledger;
    if |attesters| > 0 {
      Quotient(WEI_PER_DSTN, |attesters|);
      CreditEachPays(l1, attesters, WEI_PER_DSTN / |attesters|, x);
    }
  }

  lemma AddKeeps(l: Ledger, a: Address, amount: int)
    ensures forall x :: NonceOf(AddBalance(l, a, amount).ledger, x) == NonceOf(l, x)
    ensures Solvent(l) ==> Solvent(AddBalance(l, a, amount).ledger)
  {
    assert forall x :: BalanceOf(AddBalance(l, a, amount).ledger, x) >= BalanceOf(l, x);
  }

  /** Rewards only raise balances: no nonce moves, and no balance becomes negative. */
  lemma {:induction false} CreditEachNonces(l: Ledger, addresses: seq<Address>, amount: int)
    ensures forall a :: NonceOf(CreditEach(l, addresses, amount).ledger, a) == NonceOf(l, a)
    ensures Solvent(l) ==> Solvent(CreditEach(l, addresses, amount).ledger)
  {
    if |addresses| > 0 {
      var init := addresses[..|addresses| - 1];
      CreditEachNonces(l, init, amount);
      AddKeeps(CreditEach(l, init, amount).ledger, addresses[|addresses| - 1], amount);
      hide AddBalance, Solvent;
    }
  }

  lemma DistributeNonces(l: Ledger, proposer: Address, attesters: seq<Address>)
    ensures forall a :: NonceOf(Distribute(l, proposer, attesters).ledger, a) == NonceOf(l, a)
    ensures Solvent(l) ==> Solvent(Distribute(l, proposer, attesters).ledger)
  {
    AddKeeps(l, proposer, PROPOSER_REWARD * WEI_PER_DSTN);
    var l1 := AddBalance(l, proposer, PROPOSER_REWARD * WEI_PER_DSTN).ledger;
    hide AddBalance, Solvent;
    if |attesters| > 0 {
      CreditEachNonces(l1, attesters, COMMITTEE_REWARD_POOL * WEI_PER_DSTN / |attesters|);
    }
  }
}
