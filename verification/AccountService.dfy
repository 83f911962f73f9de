/** The account entity and the service that reads it through the state manager and writes it
    back: each operation does to the whole view what it does in the ledger arithmetic. Accounts
    are held as values here; SharedAccounts says what sharing the objects changes. */
module AccountServices {
  import opened Types
  import opened LedgerOps
  import opened Journal
  import opened AccountCache
  import opened StateStore
  import opened StateManagers

  /** An account object; it is made afresh from the stored value for each operation. */
  class AccountEntity {
    var balance: int
    var nonce: nat
    var code: Code

    function Value(): Account
      reads this
    {
      Account(balance, nonce, code)
    }

    constructor (v: Account)
      ensures Value() == v
    {
      balance, nonce, code := v.balance, v.nonce, v.code;
    }

    method AddBalance(amount: int) returns (thrown: bool)
      modifies this`balance
      ensures thrown <==> amount <= 0
      ensures balance == if thrown then old(balance) else old(balance) + amount
    {
      if amount <= 0 {
        return true;
      }
      balance := balance + amount;
      return false;
    }

    method SubtractBalance(amount: int) returns (thrown: bool)
      modifies this`balance
      ensures thrown <==> amount <= 0 || old(balance) < amount
      ensures balance == if thrown then old(balance) else old(balance) - amount
      ensures old(balance) >= 0 ==> balance >= 0
    {
      if amount <= 0 {
        return true;
      }
      if balance < amount {
        return true;
      }
      balance := balance - amount;
      return false;
    }

    method IncrementNonce()
      modifies this`nonce
      ensures nonce == old(nonce) + 1
    {
      nonce := nonce + 1;
    }
  }

  /** No layer holds a negative balance, which could not be stored. */
  ghost predicate Sound(layers: seq<Layer>) {
    forall i, a | 0 <= i < |layers| && a in layers[i] && layers[i][a].Some? :: layers[i][a].value.balance >= 0
  }

  lemma {:induction false} MergedSound(layers: seq<Layer>)
    requires Sound(layers)
    ensures forall a | a in Merged(layers) && Merged(layers)[a].Some? :: Merged(layers)[a].value.balance >= 0
  {
    if |layers| > 0 {
      MergedSound(layers[..|layers| - 1]);
    }
  }

  lemma StepSound(s: State, op: Op)
    requires Sound(s.layers) && (op.Set? ==> op.account.balance >= 0)
    ensures Sound(Step(s, op).layers)
  {
    if op.CommitCheckpoint? && |s.layers| > 1 {
      var n := |s.layers|;
      var r: seq<Layer> := Step(s, op).layers;
      forall i, a | 0 <= i < |r| && a in r[i] && r[i][a].Some? ensures r[i][a].value.balance >= 0 {
        assert i < n - 2 ==> r[i] == s.layers[i];
        assert i == n - 2 ==> r[i][a] == if a in s.layers[n - 1] then s.layers[n - 1][a] else s.layers[n - 2][a];
      }
    }
  }

  /** Writing an account changes the view at that address only. */
  lemma ViewAfterSet(s: State, a: Address, v: Account)
    ensures View(Step(s, Set(a, v))) == View(s)[a := v]
  {
    SnapWrite(s, a, Some(v));
    SnapTop(s);
    SnapTop(Step(s, Set(a, v)));
  }

  lemma {:induction false} ViewSolvent(table: Ledger, layers: seq<Layer>)
    requires Sound(layers) && forall a | a in table :: table[a].balance >= 0
    ensures forall a | a in Overlay(table, layers) :: Overlay(table, layers)[a].balance >= 0
  {
    if |layers| > 0 {
      ViewSolvent(table, layers[..|layers| - 1]);
    }
  }

  /** Committing lays the view over the table, and leaves nothing above it. */
  lemma CommittedView(s: State)
    ensures Step(s, CommitBlock) == State([], s.table + View(s))
    ensures View(Step(s, CommitBlock)) == s.table + View(s)
  {
    FlushIsOverlay(s);
  }

  class AccountService {
    const stateManager: StateManager

    constructor (m: StateManager)
      ensures stateManager == m
    {
      stateManager := m;
    }

    ghost predicate Valid()
      reads this, stateManager, stateManager.repository
    {
      stateManager.Valid() && Sound(stateManager.journalStack)
    }

    /** The accounts as every caller reads them. */
    ghost function Accounts(): Ledger
      reads this, stateManager, stateManager.repository
    {
      View(stateManager.Now())
    }

    /** The committed accounts. */
    ghost function Committed(): Ledger
      reads this, stateManager, stateManager.repository
    {
      stateManager.repository.ledger
    }

    /** No account that a caller reads has a negative balance. */
    lemma NeverNegative()
      requires Valid()
      ensures forall a | a in Accounts() :: Accounts()[a].balance >= 0
    {
      hide AccountCache.Coherent, TableOf, TrieOf;
      ViewSolvent(stateManager.repository.ledger, stateManager.journalStack);
    }

    /** Journals an account, whose balance the entity keeps from being negative. */
    method Write(address: Address, v: Account)
      requires Valid() && v.balance >= 0
      modifies stateManager
      ensures Valid() && Committed() == old(Committed())
      ensures Accounts() == old(Accounts())[address := v]
    {
      hide StateRepository.Valid, Coherent, View, Journal.Step, Sound;
      ViewAfterSet(stateManager.Now(), address, v);
      StepSound(stateManager.Now(), Set(address, v));
      stateManager.SetAccount(address, v);
    }

    method GetOrCreateAccount(address: Address) returns (account: AccountEntity)
      requires Valid()
      modifies stateManager
      ensures Valid() && Committed() == old(Committed())
      ensures Accounts() == Touch(old(Accounts()), address)
      ensures fresh(account) && account.Value() == AccountOf(old(Accounts()), address)
      ensures account.balance >= 0
    {
      hide StateRepository.Valid, Coherent, View, Step;
      NeverNegative();
      var found := stateManager.GetAccount(address);
      if found.Some? {
        account := new AccountEntity(found.value);
        assert Touch(Accounts(), address) == Accounts();
      } else {
        account := new AccountEntity(NEW_ACCOUNT);
        Write(address, NEW_ACCOUNT);
      }
    }

    method GetNonce(address: Address) returns (nonce: nat)
      requires Valid()
      modifies stateManager
      ensures Valid() && Committed() == old(Committed()) && Accounts() == old(Accounts())
      ensures nonce == NonceOf(Accounts(), address)
    {
      hide StateRepository.Valid, Coherent, View;
      var found := stateManager.GetAccount(address);
      return if found.Some? then found.value.nonce else 0;
    }

    method GetBalance(address: Address) returns (balance: int)
      requires Valid()
      modifies stateManager
      ensures Valid() && Committed() == old(Committed()) && Accounts() == old(Accounts())
      ensures balance == BalanceOf(Accounts(), address)
    {
      hide StateRepository.Valid, Coherent, View;
      var found := stateManager.GetAccount(address);
      return if found.Some? then found.value.balance else 0;
    }

    method AddBalance(address: Address, amount: int) returns (thrown: bool)
      requires Valid()
      modifies stateManager
      ensures Valid() && Committed() == old(Committed())
      ensures LedgerOps.AddBalance(old(Accounts()), address, amount)
        == if thrown then Failed(Accounts()) else Done(Accounts())
    {
      hide StateRepository.Valid, Coherent, View, Step;
      var account := GetOrCreateAccount(address);
      thrown := account.AddBalance(amount);
      if !thrown {
        Write(address, account.Value());
      }
    }

    method SubtractBalance(address: Address, amount: int) returns (thrown: bool)
      requires Valid()
      modifies stateManager
      ensures Valid() && Committed() == old(Committed())
      ensures LedgerOps.SubtractBalance(old(Accounts()), address, amount)
        == if thrown then Failed(Accounts()) else Done(Accounts())
    {
      hide StateRepository.Valid, Coherent, View, Step;
      var account := GetOrCreateAccount(address);
      thrown := account.SubtractBalance(amount);
      if !thrown {
        Write(address, account.Value());
      }
    }

    method IncrementNonce(address: Address)
      requires Valid()
      modifies stateManager
      ensures Valid() && Committed() == old(Committed())
      ensures Accounts() == LedgerOps.IncrementNonce(old(Accounts()), address)
    {
      hide StateRepository.Valid, Coherent, View, Step;
      var account := GetOrCreateAccount(address);
      account.IncrementNonce();
      Write(address, account.Value());
    }

    method Transfer(from: Address, to: Address, amount: int) returns (thrown: bool)
      requires Valid()
      modifies stateManager
      ensures Valid() && Committed() == old(Committed())
      ensures LedgerOps.Transfer(old(Accounts()), from, to, amount)
        == if thrown then Failed(Accounts()) else Done(Accounts())
    {
      if amount <= 0 {
        return true;
      }
      if from == to {
        return true;
      }
      thrown := SubtractBalance(from, amount);
      if !thrown {
        thrown := AddBalance(to, amount);
      }
    }
  }
}
