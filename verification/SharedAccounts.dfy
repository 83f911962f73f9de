/** Accounts as shared objects: the journal and the cache hold references, an operation changes the
    object that it was handed, and emptying the journal does not change it back. What a reset then
    leaves to read is the open base and residue of the node machine. */
module SharedAccounts {
  import opened Types
  import opened LedgerOps
  import opened PendingOrder
  import opened Mempool
  import opened TxRequests
  import opened BlockExecution
  import opened NodeMachine
  import opened NodeInvariants

  /** An account object knows its address. */
  datatype Object = Object(address: Address, account: Account)

  /** journal stands for the layers of a block, which are one deep without a virtual machine; it
      and the cache refer to objects by their position in the heap. */
  datatype Shared = Shared(heap: seq<Object>, journal: map<Address, nat>, cache: map<Address, nat>, table: Ledger)

  ghost predicate Refers(heap: seq<Object>, a: Address, id: nat) {
    id < |heap| && heap[id].address == a
  }

  /** References are to objects of the right address, what is in both journal and cache is one
      object, and only stored accounts are cached. */
  ghost predicate Valid(s: Shared) {
    && (forall a | a in s.journal :: Refers(s.heap, a, s.journal[a]))
    && (forall a | a in s.cache :: Refers(s.heap, a, s.cache[a]) && a in s.table)
    && (forall a | a in s.journal && a in s.cache :: s.journal[a] == s.cache[a])
  }

  /** The reference that a lookup finds: the journal's, or else the cache's. */
  function Find(s: Shared, a: Address): Option<nat> {
    if a in s.journal then Some(s.journal[a]) else if a in s.cache then Some(s.cache[a]) else None
  }

  /** The account at an address, as it is read. */
  function Lookup(s: Shared, a: Address): Option<Account>
    requires Valid(s)
  {
    match Find(s, a)
    case Some(id) => Some(s.heap[id].account)
    case None => if a in s.table then Some(s.table[a]) else None
  }

  /** All accounts, as they are read. */
  function Seen(s: Shared): Ledger
    requires Valid(s)
  {
    map a | a in s.journal.Keys + s.cache.Keys + s.table.Keys :: Lookup(s, a).value
  }

  lemma SeenLookup(s: Shared, a: Address)
    requires Valid(s)
    ensures Lookup(s, a) == if a in Seen(s) then Some(Seen(s)[a]) else None
    ensures Seen(s).Keys == s.journal.Keys + s.cache.Keys + s.table.Keys
  {
  }

  lemma SeenIs(s: Shared, l: Ledger)
    requires Valid(s) && forall x :: Lookup(s, x) == if x in l then Some(l[x]) else None
    ensures Seen(s) == l
  {
    hide Lookup, Seen, Valid;
    forall x ensures x in Seen(s) <==> x in l
             ensures x in l ==> x in Seen(s) && Seen(s)[x] == l[x]
    {
      SeenLookup(s, x);
    }
  }

  // ---------- Operations ----------

  /** What the account service does to an address: look at it, create it if it is missing, or
      change its object to a value and journal it. A lookup that goes to the repository puts a new
      object into the cache, which may drop others. */
  datatype Use =
    | Look(address: Address, evicted: set<Address>)
    | Touch(address: Address, evicted: set<Address>)
    | Write(address: Address, account: Account, evicted: set<Address>)

  ghost function Fetch(s: Shared, a: Address, evicted: set<Address>): (t: Shared)
    requires Valid(s)
    ensures Valid(t)
  {
    if Find(s, a).Some? || a !in s.table then s
    else s.(heap := s.heap + [Object(a, s.table[a])], cache := (s.cache - evicted)[a := |s.heap|])
  }

  ghost function Created(s: Shared, a: Address): (t: Shared)
    requires Valid(s)
    ensures Valid(t) && Find(t, a).Some?
  {
    if Find(s, a).Some? then s
    else s.(heap := s.heap + [Object(a, NEW_ACCOUNT)], journal := s.journal[a := |s.heap|])
  }

  ghost function Changed(s: Shared, a: Address, v: Account): (t: Shared)
    requires Valid(s) && Find(s, a).Some?
    ensures Valid(t)
  {
    var id := Find(s, a).value;
    s.(heap := s.heap[id := Object(a, v)], journal := s.journal[a := id])
  }

  ghost function Step(s: Shared, u: Use): (t: Shared)
    requires Valid(s)
    ensures Valid(t)
  {
    match u
    case Look(a, evicted) => Fetch(s, a, evicted)
    case Touch(a, evicted) => Created(Fetch(s, a, evicted), a)
    case Write(a, v, evicted) => Changed(Created(Fetch(s, a, evicted), a), a, v)
  }

  ghost function Run(s: Shared, uses: seq<Use>): (t: Shared)
    requires Valid(s)
    ensures Valid(t)
  {
    if |uses| == 0 then s else Step(Run(s, uses[..|uses| - 1]), uses[|uses| - 1])
  }

  /** Starting a block and abandoning one both just empty the journal. */
  ghost function Reset(s: Shared): (t: Shared)
    requires Valid(s)
    ensures Valid(t)
  {
    s.(journal := map[])
  }

  /** A commit stores the journalled objects, and caches them, as far as they are not dropped. */
  ghost function Commit(s: Shared, evicted: set<Address>): (t: Shared)
    requires Valid(s)
    ensures Valid(t)
  {
    s.(table := s.table + (map a | a in s.journal :: s.heap[s.journal[a]].account), journal := map[],
       cache := (s.cache + s.journal) - evicted)
  }

  // ---------- Objects that are as good as values ----------

  /** What is only cached is what is stored: dropping it loses nothing. */
  ghost predicate CleanAt(s: Shared, a: Address)
    requires Valid(s)
  {
    a in s.cache && a !in s.journal ==> s.heap[s.cache[a]].account == s.table[a]
  }

  ghost predicate DropsClean(s: Shared, evicted: set<Address>)
    requires Valid(s)
  {
    forall a | a in evicted :: CleanAt(s, a)
  }

  ghost function After(l: Ledger, u: Use): Ledger {
    match u
    case Look(_, _) => l
    case Touch(a, _) => LedgerOps.Touch(l, a)
    case Write(a, v, _) => l[a := v]
  }

  ghost function AfterAll(l: Ledger, uses: seq<Use>): Ledger {
    if |uses| == 0 then l else After(AfterAll(l, uses[..|uses| - 1]), uses[|uses| - 1])
  }

  lemma FetchAt(s: Shared, a: Address, evicted: set<Address>, x: Address)
    requires Valid(s) && (x in evicted ==> CleanAt(s, x))
    ensures var t := Fetch(s, a, evicted); Lookup(t, x) == Lookup(s, x)
    ensures var t := Fetch(s, a, evicted); t.table == s.table && (Find(t, a).None? ==> a !in t.table)
  {
  }

  lemma CreatedAt(s: Shared, a: Address, x: Address)
    requires Valid(s) && (Find(s, a).None? ==> a !in s.table)
    ensures
      var t := Created(s, a);
      && t.table == s.table
      && Lookup(t, x) == if x == a && Lookup(s, a).None? then Some(NEW_ACCOUNT) else Lookup(s, x)
  {
  }

  lemma ChangedAt(s: Shared, a: Address, v: Account, x: Address)
    requires Valid(s) && Find(s, a).Some?
    ensures
      var t := Changed(s, a, v);
      t.table == s.table && Lookup(t, x) == if x == a then Some(v) else Lookup(s, x)
  {
  }

  lemma StepAt(s: Shared, u: Use, x: Address)
    requires Valid(s) && DropsClean(s, u.evicted)
    ensures
      var t := Step(s, u);
      t.table == s.table && Lookup(t, x) == if x in After(Seen(s), u) then Some(After(Seen(s), u)[x]) else None
  {
    SeenLookup(s, x);
    SeenLookup(s, u.address);
    hide Valid, CleanAt, Lookup, Seen, Fetch, Created, Changed, Find;
    var a := u.address;
    var t := Fetch(s, a, u.evicted);
    FetchAt(s, a, u.evicted, x);
    FetchAt(s, a, u.evicted, a);
    if !u.Look? {
      CreatedAt(t, a, x);
      if u.Write? {
        ChangedAt(Created(t, a), a, u.account, x);
      }
    }
  }

  /** An operation does to what is read what it does to values, unless the cache drops an object that
      shows a change which is neither journalled nor stored. */
  lemma StepSeen(s: Shared, u: Use)
    requires Valid(s) && DropsClean(s, u.evicted)
    ensures Step(s, u).table == s.table && Seen(Step(s, u)) == After(Seen(s), u)
  {
    hide Valid, CleanAt, Lookup, Seen, Step, After;
    var t, l := Step(s, u), After(Seen(s), u);
    forall x ensures Lookup(t, x) == if x in l then Some(l[x]) else None {
      StepAt(s, u, x);
    }
    StepAt(s, u, u.address);
    SeenIs(t, l);
  }

  /** Throughout the run the cache drops no such object. */
  ghost predicate AllDropClean(s: Shared, uses: seq<Use>)
    requires Valid(s)
  {
    forall i | 0 <= i < |uses| :: DropsClean(Run(s, uses[..i]), uses[i].evicted)
  }

  lemma {:induction false} RunSeen(s: Shared, uses: seq<Use>)
    requires Valid(s) && AllDropClean(s, uses)
    ensures Run(s, uses).table == s.table && Seen(Run(s, uses)) == AfterAll(Seen(s), uses)
  {
    hide Valid, DropsClean, Step, After, Seen;
    if |uses| > 0 {
      var init := uses[..|uses| - 1];
      forall i | 0 <= i < |init| ensures DropsClean(Run(s, init[..i]), init[i].evicted) {
        assert init[..i] == uses[..i];
      }
      RunSeen(s, init);
      StepSeen(Run(s, init), uses[|uses| - 1]);
    }
  }

  lemma CommitAt(s: Shared, evicted: set<Address>, x: Address)
    requires Valid(s) && (x in evicted ==> CleanAt(s, x))
    ensures Lookup(Commit(s, evicted), x) == Lookup(s, x)
  {
  }

  /** A commit changes nothing that is read, under the same condition. It stores what is journalled. */
  lemma CommitSeen(s: Shared, evicted: set<Address>)
    requires Valid(s) && DropsClean(s, evicted)
    ensures Seen(Commit(s, evicted)) == Seen(s)
    ensures forall a | a in s.journal ::
      a in Commit(s, evicted).table && Lookup(s, a) == Some(Commit(s, evicted).table[a])
    ensures forall a | a !in s.journal ::
      (a in Commit(s, evicted).table <==> a in s.table) && (a in s.table ==> Commit(s, evicted).table[a] == s.table[a])
  {
    CommittedTable(s, evicted);
    hide Valid, CleanAt, Lookup, Seen, Commit;
    forall x ensures Lookup(Commit(s, evicted), x) == if x in Seen(s) then Some(Seen(s)[x]) else None {
      CommitAt(s, evicted, x);
      SeenLookup(s, x);
    }
    SeenIs(Commit(s, evicted), Seen(s));
  }

  lemma CommittedTable(s: Shared, evicted: set<Address>)
    requires Valid(s)
    ensures forall a | a in s.journal ::
      a in Commit(s, evicted).table && Lookup(s, a) == Some(Commit(s, evicted).table[a])
    ensures forall a | a !in s.journal ::
      (a in Commit(s, evicted).table <==> a in s.table) && (a in s.table ==> Commit(s, evicted).table[a] == s.table[a])
  {
  }

  // ---------- The operations of a block ----------

  /** What the account service does for a credit, a debit or a raised nonce, on accounts that read l. */
  function CreditUses(l: Ledger, a: Address, amount: int): seq<Use> {
    [Touch(a, {})] + if amount <= 0 then [] else [Write(a, AccountOf(l, a).(balance := BalanceOf(l, a) + amount), {})]
  }

  function DebitUses(l: Ledger, a: Address, amount: int): seq<Use> {
    [Touch(a, {})] +
    if amount <= 0 || BalanceOf(l, a) < amount then []
    else [Write(a, AccountOf(l, a).(balance := BalanceOf(l, a) - amount), {})]
  }

  function RaiseUses(l: Ledger, a: Address): seq<Use> {
    [Touch(a, {}), Write(a, AccountOf(l, a).(nonce := NonceOf(l, a) + 1), {})]
  }

  function TransferUses(l: Ledger, from: Address, recipient: Address, amount: int): seq<Use> {
    if amount <= 0 || from == recipient then []
    else
      var l1 := SubtractBalance(l, from, amount);
      DebitUses(l, from, amount) + if l1.Done? then CreditUses(l1.ledger, recipient, amount) else []
  }

  function ExecuteUses(l: Ledger, tx: Tx): seq<Use> {
    if IsDeployment(tx) then []
    else
      var moved := Transfer(l, tx.from, tx.payload.to.value, tx.payload.value);
      TransferUses(l, tx.from, tx.payload.to.value, tx.payload.value)
      + if moved.Done? then RaiseUses(moved.ledger, tx.from) else []
  }

  /** Execution, and the fee if it fails. */
  function TxUses(l: Ledger, tx: Tx): seq<Use> {
    var executed := Execute(l, tx);
    ExecuteUses(l, tx) +
    if executed.Done? then []
    else
      var paid := SubtractBalance(executed.ledger, tx.from, TRANSFER_GAS);
      DebitUses(executed.ledger, tx.from, TRANSFER_GAS) + if paid.Done? then RaiseUses(paid.ledger, tx.from) else []
  }

  function BlockUses(l: Ledger, txs: seq<Tx>): seq<Use> {
    if |txs| == 0 then []
    else
      var init := txs[..|txs| - 1];
      BlockUses(l, init) + TxUses(ApplyAll(l, init).0, txs[|txs| - 1])
  }

  /** No write lowers a nonce, on accounts that read l at first. */
  ghost predicate RisesOn(l: Ledger, uses: seq<Use>) {
    |uses| == 0 ||
    var init, u := uses[..|uses| - 1], uses[|uses| - 1];
    RisesOn(l, init) && (u.Write? ==> u.account.nonce >= NonceOf(AfterAll(l, init), u.address))
  }

  lemma {:induction false} AfterConcat(l: Ledger, first: seq<Use>, second: seq<Use>)
    ensures AfterAll(l, first + second) == AfterAll(AfterAll(l, first), second)
    ensures RisesOn(l, first) && RisesOn(AfterAll(l, first), second) ==> RisesOn(l, first + second)
  {
    hide After;
    var all := first + second;
    if |second| == 0 {
      assert all == first;
    } else {
      var init := second[..|second| - 1];
      assert all[..|all| - 1] == first + init;
      AfterConcat(l, first, init);
    }
  }

  lemma TwoUses(l: Ledger, u: Use, v: Use)
    ensures AfterAll(l, []) == l && AfterAll(l, [u]) == After(l, u) && AfterAll(l, [u, v]) == After(After(l, u), v)
    ensures !u.Write? ==> RisesOn(l, [u])
    ensures !u.Write? && v.Write? && v.account.nonce >= NonceOf(After(l, u), v.address) ==> RisesOn(l, [u, v])
  {
    hide After, NonceOf;
    assert [u, v][..1] == [u] && [u][..0] == [];
    assert AfterAll(l, []) == l;
    assert AfterAll(l, [u]) == After(AfterAll(l, []), u);
  }

  lemma CreditMeans(l: Ledger, a: Address, amount: int)
    ensures AfterAll(l, CreditUses(l, a, amount)) == AddBalance(l, a, amount).ledger
    ensures RisesOn(l, CreditUses(l, a, amount))
  {
    hide AfterAll, RisesOn;
    var v := AccountOf(l, a).(balance := BalanceOf(l, a) + amount);
    TwoUses(l, Touch(a, {}), Write(a, v, {}));
    assert [Touch(a, {})] + [] == [Touch(a, {})];
    assert [Touch(a, {})] + [Write(a, v, {})] == [Touch(a, {}), Write(a, v, {})];
  }

  lemma DebitMeans(l: Ledger, a: Address, amount: int)
    ensures AfterAll(l, DebitUses(l, a, amount)) == SubtractBalance(l, a, amount).ledger
    ensures RisesOn(l, DebitUses(l, a, amount))
  {
    hide AfterAll, RisesOn;
    var v := AccountOf(l, a).(balance := BalanceOf(l, a) - amount);
    TwoUses(l, Touch(a, {}), Write(a, v, {}));
    assert [Touch(a, {})] + [] == [Touch(a, {})];
    assert [Touch(a, {})] + [Write(a, v, {})] == [Touch(a, {}), Write(a, v, {})];
  }

  lemma RaiseMeans(l: Ledger, a: Address)
    ensures AfterAll(l, RaiseUses(l, a)) == IncrementNonce(l, a) && RisesOn(l, RaiseUses(l, a))
  {
    hide AfterAll, RisesOn;
    TwoUses(l, Touch(a, {}), Write(a, AccountOf(l, a).(nonce := NonceOf(l, a) + 1), {}));
  }

  lemma NoUses(l: Ledger)
    ensures AfterAll(l, []) == l && RisesOn(l, [])
  {
  }

  lemma TransferMeans(l: Ledger, from: Address, recipient: Address, amount: int)
    ensures AfterAll(l, TransferUses(l, from, recipient, amount)) == Transfer(l, from, recipient, amount).ledger
    ensures RisesOn(l, TransferUses(l, from, recipient, amount))
  {
    hide AfterAll, RisesOn, DebitUses, CreditUses, SubtractBalance, AddBalance;
    NoUses(l);
    var l1 := SubtractBalance(l, from, amount);
    DebitMeans(l, from, amount);
    CreditMeans(l1.ledger, recipient, amount);
    AfterConcat(l, DebitUses(l, from, amount), CreditUses(l1.ledger, recipient, amount));
    assert DebitUses(l, from, amount) + [] == DebitUses(l, from, amount);
  }

  lemma ExecuteMeans(l: Ledger, tx: Tx)
    ensures AfterAll(l, ExecuteUses(l, tx)) == Execute(l, tx).ledger && RisesOn(l, ExecuteUses(l, tx))
  {
    hide AfterAll, RisesOn, TransferUses, RaiseUses, Transfer, IncrementNonce;
    NoUses(l);
    if !IsDeployment(tx) {
      var recipient, value := tx.payload.to.value, tx.payload.value;
      var moved, uses := Transfer(l, tx.from, recipient, value), TransferUses(l, tx.from, recipient, value);
      TransferMeans(l, tx.from, recipient, value);
      RaiseMeans(moved.ledger, tx.from);
      AfterConcat(l, uses, RaiseUses(moved.ledger, tx.from));
      assert uses + [] == uses;
    }
  }

  lemma TxMeans(l: Ledger, tx: Tx)
    ensures AfterAll(l, TxUses(l, tx)) == ApplyTx(l, tx).0 && RisesOn(l, TxUses(l, tx))
  {
    hide AfterAll, RisesOn, ExecuteUses, DebitUses, RaiseUses, Execute, SubtractBalance, IncrementNonce;
    var executed, uses := Execute(l, tx), ExecuteUses(l, tx);
    ExecuteMeans(l, tx);
    assert uses + [] == uses;
    if executed.Failed? {
      var l1 := executed.ledger;
      var paid, fee := SubtractBalance(l1, tx.from, TRANSFER_GAS), DebitUses(l1, tx.from, TRANSFER_GAS);
      var raise := RaiseUses(paid.ledger, tx.from);
      DebitMeans(l1, tx.from, TRANSFER_GAS);
      RaiseMeans(paid.ledger, tx.from);
      AfterConcat(l1, fee, raise);
      assert fee + [] == fee;
      AfterConcat(l, uses, if paid.Done? then fee + raise else fee);
    }
  }

  /** The operations of a block do what the execution loop does, and lower no nonce. */
  lemma {:induction false} BlockMeans(l: Ledger, txs: seq<Tx>)
    ensures AfterAll(l, BlockUses(l, txs)) == ApplyAll(l, txs).0 && RisesOn(l, BlockUses(l, txs))
  {
    if |txs| == 0 {
      NoUses(l);
    } else {
      hide AfterAll, RisesOn, TxUses, ApplyTx;
      var init, last := txs[..|txs| - 1], txs[|txs| - 1];
      var l1 := ApplyAll(l, init).0;
      BlockMeans(l, init);
      TxMeans(l1, last);
      AfterConcat(l, BlockUses(l, init), TxUses(l1, last));
    }
  }

  function WithoutEvictions(u: Use): Use {
    match u
    case Look(a, _) => Look(a, {})
    case Touch(a, _) => Touch(a, {})
    case Write(a, v, _) => Write(a, v, {})
  }

  function Plain(uses: seq<Use>): seq<Use> {
    seq(|uses|, i requires 0 <= i < |uses| => WithoutEvictions(uses[i]))
  }

  /** The uses are those, whatever the cache drops on the way. */
  predicate CarriesOut(uses: seq<Use>, plan: seq<Use>) {
    Plain(uses) == plan
  }

  lemma {:induction false} PlainMeans(l: Ledger, uses: seq<Use>)
    ensures AfterAll(l, Plain(uses)) == AfterAll(l, uses) && (RisesOn(l, Plain(uses)) <==> RisesOn(l, uses))
  {
    if |uses| > 0 {
      var init := uses[..|uses| - 1];
      PlainMeans(l, init);
      assert Plain(uses)[..|uses| - 1] == Plain(init);
    }
  }

  /** A block that is carried out on objects leaves them reading as its execution on what they read
      before, provided the cache drops no change on the way that is neither journalled nor stored. */
  lemma BlockSeen(s: Shared, uses: seq<Use>, txs: seq<Tx>)
    requires Valid(s) && CarriesOut(uses, BlockUses(Seen(s), txs)) && AllDropClean(s, uses)
    ensures Seen(Run(s, uses)) == ApplyAll(Seen(s), txs).0 && Run(s, uses).table == s.table
    ensures RisesOn(Seen(s), uses)
  {
    hide Valid, Seen, Run, AfterAll, RisesOn, BlockUses, ApplyAll;
    RunSeen(s, uses);
    BlockMeans(Seen(s), txs);
    PlainMeans(Seen(s), uses);
  }

  // ---------- What a reset leaves ----------

  ghost function NonceAt(s: Shared, a: Address): nat
    requires Valid(s)
  {
    NonceOf(Seen(s), a)
  }

  lemma NonceOfLookup(s: Shared, a: Address)
    requires Valid(s)
    ensures NonceAt(s, a) == if Lookup(s, a).Some? then Lookup(s, a).value.nonce else 0
  {
    SeenLookup(s, a);
  }

  ghost predicate AheadAt(s: Shared, a: Address)
    requires Valid(s)
  {
    && (a in s.cache ==> s.heap[s.cache[a]].account.nonce >= NonceOf(s.table, a))
    && (a in s.journal ==> s.heap[s.journal[a]].account.nonce >= NonceOf(s.table, a))
  }

  /** No cached or journalled object shows a nonce below the stored one. */
  ghost predicate Ahead(s: Shared)
    requires Valid(s)
  {
    forall a :: AheadAt(s, a)
  }

  /** The operation does not lower the nonce that is read. */
  ghost predicate Rises(s: Shared, u: Use)
    requires Valid(s)
  {
    u.Write? ==> u.account.nonce >= NonceAt(s, u.address)
  }

  lemma FetchAhead(s: Shared, a: Address, evicted: set<Address>, x: Address)
    requires Valid(s) && AheadAt(s, x) && AheadAt(s, a)
    ensures
      var t := Fetch(s, a, evicted);
      && AheadAt(t, x) && AheadAt(t, a) && t.table == s.table
      && Lookup(t, a) == Lookup(s, a) && (Find(t, a).None? ==> a !in t.table)
  {
  }

  lemma CreatedAhead(s: Shared, a: Address, x: Address)
    requires Valid(s) && AheadAt(s, x) && AheadAt(s, a) && (Find(s, a).None? ==> a !in s.table)
    ensures
      var t := Created(s, a);
      && AheadAt(t, x) && AheadAt(t, a) && t.table == s.table
      && Lookup(t, a) == if Lookup(s, a).None? then Some(NEW_ACCOUNT) else Lookup(s, a)
  {
  }

  lemma ChangedAhead(s: Shared, a: Address, v: Account, x: Address)
    requires Valid(s) && AheadAt(s, x) && AheadAt(s, a) && Find(s, a).Some? && v.nonce >= Lookup(s, a).value.nonce
    ensures AheadAt(Changed(s, a, v), x) && Changed(s, a, v).table == s.table
  {
  }

  lemma FoundIsRead(s: Shared, a: Address)
    requires Valid(s)
    ensures Find(s, a).Some? ==> Lookup(s, a).Some?
  {
  }

  lemma StepAheadAt(s: Shared, u: Use, x: Address)
    requires Valid(s) && AheadAt(s, x) && AheadAt(s, u.address) && Rises(s, u)
    ensures AheadAt(Step(s, u), x) && Step(s, u).table == s.table
  {
    var a := u.address;
    NonceOfLookup(s, a);
    hide Valid, AheadAt, Lookup, Seen, Fetch, Created, Changed, Find, NonceAt;
    FetchAhead(s, a, u.evicted, x);
    if !u.Look? {
      CreatedAhead(Fetch(s, a, u.evicted), a, x);
      if u.Write? {
        FoundIsRead(Created(Fetch(s, a, u.evicted), a), a);
        ChangedAhead(Created(Fetch(s, a, u.evicted), a), a, u.account, x);
      }
    }
  }

  /** Every operation of the run keeps to Rises. */
  ghost predicate AllRise(s: Shared, uses: seq<Use>)
    requires Valid(s)
  {
    forall i | 0 <= i < |uses| :: Rises(Run(s, uses[..i]), uses[i])
  }

  lemma {:induction false} RunAhead(s: Shared, uses: seq<Use>)
    requires Valid(s) && Ahead(s) && AllRise(s, uses)
    ensures Ahead(Run(s, uses)) && Run(s, uses).table == s.table
  {
    hide Valid, AheadAt, Rises, Step;
    if |uses| > 0 {
      var init, u := uses[..|uses| - 1], uses[|uses| - 1];
      forall i | 0 <= i < |init| ensures Rises(Run(s, init[..i]), init[i]) {
        assert init[..i] == uses[..i];
      }
      RunAhead(s, init);
      var t := Run(s, init);
      StepAheadAt(t, u, u.address);
      forall x ensures AheadAt(Step(t, u), x) {
        StepAheadAt(t, u, x);
      }
    }
  }

  /** A reset and a commit keep to it as well, so it holds over any number of blocks, saved or
      abandoned, whatever the cache keeps of them. */
  lemma ResetAndCommitAhead(s: Shared, evicted: set<Address>)
    requires Valid(s) && Ahead(s)
    ensures Ahead(Reset(s)) && Ahead(Commit(s, evicted))
  {
    hide Ahead;
    forall x ensures AheadAt(Reset(s), x) && AheadAt(Commit(s, evicted), x) {
      assert AheadAt(s, x) by {
        AheadHere(s, x);
      }
    }
    AheadEverywhere(Reset(s));
    AheadEverywhere(Commit(s, evicted));
  }

  lemma AheadHere(s: Shared, x: Address)
    requires Valid(s) && Ahead(s)
    ensures AheadAt(s, x)
  {
  }

  lemma AheadEverywhere(s: Shared)
    requires Valid(s) && forall x :: AheadAt(s, x)
    ensures Ahead(s)
  {
  }

  /** Emptying the journal undoes a change exactly if the cache no longer holds the changed object:
      the address then reads as it is stored, and otherwise as changed. */
  lemma ResetReads(s: Shared, a: Address)
    requires Valid(s)
    ensures Lookup(Reset(s), a) ==
      if a in s.journal && a !in s.cache then if a in s.table then Some(s.table[a]) else None
      else Lookup(s, a)
  {
  }

  /** So it undoes nothing at all exactly if the cache holds every object of which the change was never
      stored: then rewards outlive the start of the next block, which nothing but the cache preserves. */
  lemma ResetUndoesNothingIff(s: Shared)
    requires Valid(s)
    ensures Seen(Reset(s)) == Seen(s) <==>
      forall a | a in s.journal && a !in s.cache :: a in s.table && s.heap[s.journal[a]].account == s.table[a]
  {
    forall a ensures Lookup(Reset(s), a) ==
      if a in s.journal && a !in s.cache then if a in s.table then Some(s.table[a]) else None
      else Lookup(s, a)
    {
      ResetReads(s, a);
    }
    if forall a | a in s.journal && a !in s.cache :: a in s.table && s.heap[s.journal[a]].account == s.table[a] {
      forall x ensures Lookup(Reset(s), x) == if x in Seen(s) then Some(Seen(s)[x]) else None {
        SeenLookup(s, x);
      }
      SeenIs(Reset(s), Seen(s));
    }
    if Seen(Reset(s)) == Seen(s) {
      forall a | a in s.journal && a !in s.cache ensures a in s.table && s.heap[s.journal[a]].account == s.table[a] {
        SeenLookup(s, a);
        SeenLookup(Reset(s), a);
      }
    }
  }

  lemma ResetNonce(s: Shared, a: Address)
    requires Valid(s) && AheadAt(s, a)
    ensures NonceOf(s.table, a) <= NonceAt(Reset(s), a) <= NonceAt(s, a)
  {
    ResetReads(s, a);
    NonceOfLookup(s, a);
    NonceOfLookup(Reset(s), a);
    hide Seen, NonceAt;
  }

  /** So what is read after an abandoned block shows no nonce that the block had not reached, and none
      below the stored one; and operations that leave the stored nonces leave them through a reset. */
  lemma AbandonedNonces(s: Shared, uses: seq<Use>)
    requires Valid(s) && Ahead(s) && AllRise(s, uses)
    ensures
      var t := Run(s, uses);
      && Ahead(Reset(t)) && Reset(t).table == s.table
      && NoncesAtMost(Seen(Reset(t)), Seen(t)) && NoncesAtMost(s.table, Seen(Reset(t)))
      && (SameNonces(Seen(t), s.table) ==> SameNonces(Seen(Reset(t)), Seen(t)))
  {
    RunAhead(s, uses);
    var t := Run(s, uses);
    ResetAndCommitAhead(t, {});
    assert Reset(t).table == t.table;
    hide Run, Seen, Valid, AheadAt, Reset;
    forall a ensures NonceOf(s.table, a) <= NonceOf(Seen(Reset(t)), a) <= NonceOf(Seen(t), a) {
      ResetNonce(t, a);
    }
  }

  /** A nonce that the block raised above the stored one reads as raised after a reset if the cache
      holds the object, and as stored otherwise. */
  lemma RaisedIffCached(s: Shared, a: Address)
    requires Valid(s) && NonceAt(s, a) > NonceOf(s.table, a)
    ensures NonceAt(Reset(s), a) == if a in s.cache then NonceAt(s, a) else NonceOf(s.table, a)
  {
    ResetReads(s, a);
    NonceOfLookup(s, a);
    NonceOfLookup(Reset(s), a);
    hide Seen, NonceAt;
  }

  // ---------- An abandoned block on objects ----------

  /** The cache holds the account of every sender whose successor the block promotes. */
  ghost predicate SuccessorsCached(p: Pool, l: Ledger, txs: seq<Tx>, t: Shared) {
    forall i | 0 <= i < |txs| && HasSuccessor(p, l, txs, i) :: txs[i].from in t.cache
  }

  lemma ReadyIffCached(p: Pool, l: Ledger, txs: seq<Tx>, t: Shared)
    requires Takes(p, l, txs) && Valid(t) && Ahead(t) && NoncesAtMost(t.table, l) && Seen(t) == ApplyAll(l, txs).0
    ensures NoncesAtMost(Seen(Reset(t)), ApplyAll(l, txs).0)
    ensures SuccessorsReady(p, l, txs, Seen(Reset(t))) <==> SuccessorsCached(p, l, txs, t)
  {
    NoncesMove(l, txs);
    var r := Seen(Reset(t));
    hide ApplyAll, Seen, Reset, Valid, AheadAt, HasNonce;
    forall a ensures NonceOf(r, a) <= NonceOf(Seen(t), a) {
      ResetNonce(t, a);
    }
    forall i | 0 <= i < |txs| && HasSuccessor(p, l, txs, i) ensures Raised(r, txs[i]) <==> txs[i].from in t.cache {
      assert NonceAt(t, txs[i].from) == txs[i].Nonce() + 1;
      assert NonceOf(t.table, txs[i].from) <= txs[i].Nonce();
      RaisedIffCached(t, txs[i].from);
    }
  }

  /** Looking at accounts, as the promotion does, changes nothing but the cache. */
  ghost predicate OnlyLooks(uses: seq<Use>) {
    forall i | 0 <= i < |uses| :: uses[i].Look?
  }

  /** From s, with the journal just emptied, the block is carried out by uses, its senders' nonces are
      looked up, and t is the result. */
  ghost predicate Executes(s: Shared, uses: seq<Use>, looks: seq<Use>, txs: seq<Tx>, t: Shared)
    requires Valid(s)
  {
    && CarriesOut(uses, BlockUses(Seen(s), txs)) && OnlyLooks(looks)
    && AllDropClean(s, uses) && AllDropClean(Run(s, uses), looks)
    && t == Run(Run(s, uses), looks)
  }

  lemma {:induction false} LooksSeeNothing(l: Ledger, looks: seq<Use>)
    requires OnlyLooks(looks)
    ensures AfterAll(l, looks) == l && RisesOn(l, looks)
  {
    if |looks| > 0 {
      LooksSeeNothing(l, looks[..|looks| - 1]);
    }
  }

  lemma {:induction false} RiseOnIsRise(s: Shared, uses: seq<Use>)
    requires Valid(s) && AllDropClean(s, uses) && RisesOn(Seen(s), uses)
    ensures AllRise(s, uses)
  {
    hide Valid, DropsClean, Seen, Step, After;
    if |uses| > 0 {
      var init, u := uses[..|uses| - 1], uses[|uses| - 1];
      forall i | 0 <= i < |init| ensures DropsClean(Run(s, init[..i]), init[i].evicted) {
        assert init[..i] == uses[..i];
      }
      RiseOnIsRise(s, init);
      RunSeen(s, init);
      forall i | 0 <= i < |uses| ensures Rises(Run(s, uses[..i]), uses[i]) {
        if i < |init| {
          assert init[..i] == uses[..i];
          assert Rises(Run(s, init[..i]), init[i]);
        }
      }
    }
  }

  /** After a block on objects they read as its execution says, nothing is stored yet, and no nonce is
      below the stored one. */
  lemma ExecutesSeen(s: Shared, uses: seq<Use>, looks: seq<Use>, txs: seq<Tx>, t: Shared)
    requires Valid(s) && Ahead(s) && Executes(s, uses, looks, txs, t)
    ensures Valid(t) && Ahead(t) && t.table == s.table && Seen(t) == ApplyAll(Seen(s), txs).0
  {
    hide Valid, Ahead, AheadAt, Seen, Run, RisesOn, BlockUses, ApplyAll, AllDropClean, AllRise, AfterAll, CarriesOut,
      OnlyLooks;
    BlockSeen(s, uses, txs);
    RiseOnIsRise(s, uses);
    RunAhead(s, uses);
    var m := Run(s, uses);
    LooksSeeNothing(Seen(m), looks);
    RunSeen(m, looks);
    RiseOnIsRise(m, looks);
    RunAhead(m, looks);
  }

  /** The stored nonces are never above those that are read. */
  lemma StoredAtMostSeen(s: Shared)
    requires Valid(s) && Ahead(s)
    ensures NoncesAtMost(s.table, Seen(s))
  {
    forall a ensures NonceOf(s.table, a) <= NonceOf(Seen(s), a) {
      NonceOfLookup(s, a);
      hide Seen;
      assert AheadAt(s, a);
    }
  }

  /** The pool of an abandoned block, on objects: if its slot starts from what they read and is carried
      out on them, then the node keeps its invariant exactly if the cache still holds the account of
      every sender whose successor was promoted. Earlier abandoned blocks may have left their marks. */
  lemma AbandonOnObjectsIff(c: Crypto, n: Node, slot: Slot, s: Shared, uses: seq<Use>, looks: seq<Use>, t: Shared)
    requires NodeInv(c, n) && n.chain != [] && slot.RollsBack() && slot.fault != BeforePromotion
    requires Valid(s) && Ahead(s) && Executes(s, uses, looks, Ordered(n.pool.pending.Values), t)
    requires slot.base == Seen(s) && SameNonces(slot.base, n.accounts) && slot.residue == Seen(Reset(t))
    ensures NodeInv(c, Produce(c, n, slot)) <==>
      SuccessorsCached(n.pool, slot.base, Ordered(n.pool.pending.Values), t)
  {
    PoolInvNonces(n.pool, n.accounts, slot.base);
    OrderedTakes(n.pool, slot.base);
    hide PoolInv, Produce, Ordered, ApplyAll, Seen, Reset, Valid, Ahead, PoolAfter, SuccessorsCached, SuccessorsReady,
      SuccessorsWait, SameNonces, NoncesAtMost, NodeInv, Takes, Slot.RollsBack, Executes;
    ExecutesSeen(s, uses, looks, Ordered(n.pool.pending.Values), t);
    StoredAtMostSeen(s);
    ReadyIffCached(n.pool, slot.base, Ordered(n.pool.pending.Values), t);
    AbandonKeepsNodeInvIff(c, n, slot);
  }

  /** Both ends are reached: with the object still cached a charge survives the rollback, and with
      the object dropped it is undone. */
  lemma BothEndsAreReached(a: Address, v: Account)
    requires v.nonce == 1
    ensures
      var s := Shared([], map[], map[], map[a := NEW_ACCOUNT]);
      && Valid(s) && Ahead(s) && AllRise(s, [Write(a, v, {})])
      && var kept := Run(s, [Write(a, v, {})]);
        var dropped := kept.(cache := kept.cache - {a});
        && Valid(dropped) && Lookup(kept, a) == Some(v) == Lookup(dropped, a)
        && Lookup(Reset(kept), a) == Some(v) && Lookup(Reset(dropped), a) == Some(NEW_ACCOUNT)
  {
    var s := Shared([], map[], map[], map[a := NEW_ACCOUNT]);
    var u := Write(a, v, {});
    assert [u][..0] == [];
    assert Run(s, [u]) == Step(s, u) by {
      assert Run(s, []) == s;
    }
    NonceOfLookup(s, a);
  }
}
