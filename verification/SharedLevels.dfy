/** Shared account objects that show the stored nonces, and the operations that keep them so: then it does
    not matter to any nonce what the cache drops and when the journal is emptied. */
module SharedLevels {
  import opened Types
  import opened LedgerOps
  import NodeMachine
  import opened SharedAccounts

  // ---------- Objects that show the stored nonces ----------

  ghost predicate LevelAt(s: Shared, a: Address)
    requires Valid(s)
  {
    && (a in s.cache ==> s.heap[s.cache[a]].account.nonce == NonceOf(s.table, a))
    && (a in s.journal ==> s.heap[s.journal[a]].account.nonce == NonceOf(s.table, a))
  }

  /** Every cached or journalled object shows the nonce that is stored. */
  ghost predicate Level(s: Shared)
    requires Valid(s)
  {
    forall a :: LevelAt(s, a)
  }

  ghost predicate LooseAt(s: Shared, a: Address)
    requires Valid(s)
  {
    a in s.cache && a !in s.journal ==> s.heap[s.cache[a]].account.nonce == NonceOf(s.table, a)
  }

  /** Every object that is only cached does. */
  ghost predicate Loose(s: Shared)
    requires Valid(s)
  {
    forall a :: LooseAt(s, a)
  }

  /** The nonces that are read are the stored ones. */
  lemma LevelReads(s: Shared)
    requires Valid(s) && Level(s)
    ensures NodeMachine.SameNonces(Seen(s), s.table) && Loose(s) && Ahead(s)
  {
    hide Seen, NodeMachine.SameNonces;
    forall a ensures NonceOf(Seen(s), a) == NonceOf(s.table, a) && LooseAt(s, a) && AheadAt(s, a) {
      assert LevelAt(s, a);
      NonceOfLookup(s, a);
    }
    assert NodeMachine.SameNonces(Seen(s), s.table) by {
      SameNoncesAt(Seen(s), s.table);
    }
  }

  lemma SameNoncesAt(l: Ledger, k: Ledger)
    requires forall a :: NonceOf(l, a) == NonceOf(k, a)
    ensures NodeMachine.SameNonces(l, k)
  {
  }

  /** What reads as stored is level, if what is only cached is. */
  lemma LooseIsLevel(s: Shared)
    requires Valid(s) && Loose(s) && NodeMachine.SameNonces(Seen(s), s.table)
    ensures Level(s)
  {
    hide Seen;
    forall a ensures LevelAt(s, a) {
      NonceOfLookup(s, a);
      assert NonceOf(Seen(s), a) == NonceOf(s.table, a);
      assert LooseAt(s, a);
    }
  }

  // ---------- Operations ----------

  /** The operation does not move the nonce that is read. */
  ghost predicate Keeps(s: Shared, u: Use)
    requires Valid(s)
  {
    u.Write? ==> u.account.nonce == NonceAt(s, u.address)
  }

  lemma FetchLevel(s: Shared, a: Address, evicted: set<Address>, x: Address)
    requires Valid(s)
    ensures
      var t := Fetch(s, a, evicted);
      && t.table == s.table && (Find(t, a).None? ==> a !in t.table) && Lookup(t, a) == Lookup(s, a)
      && (LevelAt(s, x) ==> LevelAt(t, x)) && (LooseAt(s, x) ==> LooseAt(t, x))
  {
  }

  lemma CreatedLevel(s: Shared, a: Address, x: Address)
    requires Valid(s) && (Find(s, a).None? ==> a !in s.table)
    ensures
      var t := Created(s, a);
      && t.table == s.table && Lookup(t, a) == (if Lookup(s, a).None? then Some(NEW_ACCOUNT) else Lookup(s, a))
      && (LevelAt(s, x) ==> LevelAt(t, x)) && (LooseAt(s, x) ==> LooseAt(t, x))
  {
  }

  lemma ChangedLevel(s: Shared, a: Address, v: Account, x: Address)
    requires Valid(s) && Find(s, a).Some?
    ensures
      var t := Changed(s, a, v);
      && t.table == s.table && (LooseAt(s, x) ==> LooseAt(t, x))
      && (LevelAt(s, x) && LevelAt(s, a) && v.nonce == Lookup(s, a).value.nonce ==> LevelAt(t, x))
  {
  }

  lemma StepLevelAt(s: Shared, u: Use, x: Address)
    requires Valid(s)
    ensures Step(s, u).table == s.table
    ensures LooseAt(s, x) ==> LooseAt(Step(s, u), x)
    ensures LevelAt(s, x) && LevelAt(s, u.address) && Keeps(s, u) ==> LevelAt(Step(s, u), x)
  {
    var a := u.address;
    NonceOfLookup(s, a);
    hide Valid, LevelAt, LooseAt, Lookup, Seen, Fetch, Created, Changed, Find, NonceAt;
    FetchLevel(s, a, u.evicted, x);
    FetchLevel(s, a, u.evicted, a);
    if !u.Look? {
      var t := Fetch(s, a, u.evicted);
      CreatedLevel(t, a, x);
      CreatedLevel(t, a, a);
      if u.Write? {
        FoundIsRead(Created(t, a), a);
        ChangedLevel(Created(t, a), a, u.account, x);
      }
    }
  }

  /** Every operation of the run keeps to Keeps. */
  ghost predicate AllKeep(s: Shared, uses: seq<Use>)
    requires Valid(s)
  {
    forall i | 0 <= i < |uses| :: Keeps(Run(s, uses[..i]), uses[i])
  }

  /** Whatever is done, what is only cached shows the stored nonces, for a change is journalled; and if
      no nonce is changed everything does. */
  lemma {:induction false} RunLevel(s: Shared, uses: seq<Use>)
    requires Valid(s)
    ensures Run(s, uses).table == s.table
    ensures Loose(s) ==> Loose(Run(s, uses))
    ensures Level(s) && AllKeep(s, uses) ==> Level(Run(s, uses))
  {
    hide Valid, LevelAt, LooseAt, Keeps, Step;
    if |uses| > 0 {
      var init, u := uses[..|uses| - 1], uses[|uses| - 1];
      forall i | 0 <= i < |init| ensures init[..i] == uses[..i] && init[i] == uses[i] {
      }
      RunLevel(s, init);
      StepLevelAt(Run(s, init), u, u.address);
      forall x
        ensures LooseAt(Run(s, init), x) ==> LooseAt(Run(s, uses), x)
        ensures LevelAt(Run(s, init), x) && LevelAt(Run(s, init), u.address) && Keeps(Run(s, init), u) ==>
          LevelAt(Run(s, uses), x)
      {
        StepLevelAt(Run(s, init), u, x);
      }
    }
  }

  lemma LooksKeep(s: Shared, looks: seq<Use>)
    requires Valid(s) && OnlyLooks(looks)
    ensures AllKeep(s, looks)
  {
    hide Run, NonceAt;
  }

  /** A commit that got as far as the given addresses, which it caches, when others may be dropped. */
  ghost function Written(s: Shared, written: set<Address>, dropped: set<Address>): (t: Shared)
    requires Valid(s)
    ensures Valid(t)
  {
    s.(table := s.table + (map a | a in s.journal && a in written :: s.heap[s.journal[a]].account),
       cache := (s.cache + (map a | a in s.journal && a in written :: s.journal[a])) - dropped)
  }

  /** A commit that gets to the end is the whole of it. */
  lemma WrittenIsCommit(s: Shared, dropped: set<Address>)
    requires Valid(s)
    ensures Reset(Written(s, s.journal.Keys, dropped)) == Commit(s, dropped)
  {
    assert (map a | a in s.journal && a in s.journal.Keys :: s.journal[a]) == s.journal;
    assert (map a | a in s.journal && a in s.journal.Keys :: s.heap[s.journal[a]].account)
        == (map a | a in s.journal :: s.heap[s.journal[a]].account);
  }

  lemma WrittenLevelAt(s: Shared, written: set<Address>, dropped: set<Address>, x: Address)
    requires Valid(s)
    ensures LevelAt(s, x) ==> LevelAt(Reset(Written(s, written, dropped)), x)
    ensures LevelAt(s, x) ==> NonceOf(Written(s, written, dropped).table, x) == NonceOf(s.table, x)
    ensures LooseAt(s, x) && (x in s.journal ==> x in written) ==> LevelAt(Reset(Written(s, written, dropped)), x)
  {
  }

  /** On level objects a commit that stops anywhere moves no nonce. */
  lemma WrittenLevel(s: Shared, written: set<Address>, dropped: set<Address>)
    requires Valid(s) && Level(s)
    ensures var t := Reset(Written(s, written, dropped)); Level(t) && NodeMachine.SameNonces(t.table, s.table)
  {
    hide Written, Reset;
    forall x ensures LevelAt(Reset(Written(s, written, dropped)), x)
             ensures NonceOf(Reset(Written(s, written, dropped)).table, x) == NonceOf(s.table, x)
    {
      assert LevelAt(s, x);
      WrittenLevelAt(s, written, dropped, x);
      ResetTable(Written(s, written, dropped));
    }
  }

  lemma ResetTable(s: Shared)
    requires Valid(s)
    ensures Reset(s).table == s.table
  {
  }

  lemma CommittedNonce(s: Shared, dropped: set<Address>, x: Address)
    requires Valid(s) && LooseAt(s, x)
    ensures NonceOf(Commit(s, dropped).table, x) == NonceAt(s, x)
  {
    NonceOfLookup(s, x);
    hide Seen, NonceAt;
  }

  /** A commit levels whatever the block changed, and moves no nonce that is read. */
  lemma CommitLevel(s: Shared, dropped: set<Address>)
    requires Valid(s) && Loose(s)
    ensures Level(Commit(s, dropped)) && NodeMachine.SameNonces(Commit(s, dropped).table, Seen(s))
  {
    WrittenIsCommit(s, dropped);
    hide Written, Reset, Commit, Seen, LooseAt;
    forall x ensures LevelAt(Commit(s, dropped), x)
             ensures NonceOf(Commit(s, dropped).table, x) == NonceOf(Seen(s), x)
    {
      assert LooseAt(s, x);
      WrittenLevelAt(s, s.journal.Keys, dropped, x);
      CommittedNonce(s, dropped, x);
    }
  }

  lemma ResetLevel(s: Shared)
    requires Valid(s) && Level(s)
    ensures Level(Reset(s)) && Reset(s).table == s.table
  {
    forall x ensures LevelAt(Reset(s), x) {
      assert LevelAt(s, x);
    }
  }

  // ---------- Rewards ----------

  /** One credit, as it is carried out. */
  datatype Credit = Credit(address: Address, amount: int, uses: seq<Use>)

  ghost function Credited(s: Shared, credits: seq<Credit>): (t: Shared)
    requires Valid(s)
    ensures Valid(t)
  {
    if |credits| == 0 then s else Run(Credited(s, credits[..|credits| - 1]), credits[|credits| - 1].uses)
  }

  /** Each credit does what the account service does on what is read at its turn. */
  ghost predicate CreditsCarriedOut(s: Shared, credits: seq<Credit>)
    requires Valid(s)
  {
    |credits| == 0 ||
    var init, last := credits[..|credits| - 1], credits[|credits| - 1];
    && CreditsCarriedOut(s, init)
    && CarriesOut(last.uses, CreditUses(Seen(Credited(s, init)), last.address, last.amount))
  }

  lemma TouchReads(s: Shared, a: Address, evicted: set<Address>)
    requires Valid(s)
    ensures NonceAt(Step(s, Touch(a, evicted)), a) == NonceAt(s, a)
  {
    var t := Fetch(s, a, evicted);
    FetchLevel(s, a, evicted, a);
    CreatedLevel(t, a, a);
    NonceOfLookup(s, a);
    NonceOfLookup(Created(t, a), a);
    hide Fetch, Created, Lookup, Seen, NonceAt;
  }

  lemma CreditKeeps(s: Shared, uses: seq<Use>, a: Address, amount: int)
    requires Valid(s) && CarriesOut(uses, CreditUses(Seen(s), a, amount))
    ensures AllKeep(s, uses)
  {
    var plan := CreditUses(Seen(s), a, amount);
    assert |uses| == |plan|;
    assert WithoutEvictions(uses[0]) == Plain(uses)[0] == plan[0];
    assert uses[..0] == [] && Run(s, []) == s;
    TouchReads(s, a, uses[0].evicted);
    hide Valid, Seen, Step, NonceAt;
    assert Keeps(Run(s, uses[..0]), uses[0]);
    if |uses| > 1 {
      assert WithoutEvictions(uses[1]) == Plain(uses)[1] == plan[1];
      assert uses[..1] == [uses[0]] && uses[..1][..0] == [];
      assert Run(s, uses[..1]) == Step(s, uses[0]);
      assert NonceAt(s, a) == NonceOf(Seen(s), a) by {
        NonceAtSeen(s, a);
      }
      assert Keeps(Run(s, uses[..1]), uses[1]);
    }
  }

  lemma NonceAtSeen(s: Shared, a: Address)
    requires Valid(s)
    ensures NonceAt(s, a) == NonceOf(Seen(s), a)
  {
  }

  /** Rewards, as far as they get, move no nonce. */
  lemma {:induction false} CreditedLevel(s: Shared, credits: seq<Credit>)
    requires Valid(s) && Level(s) && CreditsCarriedOut(s, credits)
    ensures Level(Credited(s, credits)) && Credited(s, credits).table == s.table
  {
    hide Valid, Level, Run, AllKeep, CreditUses, CarriesOut, Seen;
    if |credits| > 0 {
      var init, last := credits[..|credits| - 1], credits[|credits| - 1];
      CreditedLevel(s, init);
      CreditKeeps(Credited(s, init), last.uses, last.address, last.amount);
      RunLevel(Credited(s, init), last.uses);
    }
  }

  // ---------- Without it ----------

  /** After an abandoned block a charged sender's object can be cached at a raised nonce. Looking at
      another account may then drop it, which lowers the nonce that is read. */
  lemma LaterEvictionLowersNonce(a: Address, b: Address, v: Account)
    requires a != b && v.nonce == 1
    ensures
      var s := Shared([], map[], map[], map[a := NEW_ACCOUNT, b := NEW_ACCOUNT]);
      && Valid(s) && Level(s)
      && var t := Reset(Step(s, Write(a, v, {})));
        && NonceAt(t, a) == 1 && !Level(t)
        && NonceAt(Step(t, Look(b, {a})), a) == 0
  {
    var s := Shared([], map[], map[], map[a := NEW_ACCOUNT, b := NEW_ACCOUNT]);
    var t := Reset(Step(s, Write(a, v, {})));
    NonceOfLookup(t, a);
    NonceOfLookup(Step(t, Look(b, {a})), a);
    hide NonceAt, Seen;
    assert !LevelAt(t, a);
  }
}
