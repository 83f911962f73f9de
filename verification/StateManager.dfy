/** The state manager: the journal stack, the cache and the repository behind them. */
module StateManagers {
  import opened Types
  import opened AccountCache
  import opened Journal
  import opened StateStore

  function Lookup(l: Ledger, a: Address): Option<Account> {
    if a in l then Some(l[a]) else None
  }

  // ---------- Merging ----------

  /** What lower becomes when all of upper but rest has been copied into it. */
  ghost function MergedSoFar(lower: Layer, upper: Layer, rest: Layer): Layer {
    lower + (upper - rest.Keys)
  }

  lemma MergeEnds(lower: Layer, upper: Layer)
    ensures MergedSoFar(lower, upper, upper) == lower && MergedSoFar(lower, upper, map[]) == lower + upper
  {
    assert upper - upper.Keys == map[];
    var none: Layer := map[];
    assert upper - none.Keys == upper;
  }

  lemma MergeStep(lower: Layer, upper: Layer, rest: Layer, a: Address)
    requires rest.Keys <= upper.Keys && a in rest
    ensures MergedSoFar(lower, upper, rest - {a}) == MergedSoFar(lower, upper, rest)[a := upper[a]]
  {
  }

  /** Copies the entries of upper into lower, in any order. */
  method Merge(lower: Layer, upper: Layer) returns (r: Layer)
    ensures r == lower + upper
  {
    hide MergedSoFar;
    r := lower;
    var rest := upper;
    MergeEnds(lower, upper);
    while rest != map[]
      invariant rest.Keys <= upper.Keys && forall a | a in rest :: rest[a] == upper[a]
      invariant r == MergedSoFar(lower, upper, rest)
      decreases |rest|
    {
      var a :| a in rest;
      MergeStep(lower, upper, rest, a);
      r := r[a := rest[a]];
      rest := rest - {a};
    }
  }

  // ---------- Flushing ----------

  /** Nothing in the layer has a negative balance, which the repository could not store. */
  ghost predicate Storable(layer: Layer) {
    forall a | a in layer && layer[a].Some? :: layer[a].value.balance >= 0
  }

  lemma StorableStep(merged: Layer, rest: Layer, a: Address)
    requires rest.Keys <= merged.Keys && a in rest && Storable(merged - rest.Keys)
    ensures Storable(merged - (rest - {a}).Keys) <==> merged[a].Some? ==> merged[a].value.balance >= 0
    ensures merged[a].Some? && merged[a].value.balance < 0 ==> !Storable(merged)
  {
    var more := merged - (rest - {a}).Keys;
    assert a in more && forall x | x in more && x != a :: x in merged - rest.Keys;
  }

  /** What the table holds when all of merged but rest has been flushed to it. */
  ghost function Flushed(table: Ledger, merged: Layer, rest: Layer): Ledger {
    table + Live(merged - rest.Keys)
  }

  lemma FlushEnds(table: Ledger, merged: Layer)
    ensures Storable(merged - merged.Keys) && Flushed(table, merged, merged) == table
    ensures Flushed(table, merged, map[]) == table + Live(merged)
  {
    assert merged - merged.Keys == map[];
    var none: Layer := map[];
    assert merged - none.Keys == merged;
  }

  lemma FlushMeans(table: Ledger, merged: Layer, rest: Layer)
    ensures Flushed(table, merged, rest) == table + Live(merged - rest.Keys)
  {
  }

  lemma FlushStep(table: Ledger, merged: Layer, rest: Layer, a: Address)
    requires rest.Keys <= merged.Keys && a in rest
    ensures
      var before, after := Flushed(table, merged, rest), Flushed(table, merged, rest - {a});
      after == if merged[a].Some? then before[a := merged[a].value] else before
  {
  }

  class StateManager {
    const repository: StateRepository
    var cache: Cache
    var journalStack: seq<Layer>

    ghost predicate Valid()
      reads this, repository
    {
      && repository.Valid()
      && Coherent(cache, repository.ledger)
    }

    /** The journal and the table behind it. */
    ghost function Now(): State
      reads this, repository
    {
      State(journalStack, repository.ledger)
    }

    constructor (r: StateRepository)
      requires r.Valid()
      ensures Valid() && repository == r && Now() == State([], r.ledger)
    {
      hide StateRepository.Valid, Coherent;
      repository := r;
      cache := EMPTY_CACHE;
      journalStack := [];
      EmptyCoherent(r.ledger);
    }

    /** Reads through the layers from the top, then the cache, then the repository. Whatever the
        cache holds, the answer is the one the view gives. */
    method GetAccount(address: Address) returns (account: Option<Account>)
      requires Valid()
      modifies this`cache
      ensures Valid() && Now() == old(Now())
      ensures account == Lookup(View(Now()), address)
    {
      hide StateRepository.Valid, Coherent;
      assert journalStack[..|journalStack|] == journalStack;
      for i := |journalStack| downto 0
        invariant Now() == old(Now()) && cache == old(cache)
        invariant Lookup(Overlay(repository.ledger, journalStack[..i]), address) == Lookup(View(Now()), address)
      {
        var journal := journalStack[i];
        assert journalStack[..i + 1][..i] == journalStack[..i];
        if address in journal {
          return journal[address];
        }
      }
      assert journalStack[..0] == [];
      if address in cache.entries {
        Hit(cache, repository.ledger, address);
        return Some(cache.entries[address]);
      }
      account := repository.GetAccount(address);
      if account.Some? {
        assert repository.ledger[address := account.value] == repository.ledger;
        AddCoherent(cache, repository.ledger, address, account.value);
        cache := Add(cache, address, account.value);
      }
    }

    method SetAccount(address: Address, account: Account)
      requires Valid()
      modifies this`journalStack
      ensures Valid() && Now() == Step(old(Now()), Set(address, account))
    {
      hide StateRepository.Valid, Coherent;
      OpenLayer();
      var top := |journalStack| - 1;
      journalStack := journalStack[top := journalStack[top][address := Some(account)]];
      assert journalStack == Write(old(journalStack), address, Some(account));
    }

    method DeleteAccount(address: Address)
      requires Valid()
      modifies this`journalStack
      ensures Valid() && Now() == Step(old(Now()), Op.Delete(address))
    {
      hide StateRepository.Valid, Coherent;
      OpenLayer();
      var top := |journalStack| - 1;
      journalStack := journalStack[top := journalStack[top][address := None]];
      assert journalStack == Write(old(journalStack), address, None);
    }

    /** Writing on an empty stack opens a layer. */
    method OpenLayer()
      modifies this`journalStack
      ensures journalStack == if old(journalStack) == [] then [map[]] else old(journalStack)
    {
      if |journalStack| == 0 {
        journalStack := [map[]];
      }
    }

    method StartBlock()
      requires Valid()
      modifies this`journalStack
      ensures Valid() && Now() == Step(old(Now()), Op.StartBlock)
    {
      hide StateRepository.Valid, Coherent;
      journalStack := [];
      journalStack := journalStack + [map[]];
    }

    method Checkpoint()
      requires Valid()
      modifies this`journalStack
      ensures Valid() && Now() == Step(old(Now()), Op.Checkpoint)
    {
      hide StateRepository.Valid, Coherent;
      journalStack := journalStack + [map[]];
    }

    method CommitCheckpoint() returns (thrown: bool)
      requires Valid()
      modifies this`journalStack
      ensures Valid() && Now() == Step(old(Now()), Op.CommitCheckpoint)
      ensures thrown == Throws(old(Now()), Op.CommitCheckpoint)
    {
      hide StateRepository.Valid, Coherent;
      if |journalStack| == 0 {
        return true;
      }
      var n := |journalStack|;
      if n == 1 {
        journalStack := journalStack[..0];
        return false;
      }
      var merged := Merge(journalStack[n - 2], journalStack[n - 1]);
      journalStack := journalStack[..n - 1][n - 2 := merged];
      assert journalStack == old(journalStack)[..n - 2] + [merged];
      return false;
    }

    method RevertCheckpoint() returns (thrown: bool)
      requires Valid()
      modifies this`journalStack
      ensures Valid() && Now() == Step(old(Now()), Op.RevertCheckpoint)
      ensures thrown == Throws(old(Now()), Op.RevertCheckpoint)
    {
      hide StateRepository.Valid, Coherent;
      if |journalStack| == 0 {
        return true;
      }
      journalStack := journalStack[..|journalStack| - 1];
      return false;
    }

    /** Merges the layers from the bottom up and flushes the result entry by entry, in any order.
        If an entry cannot be stored, the commit stops there: some of the others, all but those
        left, are written, and the journal stays. */
    method CommitBlock() returns (thrown: bool, ghost left: set<Address>)
      requires Valid()
      modifies this, repository
      ensures Valid() && (thrown <==> !Storable(Merged(old(journalStack))))
      ensures !thrown ==> Now() == Step(old(Now()), Op.CommitBlock)
      ensures thrown ==>
        && journalStack == old(journalStack)
        && repository.ledger == old(repository.ledger) + Live(Merged(journalStack) - left)
    {
      hide StateRepository.Valid, Coherent;
      thrown, left := false, {};
      if |journalStack| == 0 {
        assert repository.ledger + Live(Merged(journalStack)) == repository.ledger;
        return;
      }
      var merged: Layer := map[];
      for i := 0 to |journalStack|
        invariant Valid() && Now() == old(Now()) && cache == old(cache)
        invariant merged == Merged(journalStack[..i])
      {
        assert journalStack[..i + 1][..i] == journalStack[..i];
        merged := Merge(merged, journalStack[i]);
      }
      assert journalStack[..|journalStack|] == journalStack;
      thrown, left := Flush(merged);
      if !thrown {
        assert merged - left == merged;
        journalStack := [];
      }
    }

    /** Saves what the merged layer sets and forgets what it deletes: a deleted account leaves
        the cache, but not the repository. */
    method Flush(merged: Layer) returns (thrown: bool, ghost left: set<Address>)
      requires Valid()
      modifies this`cache, repository
      ensures Valid() && (thrown <==> !Storable(merged)) && (!thrown ==> left == {})
      ensures repository.ledger == old(repository.ledger) + Live(merged - left)
    {
      hide StateRepository.Valid, Coherent, Flushed, Live, AccountCache.Add, AccountCache.Delete, Storable;
      var rest := merged;
      ghost var table := repository.ledger;
      FlushEnds(table, merged);
      while rest != map[]
        invariant Valid() && journalStack == old(journalStack)
        invariant rest.Keys <= merged.Keys && forall a | a in rest :: rest[a] == merged[a]
        invariant Storable(merged - rest.Keys)
        invariant repository.ledger == Flushed(table, merged, rest)
        decreases |rest|
      {
        var a :| a in rest;
        FlushStep(table, merged, rest, a);
        StorableStep(merged, rest, a);
        if rest[a].None? {
          DeleteCoherent(cache, repository.ledger, a);
          cache := AccountCache.Delete(cache, a);
        } else {
          AddCoherent(cache, repository.ledger, a, rest[a].value);
          thrown := repository.SaveAccount(a, rest[a].value);
          if thrown {
            FlushMeans(table, merged, rest);
            return true, rest.Keys;
          }
          cache := Add(cache, a, rest[a].value);
        }
        rest := rest - {a};
      }
      FlushMeans(table, merged, rest);
      assert merged - rest.Keys == merged;
      return false, {};
    }

    method RollbackBlock()
      requires Valid()
      modifies this`journalStack
      ensures Valid() && Now() == Step(old(Now()), Op.RollbackBlock)
    {
      hide StateRepository.Valid, Coherent;
      journalStack := [];
    }
  }
}
