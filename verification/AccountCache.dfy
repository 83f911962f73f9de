/** The bounded account cache: a map that remembers the order of insertion and evicts its
    oldest entry. */
module AccountCache {
  import opened Types

  const CACHE_SIZE_LIMIT := 1000

  datatype Cache = Cache(order: seq<Address>, entries: map<Address, Account>) {
    /** The keys in insertion order, once each. */
    ghost predicate Valid() {
      && (forall i, j | 0 <= i < j < |order| :: order[i] != order[j])
      && (forall a :: a in order <==> a in entries)
    }

    function Size(): nat {
      |order|
    }
  }

  const EMPTY_CACHE := Cache([], map[])

  /** Within its bound, and agreeing with the repository wherever it has an entry. */
  ghost predicate Coherent(c: Cache, table: Ledger) {
    && c.Valid()
    && c.Size() <= CACHE_SIZE_LIMIT
    && forall a | a in c.entries :: a in table && table[a] == c.entries[a]
  }

  function Without(order: seq<Address>, a: Address): seq<Address> {
    if |order| == 0 then []
    else if order[0] == a then order[1..]
    else [order[0]] + Without(order[1..], a)
  }

  function Delete(c: Cache, a: Address): Cache {
    Cache(Without(c.order, a), c.entries - {a})
  }

  /** Setting a key that is present keeps its place in the order. */
  function Put(c: Cache, a: Address, v: Account): Cache {
    Cache(if a in c.entries then c.order else c.order + [a], c.entries[a := v])
  }

  function Add(c: Cache, a: Address, v: Account): Cache {
    Put(if c.Size() >= CACHE_SIZE_LIMIT then Delete(c, c.order[0]) else c, a, v)
  }

  lemma {:induction false} WithoutMembers(order: seq<Address>, a: Address)
    requires forall i, j | 0 <= i < j < |order| :: order[i] != order[j]
    ensures
      var r := Without(order, a);
      && (forall i, j | 0 <= i < j < |r| :: r[i] != r[j])
      && (forall x :: x in r <==> x in order && x != a)
      && |r| == if a in order then |order| - 1 else |order|
  {
    if |order| > 0 && order[0] != a {
      WithoutMembers(order[1..], a);
      var r := Without(order[1..], a);
      forall x | x in r ensures x != order[0] {
        assert x in order[1..];
      }
      assert order == [order[0]] + order[1..];
      assert forall j | 0 <= j < |r| :: r[j] in r;
    }
  }

  lemma EmptyCoherent(table: Ledger)
    ensures Coherent(EMPTY_CACHE, table)
  {
  }

  lemma DeleteValid(c: Cache, a: Address)
    requires c.Valid()
    ensures Delete(c, a).Valid() && Delete(c, a).Size() == c.Size() - if a in c.entries then 1 else 0
  {
    WithoutMembers(c.order, a);
  }

  lemma PutValid(c: Cache, a: Address, v: Account)
    requires c.Valid()
    ensures Put(c, a, v).Valid() && Put(c, a, v).Size() == c.Size() + if a in c.entries then 0 else 1
  {
  }

  lemma CountWithout(m: Ledger, a: Address)
    requires a in m
    ensures |m| == |m - {a}| + 1
  {
    assert m.Keys == (m - {a}).Keys + {a};
    assert |m| == |m.Keys| && |m - {a}| == |(m - {a}).Keys|;
  }

  /** The size is the number of entries. */
  lemma {:induction false} SizeIsCount(c: Cache)
    requires c.Valid()
    ensures c.Size() == |c.entries|
    decreases |c.order|
  {
    if |c.order| == 0 {
      assert c.entries == map[];
    } else {
      var a := c.order[0];
      assert a in c.order;
      DeleteValid(c, a);
      CountWithout(c.entries, a);
      hide Without;
      SizeIsCount(Delete(c, a));
    }
  }

  /** An entry that is found is the repository's. */
  lemma Hit(c: Cache, table: Ledger, a: Address)
    requires Coherent(c, table) && a in c.entries
    ensures a in table && table[a] == c.entries[a]
  {
  }

  /** Adding to a full cache evicts the oldest entry; whatever that was, the cache stays within
      its bound and agrees with a repository that holds the added account. */
  lemma AddCoherent(c: Cache, table: Ledger, a: Address, v: Account)
    requires Coherent(c, table)
    ensures Coherent(Add(c, a, v), table[a := v]) && a in Add(c, a, v).entries
  {
    if c.Size() >= CACHE_SIZE_LIMIT {
      assert c.order[0] in c.order;
      DeleteValid(c, c.order[0]);
      PutValid(Delete(c, c.order[0]), a, v);
    } else {
      PutValid(c, a, v);
    }
  }

  // ---------- Which entries are kept ----------

  lemma DeleteOldest(c: Cache)
    requires c.Valid() && |c.order| > 0
    ensures Delete(c, c.order[0]) == Cache(c.order[1..], c.entries - {c.order[0]}) && Delete(c, c.order[0]).Valid()
  {
    DeleteValid(c, c.order[0]);
  }

  /** A full cache loses its oldest entry, even if the added key is there already; a key that is new to
      what is left comes last. */
  lemma AddOrder(c: Cache, a: Address, v: Account)
    requires c.Valid()
    ensures
      var left := if |c.entries| >= 1000 then Cache(c.order[1..], c.entries - {c.order[0]}) else c;
      Add(c, a, v) == Cache(if a in left.entries then left.order else left.order + [a], left.entries[a := v])
  {
    SizeIsCount(c);
    if |c.entries| >= 1000 {
      DeleteOldest(c);
      hide Delete, Cache.Valid;
    }
  }

  function AddAll(c: Cache, adds: seq<(Address, Account)>): Cache {
    if |adds| == 0 then c
    else Add(AddAll(c, adds[..|adds| - 1]), adds[|adds| - 1].0, adds[|adds| - 1].1)
  }

  /** The cache holds just the last so many of the accounts that were added. */
  ghost predicate HoldsLast(c: Cache, adds: seq<(Address, Account)>, n: nat)
    requires n <= |adds|
  {
    && c.Valid() && |c.order| == n
    && forall k | 0 <= k < n ::
      var (a, v) := adds[|adds| - n + k];
      c.order[k] == a && a in c.entries && c.entries[a] == v
  }

  ghost predicate NewAddresses(adds: seq<(Address, Account)>) {
    forall i, j | 0 <= i < j < |adds| :: adds[i].0 != adds[j].0
  }

  lemma HoldsFewer(c: Cache, adds: seq<(Address, Account)>, n: nat)
    requires 0 < n <= |adds| && HoldsLast(c, adds, n)
    ensures HoldsLast(Delete(c, c.order[0]), adds, n - 1)
  {
    DeleteOldest(c);
  }

  lemma HoldsAdded(c: Cache, adds: seq<(Address, Account)>, n: nat, x: (Address, Account))
    requires n <= |adds| && HoldsLast(c, adds, n) && x.0 !in c.entries
    ensures HoldsLast(Put(c, x.0, x.1), adds + [x], n + 1)
  {
    PutValid(c, x.0, x.1);
  }

  lemma IsNew(c: Cache, adds: seq<(Address, Account)>, n: nat, x: (Address, Account))
    requires n <= |adds| && HoldsLast(c, adds, n) && NewAddresses(adds + [x])
    ensures x.0 !in c.entries
  {
    var all := adds + [x];
    forall k | 0 <= k < n ensures c.order[k] != x.0 {
      assert all[|adds| - n + k] == adds[|adds| - n + k] && all[|adds|] == x;
    }
  }

  lemma HoldsOneMore(c: Cache, adds: seq<(Address, Account)>, n: nat, x: (Address, Account))
    requires n <= |adds| && n <= 1000 && HoldsLast(c, adds, n) && NewAddresses(adds + [x])
    ensures HoldsLast(Add(c, x.0, x.1), adds + [x], if n == 1000 then 1000 else n + 1)
  {
    hide Put, Delete, NewAddresses, Cache.Valid;
    if n == 1000 {
      HoldsFewer(c, adds, n);
      IsNew(Delete(c, c.order[0]), adds, n - 1, x);
      HoldsAdded(Delete(c, c.order[0]), adds, n - 1, x);
    } else {
      IsNew(c, adds, n, x);
      HoldsAdded(c, adds, n, x);
    }
  }

  /** Of accounts with different addresses, added one after the other, it holds the last thousand. */
  lemma {:induction false} HoldsLatest(adds: seq<(Address, Account)>)
    requires NewAddresses(adds)
    ensures HoldsLast(AddAll(EMPTY_CACHE, adds), adds, if |adds| < 1000 then |adds| else 1000)
  {
    if |adds| > 0 {
      var init := adds[..|adds| - 1];
      HoldsLatest(init);
      assert init + [adds[|adds| - 1]] == adds;
      HoldsOneMore(AddAll(EMPTY_CACHE, init), init, if |init| < 1000 then |init| else 1000, adds[|adds| - 1]);
    }
  }

  lemma DeleteCoherent(c: Cache, table: Ledger, a: Address)
    requires Coherent(c, table)
    ensures Coherent(Delete(c, a), table)
  {
    DeleteValid(c, a);
  }
}
