/** The persistent account store: a flat table keyed by strings, a trie keyed by hashed
    addresses, and the root that names the trie's contents. */
module StateStore {
  import opened Types
  import opened Text

  const PREFIX := "account:"

  function DbKey(a: Address): string {
    PREFIX + a
  }

  /** The key range that is read back when the trie is rebuilt. */
  predicate InScan(key: string) {
    !LexLess(key, PREFIX) && LexLess(key, PREFIX + "~")
  }

  /** The addresses whose table entries lie in that range. */
  predicate Scannable(a: Address) {
    a == "" || a[0] < '~'
  }

  lemma {:induction false} LexLessAfter(p: string, a: string, b: string)
    ensures LexLess(p + a, p + b) <==> LexLess(a, b)
  {
    if |p| == 0 {
      assert p + a == a && p + b == b;
    } else {
      assert (p + a)[1..] == p[1..] + a && (p + b)[1..] == p[1..] + b;
      LexLessAfter(p[1..], a, b);
    }
  }

  lemma ScanIff(a: Address)
    ensures InScan(DbKey(a)) <==> Scannable(a)
    ensures |DbKey(a)| >= |PREFIX| && DbKey(a)[|PREFIX|..] == a
  {
    LexLessAfter(PREFIX, a, "");
    LexLessAfter(PREFIX, a, "~");
    assert PREFIX + "" == PREFIX;
  }

  lemma DbKeyInjective()
    ensures forall a, b :: DbKey(a) == DbKey(b) ==> a == b
  {
    forall a, b | DbKey(a) == DbKey(b) ensures a == b {
      ScanIff(a);
      ScanIff(b);
    }
  }

  /** The table that stores a ledger. */
  ghost function TableOf(c: Crypto, l: Ledger): map<string, string> {
    DbKeyInjective();
    map a | a in l :: DbKey(a) := c.encodeAccount(l[a])
  }

  /** The trie that mirrors a ledger. */
  ghost function TrieOf(c: Crypto, l: Ledger): map<Hash, string>
    requires c.Valid()
  {
    map a | a in l :: c.addressKey(a) := c.encodeAccount(l[a])
  }

  /** The state root of a ledger. */
  ghost function RootOf(c: Crypto, l: Ledger): Hash
    requires c.Valid()
  {
    c.trieRoot(TrieOf(c, l))
  }

  /** The part of a ledger that a rebuild reads back. */
  function Scanned(l: Ledger): Ledger {
    map a | a in l && Scannable(a) :: l[a]
  }

  lemma TrieOfUpdate(c: Crypto, l: Ledger, a: Address, v: Account)
    requires c.Valid()
    ensures TrieOf(c, l[a := v]) == TrieOf(c, l)[c.addressKey(a) := c.encodeAccount(v)]
  {
  }

  lemma EmptyTrie(c: Crypto)
    requires c.Valid()
    ensures TrieOf(c, map[]) == map[]
  {
  }

  ghost function KeysOf(l: Ledger): set<string> {
    set a | a in l :: DbKey(a)
  }

  lemma KeysOfOne(l: Ledger, key: string)
    ensures KeysOf(l) == {} ==> l == map[]
    ensures key in KeysOf(l) ==>
      && |key| >= |PREFIX| && key[|PREFIX|..] in l && DbKey(key[|PREFIX|..]) == key
      && KeysOf(l - {key[|PREFIX|..]}) == KeysOf(l) - {key}
  {
    if a :| a in l {
      assert DbKey(a) in KeysOf(l);
    }
    if key in KeysOf(l) {
      var a :| a in l && DbKey(a) == key;
      ScanIff(a);
      DbKeyInjective();
    }
  }

  /** The state of a rebuild: rest holds the keys still to be read, done what has been read. */
  ghost predicate Restoring(c: Crypto, l: Ledger, rest: set<string>, done: Ledger, trie: map<Hash, string>)
    requires c.Valid()
  {
    && done.Keys <= Scanned(l).Keys && (forall a | a in done :: done[a] == l[a])
    && rest == KeysOf(Scanned(l) - done.Keys)
    && trie == TrieOf(c, done)
  }

  lemma ScannedKeys(c: Crypto, l: Ledger)
    ensures (set k | k in TableOf(c, l) && InScan(k)) == KeysOf(Scanned(l))
  {
    forall a ensures InScan(DbKey(a)) <==> Scannable(a) {
      ScanIff(a);
    }
  }

  lemma RestoreStart(c: Crypto, l: Ledger)
    requires c.Valid()
    ensures Restoring(c, l, set k | k in TableOf(c, l) && InScan(k), map[], map[])
  {
    hide TableOf, TrieOf;
    ScannedKeys(c, l);
    var none: Ledger := map[];
    assert Scanned(l) - none.Keys == Scanned(l);
    EmptyTrie(c);
  }

  lemma RestoreStep(c: Crypto, l: Ledger, rest: set<string>, done: Ledger, trie: map<Hash, string>, key: string)
    requires c.Valid() && Restoring(c, l, rest, done, trie) && key in rest
    ensures |key| >= |PREFIX| && key[|PREFIX|..] in l && key in TableOf(c, l)
    ensures
      var a := key[|PREFIX|..];
      Restoring(c, l, rest - {key}, done[a := l[a]], trie[c.addressKey(a) := TableOf(c, l)[key]])
  {
    hide TableOf, TrieOf;
    var left := Scanned(l) - done.Keys;
    KeysOfOne(left, key);
    var a := key[|PREFIX|..];
    TableLookup(c, l, a);
    TrieOfUpdate(c, done, a, l[a]);
    assert left - {a} == Scanned(l) - done[a := l[a]].Keys;
  }

  lemma RestoreEnd(c: Crypto, l: Ledger, done: Ledger, trie: map<Hash, string>)
    requires c.Valid() && Restoring(c, l, {}, done, trie)
    ensures trie == TrieOf(c, Scanned(l))
  {
    hide TableOf, TrieOf;
    KeysOfOne(Scanned(l) - done.Keys, "");
    assert forall a | a in Scanned(l) :: a in done || a in Scanned(l) - done.Keys;
    assert done == Scanned(l);
  }

  lemma TableLookup(c: Crypto, l: Ledger, a: Address)
    requires c.Valid()
    ensures DbKey(a) in TableOf(c, l) <==> a in l
    ensures a in l ==> TableOf(c, l)[DbKey(a)] == c.encodeAccount(l[a])
    ensures a in l && l[a].balance >= 0 ==> c.decodeAccount(TableOf(c, l)[DbKey(a)]) == l[a]
  {
    DbKeyInjective();
    if a in l && l[a].balance >= 0 {
      assert TableOf(c, l)[DbKey(a)] == c.encodeAccount(l[a]);
    }
  }

  lemma TableOfUpdate(c: Crypto, l: Ledger, a: Address, v: Account)
    ensures TableOf(c, l[a := v]) == TableOf(c, l)[DbKey(a) := c.encodeAccount(v)]
  {
    DbKeyInjective();
  }

  /** Rebuilding the trie from the table restores contents and root exactly when every stored
      address lies in the scanned range, as every address that starts with "0x" does. */
  lemma RebuildIff(c: Crypto, l: Ledger)
    requires c.Valid()
    ensures RootOf(c, Scanned(l)) == RootOf(c, l) <==> forall a | a in l :: Scannable(a)
    ensures RootOf(c, Scanned(l)) == RootOf(c, l) <==> TrieOf(c, Scanned(l)) == TrieOf(c, l)
    ensures (forall a | a in l :: Prefixed(a)) ==> RootOf(c, Scanned(l)) == RootOf(c, l)
  {
    if forall a | a in l :: Scannable(a) {
      assert Scanned(l) == l;
    } else {
      var a :| a in l && !Scannable(a);
      assert c.addressKey(a) in TrieOf(c, l);
      assert c.addressKey(a) !in TrieOf(c, Scanned(l));
    }
  }

  class StateRepository {
    const crypto: Crypto
    var db: map<string, string>
    var trie: map<Hash, string>
    var currentRoot: Hash
    /** The ledger that the table holds. */
    ghost var ledger: Ledger

    /** The table and the trie hold the same ledger, and the root names the trie. */
    ghost predicate Valid()
      reads this
    {
      && crypto.Valid()
      && db == TableOf(crypto, ledger)
      && trie == TrieOf(crypto, ledger)
      && currentRoot == RootOf(crypto, ledger)
      && (forall a | a in ledger :: ledger[a].balance >= 0)
    }

    constructor (c: Crypto)
      requires c.Valid()
      ensures Valid() && ledger == map[] && crypto == c
    {
      crypto := c;
      db, trie, ledger := map[], map[], map[];
      currentRoot := c.trieRoot(map[]);
      new;
      assert db == TableOf(c, map[]);
      assert trie == TrieOf(c, map[]);
    }

    method GetAccount(address: Address) returns (account: Option<Account>)
      requires Valid()
      ensures account == if address in ledger then Some(ledger[address]) else None
    {
      hide TableOf, TrieOf;
      TableLookup(crypto, ledger, address);
      var key := DbKey(address);
      if key !in db {
        return None;
      }
      return Some(crypto.decodeAccount(db[key]));
    }

    /** The encoder refuses a negative balance, before anything is written. */
    method SaveAccount(address: Address, account: Account) returns (thrown: bool)
      requires Valid()
      modifies this
      ensures Valid() && (thrown <==> account.balance < 0)
      ensures ledger == if thrown then old(ledger) else old(ledger)[address := account]
    {
      hide TableOf, TrieOf;
      if account.balance < 0 {
        return true;
      }
      var value := crypto.encodeAccount(account);
      TrieOfUpdate(crypto, ledger, address, account);
      TableOfUpdate(crypto, ledger, address, account);
      trie := trie[crypto.addressKey(address) := value];
      db := db[DbKey(address) := value];
      ledger := ledger[address := account];
      currentRoot := crypto.trieRoot(trie);
      return false;
    }

    method GetStateRoot() returns (root: Hash)
      requires Valid()
      ensures root == RootOf(crypto, ledger)
    {
      root := currentRoot;
    }

    /** Rebuilds the trie by reading the table back in any order. The requested root is not
        used: what counts is what the table holds. */
    method SetStateRoot(root: Hash)
      requires Valid()
      modifies this
      ensures db == old(db) && ledger == old(ledger)
      ensures trie == TrieOf(crypto, Scanned(ledger)) && currentRoot == RootOf(crypto, Scanned(ledger))
      ensures (forall a | a in ledger :: Scannable(a)) ==>
        Valid() && trie == old(trie) && currentRoot == old(currentRoot)
    {
      hide TableOf, TrieOf;
      currentRoot := root;
      trie := map[];
      var rest := set k | k in db && InScan(k);
      ghost var done: Ledger := map[];
      RestoreStart(crypto, ledger);
      while rest != {}
        invariant db == old(db) && ledger == old(ledger)
        invariant Restoring(crypto, ledger, rest, done, trie)
        decreases |rest|
      {
        var key :| key in rest;
        RestoreStep(crypto, ledger, rest, done, trie, key);
        var address := key[|PREFIX|..];
        trie := trie[crypto.addressKey(address) := db[key]];
        done := done[address := ledger[address]];
        rest := rest - {key};
      }
      RestoreEnd(crypto, ledger, done, trie);
      currentRoot := crypto.trieRoot(trie);
      RebuildIff(crypto, ledger);
    }
  }
}
