/** The order in which a block takes its transactions: the comparator of the pool, exactly
    when it is a strict total order, and why the sorted list then has only one form. */
module PendingOrder {
  import opened Types
  import opened Text

  // ---------- The comparator ----------

  /** Highest gas price first; then one sender's transactions by nonce; then by hash. */
  function Compare(a: Tx, b: Tx): int {
    if b.payload.gasPrice > a.payload.gasPrice then 1
    else if b.payload.gasPrice < a.payload.gasPrice then -1
    else if a.from == b.from then a.Nonce() - b.Nonce()
    else LocaleCompare(a.hash, b.hash)
  }

  predicate Before(a: Tx, b: Tx) {
    Compare(a, b) < 0
  }

  ghost predicate StrictTotalOrder(s: set<Tx>) {
    && (forall a, b | a in s && b in s :: !(Before(a, b) && Before(b, a)))
    && (forall a, b | a in s && b in s && a != b :: Before(a, b) || Before(b, a))
    && (forall a, b, c | a in s && b in s && c in s && Before(a, b) && Before(b, c) :: Before(a, c))
  }

  /** Two transactions the comparator cannot tell apart. */
  predicate Tie(a: Tx, b: Tx) {
    && a != b
    && a.payload.gasPrice == b.payload.gasPrice
    && if a.from == b.from then a.Nonce() == b.Nonce() else a.hash == b.hash
  }

  /** The nonce rule puts a before b, while the hash rule puts b before c before a. */
  predicate Inversion(a: Tx, b: Tx, c: Tx) {
    && a.payload.gasPrice == b.payload.gasPrice == c.payload.gasPrice
    && a.from == b.from != c.from
    && a.Nonce() < b.Nonce()
    && LexLess(b.hash, c.hash) && LexLess(c.hash, a.hash)
  }

  ghost predicate Consistent(s: set<Tx>) {
    && (forall a, b | a in s && b in s :: !Tie(a, b))
    && (forall a, b, c | a in s && b in s && c in s :: !Inversion(a, b, c))
  }

  lemma BeforeAsymmetric(a: Tx, b: Tx)
    ensures !(Before(a, b) && Before(b, a))
    ensures a != b && !Tie(a, b) ==> Before(a, b) || Before(b, a)
  {
    LexLessTotal(a.hash, b.hash);
  }

  lemma BeforeTransitive(s: set<Tx>, a: Tx, b: Tx, c: Tx)
    requires Consistent(s) && a in s && b in s && c in s
    requires Before(a, b) && Before(b, c)
    ensures Before(a, c)
  {
    BeforeAsymmetric(a, b);
    assert !Tie(a, c) && !Tie(c, a);
    assert !Inversion(a, b, c) && !Inversion(b, c, a) && !Inversion(c, a, b);
    if !Before(a, c) && a.payload.gasPrice == b.payload.gasPrice == c.payload.gasPrice {
      BeforeAsymmetric(a, c);
      LexLessTotal(a.hash, b.hash);
      LexLessTotal(b.hash, c.hash);
      LexLessTotal(a.hash, c.hash);
      if a.from != b.from && b.from != c.from {
        LexLessTransitive(a.hash, b.hash, c.hash);
      }
    }
  }

  /** The comparator is a strict total order on a set of transactions exactly when the set has
      no tie and no inversion. */
  lemma ComparatorIsOrderIff(s: set<Tx>)
    ensures StrictTotalOrder(s) <==> Consistent(s)
  {
    if Consistent(s) {
      forall a, b | a in s && b in s
        ensures !(Before(a, b) && Before(b, a)) && (a != b ==> Before(a, b) || Before(b, a))
      {
        BeforeAsymmetric(a, b);
        assert !Tie(a, b);
      }
      forall a, b, c | a in s && b in s && c in s && Before(a, b) && Before(b, c) ensures Before(a, c) {
        BeforeTransitive(s, a, b, c);
      }
    }
    if StrictTotalOrder(s) {
      forall a, b | a in s && b in s ensures !Tie(a, b) {
        LexLessTotal(a.hash, b.hash);
      }
      forall a, b, c | a in s && b in s && c in s ensures !Inversion(a, b, c) {
        assert Before(a, b) && Before(b, c) ==> !Before(c, a);
        LexLessTotal(b.hash, c.hash);
        LexLessTotal(c.hash, a.hash);
      }
    }
  }

  /** With two transactions of one sender the nonce rule and the hash rule can run in a circle. */
  lemma ComparatorCanCycle(sig: Signature)
    ensures exists a, b, c :: Before(a, b) && Before(b, c) && Before(c, a)
  {
    var first := Tx("0xaa", Payload(0, 1, 21000, Some("0xbb"), 1, "0x"), sig, "0x3");
    var second := Tx("0xaa", Payload(1, 1, 21000, Some("0xbb"), 1, "0x"), sig, "0x1");
    var other := Tx("0xcc", Payload(0, 1, 21000, Some("0xbb"), 1, "0x"), sig, "0x2");
    assert LexLess(second.hash[2..], other.hash[2..]) && LexLess(other.hash[2..], first.hash[2..]);
    assert LexLess(second.hash[1..], other.hash[1..]) && LexLess(other.hash[1..], first.hash[1..]);
    assert Before(first, second) && Before(second, other) && Before(other, first);
  }

  // ---------- Sorting ----------

  function Insert(t: Tx, s: seq<Tx>): (r: seq<Tx>)
    ensures multiset(r) == multiset(s) + multiset{t}
  {
    if |s| == 0 || Before(t, s[0]) then [t] + s
    else
      assert s == [s[0]] + s[1..];
      [s[0]] + Insert(t, s[1..])
  }

  /** The library sort, applied with the comparator. */
  function Sort(s: seq<Tx>): (r: seq<Tx>)
    ensures multiset(r) == multiset(s)
  {
    if |s| == 0 then []
    else
      assert s == s[..|s| - 1] + [s[|s| - 1]];
      Insert(s[|s| - 1], Sort(s[..|s| - 1]))
  }

  ghost predicate Sorted(s: seq<Tx>) {
    forall i, j | 0 <= i < j < |s| :: Before(s[i], s[j])
  }

  /** s lists the members of txs once each, in the comparator's order. */
  ghost predicate IsOrder(s: seq<Tx>, txs: set<Tx>) {
    multiset(s) == multiset(txs) && Sorted(s)
  }

  lemma {:induction false} InsertSorts(t: Tx, s: seq<Tx>, txs: set<Tx>)
    requires StrictTotalOrder(txs) && t in txs && t !in s && (forall x | x in s :: x in txs)
    requires Sorted(s)
    ensures Sorted(Insert(t, s))
  {
    if |s| > 0 && !Before(t, s[0]) {
      assert s[0] in s;
      InsertSorts(t, s[1..], txs);
      var r := Insert(t, s[1..]);
      forall x | x in r ensures Before(s[0], x) {
        assert x in multiset(r);
        assert x == t || x in s[1..];
      }
    } else {
      forall x | x in s ensures Before(t, x) {
        var i :| 0 <= i < |s| && s[i] == x;
        assert s[0] in s;
      }
    }
  }

  lemma SameElements(s: seq<Tx>, t: seq<Tx>)
    requires multiset(s) == multiset(t)
    ensures forall x :: x in s <==> x in t
  {
    forall x ensures x in s <==> x in t {
      assert x in s <==> x in multiset(s);
      assert x in t <==> x in multiset(t);
    }
  }

  lemma {:induction false} SortSorts(s: seq<Tx>, txs: set<Tx>)
    requires StrictTotalOrder(txs) && (forall x | x in s :: x in txs)
    requires forall i, j | 0 <= i < j < |s| :: s[i] != s[j]
    ensures Sorted(Sort(s))
  {
    if |s| > 0 {
      var init, last := s[..|s| - 1], s[|s| - 1];
      SortSorts(init, txs);
      SameElements(Sort(init), init);
      InsertSorts(last, Sort(init), txs);
    }
  }

  /** The members of a set, in some order. */
  ghost function Listing(txs: set<Tx>): (s: seq<Tx>)
    ensures multiset(s) == multiset(txs)
    ensures forall i, j | 0 <= i < j < |s| :: s[i] != s[j]
    ensures forall x :: x in s <==> x in txs
  {
    if txs == {} then []
    else
      var t :| t in txs;
      assert multiset(txs) == multiset(txs - {t}) + multiset{t};
      Listing(txs - {t}) + [t]
  }

  /** The order in which a block executes a set of pending transactions. */
  ghost function Ordered(txs: set<Tx>): (s: seq<Tx>)
    ensures multiset(s) == multiset(txs)
  {
    Sort(Listing(txs))
  }

  /** On a set where the comparator is an order there is exactly one sorted listing, so the
      order in which transactions entered the pool cannot matter. */
  lemma OrderUnique(txs: set<Tx>, s: seq<Tx>)
    requires StrictTotalOrder(txs)
    ensures IsOrder(s, txs) <==> s == Ordered(txs)
  {
    SortSorts(Listing(txs), txs);
    if IsOrder(s, txs) {
      SameOrder(s, Ordered(txs));
    }
  }

  // ---------- What the order means ----------

  /** No transaction offers a higher gas price than one before it. */
  ghost predicate PricesFall(s: seq<Tx>) {
    forall i, j | 0 <= i < j < |s| :: s[i].payload.gasPrice >= s[j].payload.gasPrice
  }

  /** At one price the nonces of a sender rise, and so do the hashes of different senders. */
  ghost predicate TiesRanked(s: seq<Tx>) {
    forall i, j | 0 <= i < j < |s| && s[i].payload.gasPrice == s[j].payload.gasPrice ::
      if s[i].from == s[j].from then s[i].payload.nonce < s[j].payload.nonce else LexLess(s[i].hash, s[j].hash)
  }

  /** Sorted is just that: prices fall, and ties are ranked by nonce and by hash. */
  lemma SortedIff(s: seq<Tx>)
    ensures Sorted(s) <==> PricesFall(s) && TiesRanked(s)
  {
    hide LexLess;
    if Sorted(s) {
      forall i, j | 0 <= i < j < |s|
        ensures s[i].payload.gasPrice >= s[j].payload.gasPrice
        ensures s[i].payload.gasPrice == s[j].payload.gasPrice ==>
          if s[i].from == s[j].from then s[i].payload.nonce < s[j].payload.nonce else LexLess(s[i].hash, s[j].hash)
      {
        assert Before(s[i], s[j]);
      }
    }
    if PricesFall(s) && TiesRanked(s) {
      forall i, j | 0 <= i < j < |s| ensures Before(s[i], s[j]) {
        LexLessTotal(s[i].hash, s[j].hash);
      }
    }
  }

  lemma {:induction false} InsertPrices(t: Tx, s: seq<Tx>)
    requires PricesFall(s)
    ensures PricesFall(Insert(t, s))
  {
    hide LexLess, PricesFall;
    if |s| > 0 && !Before(t, s[0]) {
      PricesSplit(s);
      InsertPrices(t, s[1..]);
      var r := Insert(t, s[1..]);
      forall x | x in r ensures s[0].payload.gasPrice >= x.payload.gasPrice {
        assert x in multiset(r);
        assert x == t || x in s[1..];
      }
      PricesGrow(s[0], r);
    } else if |s| > 0 {
      PricesSplit(s);
      PricesGrow(t, s);
    } else {
      PricesGrow(t, s);
    }
  }

  lemma PricesSplit(s: seq<Tx>)
    requires |s| > 0 && PricesFall(s)
    ensures PricesFall(s[1..]) && forall x | x in s :: s[0].payload.gasPrice >= x.payload.gasPrice
  {
  }

  lemma PricesGrow(t: Tx, s: seq<Tx>)
    requires |s| > 0 ==> PricesFall(s) && forall x | x in s :: t.payload.gasPrice >= x.payload.gasPrice
    ensures PricesFall([t] + s)
  {
    assert forall i | 0 < i < |[t] + s| :: ([t] + s)[i] == s[i - 1] && s[i - 1] in s;
  }

  /** The prices of a sorted list fall even where the comparator is no order. */
  lemma {:induction false} SortPrices(s: seq<Tx>)
    ensures PricesFall(Sort(s))
  {
    if |s| > 0 {
      SortPrices(s[..|s| - 1]);
      InsertPrices(s[|s| - 1], Sort(s[..|s| - 1]));
    }
  }

  /** A block takes the transactions with the highest gas price first; at one price a sender's by nonce
      and those of different senders by hash, as far as the comparator orders them. */
  lemma OrderedMeans(txs: set<Tx>)
    ensures PricesFall(Ordered(txs))
    ensures StrictTotalOrder(txs) ==> TiesRanked(Ordered(txs))
  {
    SortPrices(Listing(txs));
    if StrictTotalOrder(txs) {
      OrderUnique(txs, Ordered(txs));
      SortedIff(Ordered(txs));
    }
  }

  lemma SameHead(s: seq<Tx>, t: seq<Tx>)
    requires multiset(s) == multiset(t) && Sorted(s) && Sorted(t) && |s| > 0
    ensures |t| > 0 && s[0] == t[0]
  {
    SameElements(s, t);
    assert s[0] in t;
    var i :| 0 <= i < |t| && t[i] == s[0];
    assert t[0] in s;
    var j :| 0 <= j < |s| && s[j] == t[0];
    BeforeAsymmetric(s[0], t[0]);
  }

  lemma WithoutHead(s: seq<Tx>)
    requires |s| > 0 && Sorted(s)
    ensures multiset(s[1..]) == multiset(s) - multiset{s[0]} && Sorted(s[1..])
  {
    assert s == [s[0]] + s[1..];
  }

  lemma {:induction false} SameOrder(s: seq<Tx>, t: seq<Tx>)
    requires multiset(s) == multiset(t) && Sorted(s) && Sorted(t)
    ensures s == t
    decreases |s|
  {
    if |s| == 0 {
      assert |t| == |multiset(t)| == 0;
    } else {
      SameHead(s, t);
      WithoutHead(s);
      WithoutHead(t);
      SameOrder(s[1..], t[1..]);
      assert s == [s[0]] + s[1..] && t == [s[0]] + t[1..];
    }
  }

  /** Every list of the same transactions, sorted, is that one list. */
  lemma SortIsOrdered(s: seq<Tx>, txs: set<Tx>)
    requires StrictTotalOrder(txs) && multiset(s) == multiset(txs)
    ensures Sort(s) == Ordered(txs)
  {
    DistinctElements(s, txs);
    assert forall x | x in s :: x in multiset(s) && x in txs;
    SortSorts(s, txs);
    OrderUnique(txs, Sort(s));
  }

  lemma DistinctElements(s: seq<Tx>, txs: set<Tx>)
    requires multiset(s) == multiset(txs)
    ensures forall i, j | 0 <= i < j < |s| :: s[i] != s[j]
    ensures forall x :: x in s <==> x in txs
  {
    forall x ensures x in s <==> x in txs {
      assert x in s <==> x in multiset(s);
    }
    forall i, j | 0 <= i < j < |s| ensures s[i] != s[j] {
      assert s == s[..j] + s[j..];
      assert multiset(s) == multiset(s[..j]) + multiset(s[j..]);
      assert s[i] in s[..j] && s[j] in s[j..];
      assert multiset(s)[s[i]] <= 1;
    }
  }
}
