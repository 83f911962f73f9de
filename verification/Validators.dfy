/** Choosing the proposer and the committee of a slot by a seeded generator. */
module Validators {
  import opened Types
  import opened Numerals
  import opened Consensus

  const COMMITTEE_SIZE := 128
  const MULTIPLIER := 48271
  const MODULUS := 2147483647
  /** The inverse of the multiplier. */
  const INVERSE := 1899818559

  datatype Validator = Validator(address: Address, isActive: bool)

  // ---------- The generator ----------

  function NextSeed(seed: nat): nat {
    seed * MULTIPLIER % MODULUS
  }

  function PreviousSeed(seed: nat): nat {
    seed * INVERSE % MODULUS
  }

  /** Multiplying by one factor and then by the other, reducing in between, changes nothing. */
  lemma ThereAndBack(seed: nat, first: nat, second: nat)
    requires seed < MODULUS && first * second == 42704 * MODULUS + 1
    ensures seed * first % MODULUS * second % MODULUS == seed
  {
    var q, r := seed * first / MODULUS, seed * first % MODULUS;
    assert seed * first == q * MODULUS + r;
    Expand(seed, first, second, q, r);
    Remainder(r * second, 42704 * seed - q * second, MODULUS, seed);
  }

  lemma Expand(seed: int, first: int, second: int, q: int, r: int)
    requires seed * first == q * MODULUS + r && first * second == 42704 * MODULUS + 1
    ensures r * second == (42704 * seed - q * second) * MODULUS + seed
  {
    assert seed * first * second == seed * (first * second);
    assert (q * MODULUS + r) * second == q * second * MODULUS + r * second;
  }

  /** The step is a bijection of the numbers below the modulus: it has an inverse on both sides. */
  lemma SeedBijection(seed: nat)
    requires seed < MODULUS
    ensures PreviousSeed(NextSeed(seed)) == seed && NextSeed(PreviousSeed(seed)) == seed
    ensures NextSeed(seed) < MODULUS && PreviousSeed(seed) < MODULUS
  {
    ThereAndBack(seed, MULTIPLIER, INVERSE);
    ThereAndBack(seed, INVERSE, MULTIPLIER);
  }

  /** The seed after n steps. */
  function SeedAfter(seed: nat, n: nat): nat {
    if n == 0 then seed else NextSeed(SeedAfter(seed, n - 1))
  }

  lemma NextIsZeroIff(seed: nat)
    ensures NextSeed(seed) == 0 <==> seed % MODULUS == 0
    ensures NextSeed(seed) < MODULUS
  {
    var q, r := seed / MODULUS, seed % MODULUS;
    ReduceFirst(seed, q, r);
    SeedBijection(r);
    if NextSeed(r) == 0 {
      assert r == PreviousSeed(0) == 0;
    }
  }

  /** However many steps follow, the generator is stuck at zero exactly if the seed it was given is
      a multiple of the modulus. */
  lemma {:induction false} SeedNeverCollapses(seed: nat, n: nat)
    requires n > 0
    ensures SeedAfter(seed, n) == 0 <==> seed % MODULUS == 0
  {
    NextIsZeroIff(SeedAfter(seed, n - 1));
    if n > 1 {
      SeedNeverCollapses(seed, n - 1);
      NextIsZeroIff(SeedAfter(seed, n - 2));
      SmallRemainder(SeedAfter(seed, n - 1));
    }
  }

  lemma SmallRemainder(x: nat)
    requires x < MODULUS
    ensures x % MODULUS == x
  {
  }

  lemma ReduceFirst(seed: nat, q: nat, r: nat)
    requires seed == q * MODULUS + r && r < MODULUS
    ensures NextSeed(seed) == NextSeed(r)
  {
    var p := r * MULTIPLIER / MODULUS;
    assert r * MULTIPLIER == p * MODULUS + NextSeed(r);
    Remainder(seed * MULTIPLIER, q * MULTIPLIER + p, MODULUS, NextSeed(r));
  }

  function Power(x: nat, n: nat): nat {
    if n == 0 then 1 else x * Power(x, n - 1)
  }

  /** After n steps the seed has been multiplied n times, whatever was reduced in between. */
  lemma {:induction false} SeedIsPower(seed: nat, n: nat)
    requires n > 0
    ensures SeedAfter(seed, n) == seed * Power(48271, n) % 2147483647
  {
    if n == 1 {
      assert Power(48271, 1) == 48271 * Power(48271, 0) == 48271;
      assert SeedAfter(seed, 1) == NextSeed(SeedAfter(seed, 0));
    } else {
      SeedIsPower(seed, n - 1);
      var x := seed * Power(48271, n - 1);
      ReduceFirst(x, x / MODULUS, x % MODULUS);
      assert NextSeed(x) == x * 48271 % 2147483647;
      Regroup(seed, Power(48271, n - 1));
      hide Power, NextSeed;
    }
  }

  lemma Regroup(seed: nat, p: nat)
    ensures seed * p * 48271 == seed * (48271 * p)
  {
  }

  // ---------- Exchanging cells ----------

  /** The second list is the first with two cells exchanged. */
  ghost predicate Exchanged<T>(before: seq<T>, after: seq<T>, i: nat, j: nat) {
    && |after| == |before| && i < |before| && j < |before|
    && after[i] == before[j] && after[j] == before[i]
    && forall x | 0 <= x < |before| && x != i && x != j :: after[x] == before[x]
  }

  /** Step k goes from list k to the next one: it exchanges the last cell but k with one that is not
      behind it. */
  ghost predicate StepBy<T>(states: seq<seq<T>>, js: seq<nat>, n: nat, k: nat)
    requires k + 1 < |states| && k < |js|
  {
    js[k] + k < n && Exchanged(states[k], states[k + 1], n - 1 - k, js[k])
  }

  /** The lists that a Fisher-Yates shuffle of s goes through when js are the cells it picks. */
  ghost predicate Runs<T>(s: seq<T>, js: seq<nat>, states: seq<seq<T>>) {
    && |states| == |js| + 1 && states[0] == s
    && |js| == (if |s| == 0 then 0 else |s| - 1)
    && forall k: nat | k < |js| :: StepBy(states, js, |s|, k)
  }

  lemma {:induction false} RunKeepsLength<T>(s: seq<T>, js: seq<nat>, states: seq<seq<T>>, k: nat)
    requires Runs(s, js, states) && k < |states|
    ensures |states[k]| == |s|
  {
    if k > 0 {
      RunKeepsLength(s, js, states, k - 1);
      assert StepBy(states, js, |s|, k - 1);
    }
  }

  /** What step k puts into its cell stays there. */
  lemma {:induction false} CellSettles<T>(s: seq<T>, js: seq<nat>, states: seq<seq<T>>, k: nat, m: nat)
    requires Runs(s, js, states) && k < m < |states|
    ensures |states[k]| == |states[m]| == |s| && js[k] < |s| - k
    ensures states[m][|s| - 1 - k] == states[k][js[k]]
  {
    RunKeepsLength(s, js, states, k);
    RunKeepsLength(s, js, states, m);
    assert StepBy(states, js, |s|, m - 1);
    if m > k + 1 {
      CellSettles(s, js, states, k, m - 1);
    }
  }

  lemma ExchangeKeepsDifferent<T>(before: seq<T>, after: seq<T>, i: nat, j: nat)
    requires Exchanged(before, after, i, j) && Distinct(before)
    ensures Distinct(after)
  {
  }

  lemma SameExchange<T>(before: seq<T>, after: seq<T>, other: seq<T>, i: nat, j: nat)
    requires Exchanged(before, after, i, j) && Exchanged(before, other, i, j)
    ensures after == other
  {
  }

  /** Two shuffles of different elements that end alike have gone the same way. */
  lemma {:induction false} SameWay<T>(s: seq<T>, js: seq<nat>, states: seq<seq<T>>, ks: seq<nat>,
                                      others: seq<seq<T>>, k: nat)
    requires Distinct(s) && Runs(s, js, states) && Runs(s, ks, others)
    requires states[|js|] == others[|ks|] && k <= |js|
    ensures js[..k] == ks[..k] && states[k] == others[k] && Distinct(states[k])
  {
    hide Distinct, Exchanged;
    if k > 0 {
      var i := k - 1;
      SameWay(s, js, states, ks, others, i);
      CellSettles(s, js, states, i, |js|);
      CellSettles(s, ks, others, i, |ks|);
      SameCell(states[i], js[i], ks[i]);
      assert StepBy(states, js, |s|, i) && StepBy(others, ks, |s|, i);
      SameExchange(states[i], states[k], others[k], |s| - 1 - i, js[i]);
      ExchangeKeepsDifferent(states[i], states[k], |s| - 1 - i, js[i]);
      assert js[..k] == js[..i] + [js[i]] && ks[..k] == ks[..i] + [ks[i]];
    }
  }

  lemma SameCell<T>(s: seq<T>, i: nat, j: nat)
    requires Distinct(s) && i < |s| && j < |s| && s[i] == s[j]
    ensures i == j
  {
  }

  /** On different elements, different choices of cells end in different orders. */
  lemma ChoicesMatter<T>(s: seq<T>, js: seq<nat>, states: seq<seq<T>>, ks: seq<nat>, others: seq<seq<T>>)
    requires Distinct(s) && Runs(s, js, states) && Runs(s, ks, others)
    ensures states[|js|] == others[|ks|] ==> js == ks
  {
    hide Distinct, StepBy;
    assert js[..|js|] == js && ks[..|ks|] == ks;
    if states[|js|] == others[|ks|] {
      SameWay(s, js, states, ks, others, |js|);
    }
  }

  // ---------- Shuffling ----------

  /** The cells that the generator picks for a list of n elements. */
  function Picks(seed: nat, n: nat): (js: seq<nat>)
    ensures |js| == if n == 0 then 0 else n - 1
  {
    if n == 0 then [] else seq(n - 1, k requires 0 <= k < n - 1 => SeedAfter(seed, k + 1) % (n - k))
  }

  /** r is the last of the lists that the shuffle of s goes through. */
  ghost predicate IsShuffle<T(!new)>(s: seq<T>, seed: nat, r: seq<T>) {
    exists states :: Runs(s, Picks(seed, |s|), states) && r == states[|states| - 1]
  }

  function Swap<T>(s: seq<T>, i: nat, j: nat): seq<T>
    requires i < |s| && j < |s|
  {
    s[i := s[j]][j := s[i]]
  }

  /** The shuffle from index i downwards. */
  function ShuffleFrom<T>(s: seq<T>, seed: nat, i: nat): (r: seq<T>)
    requires i < |s| || i == 0
    ensures |r| == |s|
    decreases i
  {
    if i == 0 then s
    else
      var next := NextSeed(seed);
      ShuffleFrom(Swap(s, i, next % (i + 1)), next, i - 1)
  }

  function Shuffled<T>(s: seq<T>, seed: nat): (r: seq<T>)
    ensures |r| == |s|
  {
    if |s| == 0 then s else ShuffleFrom(s, seed, |s| - 1)
  }

  /** Fisher-Yates in place on a copy. */
  method Shuffle<T(0, !new)>(s: seq<T>, seed: nat) returns (result: seq<T>)
    ensures result == Shuffled(s, seed)
    ensures IsShuffle(s, seed, result)
    ensures |s| > 0 ==> |result| == |s| && result[|s| - 1] == s[seed * 48271 % 2147483647 % |s|]
  {
    ShuffledRuns(s, seed);
    hide IsShuffle;
    var a := new T[|s|](i requires 0 <= i < |s| => s[i]);
    assert a[..] == s;
    var currentSeed: nat := seed;
    var i := |s| - 1;
    while i > 0
      invariant -1 <= i < |s| && (|s| > 0 ==> 0 <= i)
      invariant if i >= 0 then ShuffleFrom(a[..], currentSeed, i) == Shuffled(s, seed) else a[..] == s
    {
      currentSeed := NextSeed(currentSeed);
      var j := currentSeed % (i + 1);
      ghost var before := a[..];
      a[i], a[j] := a[j], a[i];
      assert a[..] == Swap(before, i, j);
      i := i - 1;
    }
    result := a[..];
  }

  /** The shuffle is Fisher-Yates by the generator's picks, and ends with the cell picked first. */
  lemma ShuffledRuns<T(!new)>(s: seq<T>, seed: nat)
    ensures IsShuffle(s, seed, Shuffled(s, seed))
    ensures |s| > 0 ==> Shuffled(s, seed)[|s| - 1] == s[seed * 48271 % 2147483647 % |s|]
  {
    if |s| == 0 {
      assert Runs(s, Picks(seed, |s|), [s]);
    } else {
      var states := TraceFrom(s, seed, [s]);
      LastCell(s, seed, states);
    }
  }

  lemma {:induction false} TraceFrom<T>(s: seq<T>, seed: nat, states: seq<seq<T>>) returns (all: seq<seq<T>>)
    requires 0 < |states| <= |s| && states[0] == s && |states[|states| - 1]| == |s|
    requires forall k: nat | k < |states| - 1 :: StepBy(states, Picks(seed, |s|), |s|, k)
    requires ShuffleFrom(states[|states| - 1], SeedAfter(seed, |states| - 1), |s| - |states|) == Shuffled(s, seed)
    ensures Runs(s, Picks(seed, |s|), all) && all[|all| - 1] == Shuffled(s, seed)
    decreases |s| - |states|
  {
    hide StepBy, Swap, ShuffleFrom, SeedAfter, Exchanged, Shuffled, Picks;
    if |states| == |s| {
      ShuffleEnds(states[|states| - 1], SeedAfter(seed, |states| - 1));
      all := states;
    } else {
      var m := |states|;
      var i, last := |s| - m, states[m - 1];
      var j := Picks(seed, |s|)[m - 1];
      PickAt(seed, |s|, m - 1);
      var next := Swap(last, i, j);
      SwapExchanges(last, i, j);
      ShuffleStep(last, seed, m, i);
      OneMoreState(states, Picks(seed, |s|), |s|, next);
      all := TraceFrom(s, seed, states + [next]);
    }
  }

  lemma PickAt(seed: nat, n: nat, k: nat)
    requires k + 1 < n
    ensures Picks(seed, n)[k] == SeedAfter(seed, k + 1) % (n - k) && Picks(seed, n)[k] < n - k
  {
    hide SeedAfter;
  }

  lemma ShuffleEnds<T>(s: seq<T>, seed: nat)
    ensures ShuffleFrom(s, seed, 0) == s
  {
  }

  lemma ShuffleStep<T>(s: seq<T>, seed: nat, m: nat, i: nat)
    requires 0 < i < |s| && m > 0
    ensures
      var j := SeedAfter(seed, m) % (i + 1);
      && |Swap(s, i, j)| == |s|
      && ShuffleFrom(s, SeedAfter(seed, m - 1), i) == ShuffleFrom(Swap(s, i, j), SeedAfter(seed, m), i - 1)
  {
    assert SeedAfter(seed, m) == NextSeed(SeedAfter(seed, m - 1));
    hide SeedAfter, NextSeed;
  }

  lemma SwapExchanges<T>(s: seq<T>, i: nat, j: nat)
    requires i < |s| && j < |s|
    ensures Exchanged(s, Swap(s, i, j), i, j)
  {
  }

  lemma OneMoreState<T>(states: seq<seq<T>>, js: seq<nat>, n: nat, next: seq<T>)
    requires 0 < |states| <= |js| && js[|states| - 1] + |states| <= n
    requires Exchanged(states[|states| - 1], next, n - |states|, js[|states| - 1])
    requires forall k: nat | k < |states| - 1 :: StepBy(states, js, n, k)
    ensures forall k: nat | k < |states| :: StepBy(states + [next], js, n, k)
  {
    forall k: nat | k < |states| ensures StepBy(states + [next], js, n, k) {
      if k < |states| - 1 {
        assert StepBy(states, js, n, k);
      }
    }
  }

  lemma LastCell<T>(s: seq<T>, seed: nat, states: seq<seq<T>>)
    requires Runs(s, Picks(seed, |s|), states)
    ensures |s| > 0 ==>
      var r := states[|states| - 1];
      |r| == |s| && r[|s| - 1] == s[seed * 48271 % 2147483647 % |s|]
  {
    if |s| > 1 {
      CellSettles(s, Picks(seed, |s|), states, 0, |states| - 1);
      assert SeedAfter(seed, 1) == NextSeed(SeedAfter(seed, 0));
    }
  }

  lemma SwapPermutes<T>(s: seq<T>, i: nat, j: nat)
    requires i < |s| && j < |s|
    ensures multiset(Swap(s, i, j)) == multiset(s)
  {
  }

  lemma {:induction false} ShuffleFromPermutes<T>(s: seq<T>, seed: nat, i: nat)
    requires i < |s| || i == 0
    ensures multiset(ShuffleFrom(s, seed, i)) == multiset(s)
    decreases i
  {
    if i > 0 {
      var next := NextSeed(seed);
      SwapPermutes(s, i, next % (i + 1));
      ShuffleFromPermutes(Swap(s, i, next % (i + 1)), next, i - 1);
    }
  }

  /** For every seed the shuffle is a permutation. */
  lemma ShufflePermutes<T>(s: seq<T>, seed: nat)
    ensures multiset(Shuffled(s, seed)) == multiset(s)
  {
    if |s| > 0 {
      ShuffleFromPermutes(s, seed, |s| - 1);
    }
  }

  // ---------- Selection ----------

  function Active(validators: seq<Validator>): (r: seq<Validator>)
    ensures forall v :: v in r <==> v in validators && v.isActive
  {
    if |validators| == 0 then []
    else
      var last := validators[|validators| - 1];
      assert validators == validators[..|validators| - 1] + [last];
      Active(validators[..|validators| - 1]) + if last.isActive then [last] else []
  }

  /** They stay in the order of the list, each as often as it is there. */
  lemma {:induction false} ActiveInOrder(validators: seq<Validator>)
    ensures Selects(validators, Active(validators), (v: Validator) => v.isActive)
  {
    var keep := (v: Validator) => v.isActive;
    if |validators| == 0 {
      SelectsNone(keep);
    } else {
      var init, last := validators[..|validators| - 1], validators[|validators| - 1];
      ActiveInOrder(init);
      SelectsOneMore(init, Active(init), last, keep);
      assert validators == init + [last];
      assert Active(validators) == Active(init) + if keep(last) then [last] else [];
      hide Selects;
    }
  }

  function Addresses(validators: seq<Validator>): (r: seq<Address>)
    ensures |r| == |validators|
  {
    seq(|validators|, i requires 0 <= i < |validators| => validators[i].address)
  }

  /** The text that is hashed for a slot and a purpose. */
  function SeedText(slot: int, purpose: string): string {
    "randao-" + PrintInt(slot) + "-" + purpose
  }

  /** The number in the first digits of the hash that a slot and a purpose determine. */
  function Seed(c: Crypto, slot: int, purpose: string, digits: nat): nat
    requires c.Valid() && digits <= 64
  {
    var h := c.hashUtf8(SeedText(slot, purpose));
    assert HashText(h);
    Value(h[2..][..digits], Hex)
  }

  /** The seed is the number in the first digits of a 32 byte hash. */
  lemma SeedDigits(c: Crypto, slot: int, purpose: string, digits: nat)
    requires c.Valid() && digits <= 64
    ensures
      var h := c.hashUtf8(SeedText(slot, purpose));
      |h| == 66 && AllDigits(h[2..2 + digits], Hex) && Seed(c, slot, purpose, digits) == Value(h[2..2 + digits], Hex)
  {
    hide SeedText, Value, DigitValue;
    var h := c.hashUtf8(SeedText(slot, purpose));
    assert HashText(h);
    assert h[2..][..digits] == h[2..2 + digits];
  }

  lemma PrintedInt(n: int)
    ensures
      var s := PrintInt(n);
      |s| > 0 && (forall i | 1 <= i < |s| :: s[i] != '-') && (s[0] == '-' <==> n < 0)
  {
    var p := Print(if n < 0 then -n else n, Dec);
    forall i | 0 <= i < |p| ensures p[i] != '-' {
      assert DigitValue(p[i]) < 10;
    }
  }

  lemma PrintedIntInjective(m: int, n: int)
    ensures PrintInt(m) == PrintInt(n) ==> m == n
  {
    PrintedInt(m);
    PrintedInt(n);
    if PrintInt(m) == PrintInt(n) {
      if m < 0 {
        assert PrintInt(m)[1..] == Print(-m, Dec) && PrintInt(n)[1..] == Print(-n, Dec);
        PrintInjective(-m, -n, Dec);
      } else {
        PrintInjective(m, n, Dec);
      }
    }
  }

  /** A number ends at the dash that follows it. */
  lemma DashEnds(p: string, a: string, q: string, b: string)
    requires 0 < |p| < |q| && forall i | 1 <= i < |q| :: q[i] != '-'
    ensures p + "-" + a != q + "-" + b
  {
    assert (p + "-" + a)[|p|] == '-';
    assert (q + "-" + b)[|p|] == q[|p|];
  }

  /** Different slots and different purposes are hashed as different texts. */
  lemma SeedTextInjective(slot: int, purpose: string, other: int, otherPurpose: string)
    requires SeedText(slot, purpose) == SeedText(other, otherPurpose)
    ensures slot == other && purpose == otherPurpose
  {
    var p, q := PrintInt(slot), PrintInt(other);
    var s, t := p + "-" + purpose, q + "-" + otherPurpose;
    assert SeedText(slot, purpose) == "randao-" + s && SeedText(other, otherPurpose) == "randao-" + t;
    assert s == ("randao-" + s)[7..] == ("randao-" + t)[7..] == t;
    PrintedInt(slot);
    PrintedInt(other);
    hide PrintInt;
    if |p| < |q| {
      DashEnds(p, purpose, q, otherPurpose);
    }
    if |q| < |p| {
      DashEnds(q, otherPurpose, p, purpose);
    }
    assert p == s[..|p|] == t[..|q|] == q;
    assert purpose == s[|p| + 1..] == t[|q| + 1..] == otherPurpose;
    PrintedIntInjective(slot, other);
  }

  /** The proposer and the committee that a slot determines. */
  ghost predicate ChosenFor(c: Crypto, validators: seq<Validator>, slot: int, proposer: Address,
                            committee: seq<Address>)
    requires c.Valid()
  {
    var active := Active(validators);
    && |active| > 0
    && proposer == active[Seed(c, slot, "proposer", 16) % |active|].address
    && committee == if |active| < COMMITTEE_SIZE then Addresses(active)
      else Addresses(Shuffled(active, Seed(c, slot, "committee", 64))[..COMMITTEE_SIZE])
  }

  class ValidatorService {
    const crypto: Crypto
    const validators: seq<Validator>

    constructor (c: Crypto, vs: seq<Validator>)
      ensures crypto == c && validators == vs
    {
      crypto, validators := c, vs;
    }

    /** One of the active validators, or none if there is none. */
    method SelectProposer(slot: int) returns (proposer: Option<Address>)
      requires crypto.Valid()
      ensures proposer.None? <==> forall v | v in validators :: !v.isActive
      ensures proposer.Some? ==> Validator(proposer.value, true) in validators
      ensures proposer.Some? ==>
        var active := Active(validators);
        |active| > 0 && proposer.value == active[Seed(crypto, slot, "proposer", 16) % |active|].address
    {
      hide Seed, Crypto.Valid;
      var active := Active(validators);
      if |active| == 0 {
        assert forall v | v in validators && v.isActive :: v in active;
        return None;
      }
      var index := Seed(crypto, slot, "proposer", 16) % |active|;
      assert active[index] in active;
      return Some(active[index].address);
    }

    /** The first 128 of a shuffle of the active validators, or all of them if they are fewer. */
    method SelectCommittee(slot: int) returns (committee: seq<Address>)
      requires crypto.Valid()
      ensures |committee| == if |Active(validators)| < COMMITTEE_SIZE then |Active(validators)| else COMMITTEE_SIZE
      ensures |Active(validators)| < COMMITTEE_SIZE ==> committee == Addresses(Active(validators))
      ensures |Active(validators)| >= COMMITTEE_SIZE ==>
        committee == Addresses(Shuffled(Active(validators), Seed(crypto, slot, "committee", 64))[..COMMITTEE_SIZE])
      ensures |Active(validators)| >= 128 ==>
        FirstOfShuffle(Active(validators), Seed(crypto, slot, "committee", 64), committee)
      ensures forall a | a in committee :: Validator(a, true) in validators
      ensures Distinct(Addresses(Active(validators))) ==> Distinct(committee)
    {
      hide Seed, Crypto.Valid;
      var active := Active(validators);
      if |active| < COMMITTEE_SIZE {
        AddressesOf(validators, active);
        return Addresses(active);
      }
      var seed := Seed(crypto, slot, "committee", 64);
      var shuffled := Shuffle(active, seed);
      hide IsShuffle;
      assert FirstOfShuffle(active, seed, Addresses(shuffled[..COMMITTEE_SIZE]));
      ShufflePermutes(active, seed);
      PrefixOfPermutation(active, shuffled, COMMITTEE_SIZE);
      AddressesOf(validators, shuffled[..COMMITTEE_SIZE]);
      return Addresses(shuffled[..COMMITTEE_SIZE]);
    }
  }

  /** committee has the addresses of the first 128 in the order that the shuffle ends with, in which the
      last one is the one it picked first. */
  ghost predicate FirstOfShuffle(active: seq<Validator>, seed: nat, committee: seq<Address>)
    requires |active| >= 128
  {
    |committee| == 128 &&
    exists shuffled: seq<Validator> ::
      && IsShuffle(active, seed, shuffled) && |shuffled| == |active|
      && (forall i | 0 <= i < 128 :: committee[i] == shuffled[i].address)
      && shuffled[|active| - 1] == active[seed * 48271 % 2147483647 % |active|]
  }

  lemma AddressesOf(validators: seq<Validator>, chosen: seq<Validator>)
    requires forall v | v in chosen :: v in Active(validators)
    ensures forall a | a in Addresses(chosen) :: Validator(a, true) in validators
  {
    forall a | a in Addresses(chosen) ensures Validator(a, true) in validators {
      var i :| 0 <= i < |chosen| && chosen[i].address == a;
      assert chosen[i] in chosen;
    }
  }

  /** Members of a permutation are members, and a prefix of it repeats no address that the
      original does not repeat. */
  lemma PrefixOfPermutation(s: seq<Validator>, t: seq<Validator>, n: nat)
    requires multiset(s) == multiset(t) && n <= |t|
    ensures forall v | v in t[..n] :: v in s
    ensures Distinct(Addresses(s)) ==> Distinct(Addresses(t[..n]))
  {
    forall v | v in t[..n] ensures v in s {
      assert v in multiset(t);
    }
    if Distinct(Addresses(s)) {
      forall i, j | 0 <= i < j < n ensures t[i].address != t[j].address {
        assert t[i] in multiset(t) && t[j] in multiset(t);
        assert t[i] in s && t[j] in s;
        OneMember(s, t[i], t[j]);
        CountOne(s, t[i]);
        CountTwo(t, i, j);
      }
    }
  }

  lemma CountTwo(t: seq<Validator>, i: nat, j: nat)
    requires i < j < |t|
    ensures t[i] == t[j] ==> multiset(t)[t[i]] >= 2
  {
    assert t == t[..j] + t[j..];
    assert t[i] in t[..j] && t[j] in t[j..];
    assert multiset(t) == multiset(t[..j]) + multiset(t[j..]);
  }

  lemma OneMember(s: seq<Validator>, v: Validator, w: Validator)
    requires Distinct(Addresses(s)) && v in s && w in s
    ensures v.address == w.address ==> v == w
  {
    var p :| 0 <= p < |s| && s[p] == v;
    var q :| 0 <= q < |s| && s[q] == w;
    assert Addresses(s)[p] == v.address && Addresses(s)[q] == w.address;
  }

  lemma {:induction false} CountOne(s: seq<Validator>, v: Validator)
    requires Distinct(Addresses(s))
    ensures multiset(s)[v] <= 1
  {
    if |s| > 0 {
      var init, last := s[..|s| - 1], s[|s| - 1];
      assert s == init + [last];
      assert forall i | 0 <= i < |init| :: Addresses(init)[i] == Addresses(s)[i] == s[i].address;
      assert Addresses(s)[|init|] == last.address;
      CountOne(init, v);
      if v == last {
        assert forall i | 0 <= i < |init| :: s[i] != v;
      }
    }
  }
}
