/** Attestations and the two-thirds rule, slots and epochs. */
module Consensus {
  import opened Types

  const BLOCK_TIME := 12000
  const EPOCH_SIZE := 32

  datatype Attestation = Attestation(slot: int, blockHash: Hash, validator: Address)

  // ---------- Selecting from a list ----------

  /** r is s without the elements that are not to be kept: at gives their places in s, in order. */
  ghost predicate SelectedAt<T(!new)>(s: seq<T>, r: seq<T>, at: seq<nat>, keep: T -> bool) {
    Reads(s, r, at) && Ascends(at) && Covers(s, at, keep)
  }

  ghost predicate Reads<T>(s: seq<T>, r: seq<T>, at: seq<nat>) {
    |at| == |r| && forall k | 0 <= k < |at| :: at[k] < |s| && r[k] == s[at[k]]
  }

  ghost predicate Ascends(at: seq<nat>) {
    forall j, k | 0 <= j < k < |at| :: at[j] < at[k]
  }

  ghost predicate Covers<T(!new)>(s: seq<T>, at: seq<nat>, keep: T -> bool) {
    forall i: nat | i < |s| :: keep(s[i]) <==> i in at
  }

  lemma CoversOneMore<T(!new)>(s: seq<T>, at: seq<nat>, x: T, keep: T -> bool)
    requires Covers(s, at, keep) && forall k | 0 <= k < |at| :: at[k] < |s|
    ensures Covers(s + [x], if keep(x) then at + [|s|] else at, keep)
  {
    var more: seq<nat> := if keep(x) then at + [|s|] else at;
    forall i: nat | i < |s| + 1 ensures keep((s + [x])[i]) <==> i in more {
      assert i in at + [|s|] <==> i in at || i == |s|;
    }
  }

  lemma ReadsOneMore<T>(s: seq<T>, r: seq<T>, at: seq<nat>, x: T)
    requires Reads(s, r, at) && Ascends(at)
    ensures Reads(s + [x], r, at) && Reads(s + [x], r + [x], at + [|s|]) && Ascends(at + [|s|])
  {
  }

  ghost predicate Selects<T(!new)>(s: seq<T>, r: seq<T>, keep: T -> bool) {
    exists at: seq<nat> :: SelectedAt(s, r, at, keep)
  }

  lemma SelectsNone<T(!new)>(keep: T -> bool)
    ensures Selects([], [], keep)
  {
    assert SelectedAt([], [], [], keep);
  }

  lemma SelectsOneMore<T(!new)>(s: seq<T>, r: seq<T>, x: T, keep: T -> bool)
    requires Selects(s, r, keep)
    ensures Selects(s + [x], r + (if keep(x) then [x] else []), keep)
  {
    var at: seq<nat> :| SelectedAt(s, r, at, keep);
    CoversOneMore(s, at, x, keep);
    ReadsOneMore(s, r, at, x);
    hide Covers, Reads, Ascends;
    assert r + [] == r;
    assert SelectedAt(s + [x], r + (if keep(x) then [x] else []), if keep(x) then at + [|s|] else at, keep);
  }

  // ---------- Collecting attestations ----------

  /** The committee members that accept a block, in committee order. */
  function Attesters(committee: seq<Address>, accepts: Address -> bool): (r: seq<Address>)
    ensures |r| <= |committee|
  {
    if |committee| == 0 then []
    else
      var last := committee[|committee| - 1];
      Attesters(committee[..|committee| - 1], accepts) + if accepts(last) then [last] else []
  }

  method CollectAttestations(slot: int, blockHash: Hash, committee: seq<Address>, accepts: Address -> bool)
    returns (attestations: seq<Attestation>)
    ensures |attestations| == |Attesters(committee, accepts)|
    ensures forall i | 0 <= i < |attestations| ::
      attestations[i] == Attestation(slot, blockHash, Attesters(committee, accepts)[i])
  {
    attestations := [];
    for i := 0 to |committee|
      invariant |attestations| == |Attesters(committee[..i], accepts)|
      invariant forall k | 0 <= k < |attestations| ::
        attestations[k] == Attestation(slot, blockHash, Attesters(committee[..i], accepts)[k])
    {
      assert committee[..i + 1][..i] == committee[..i];
      if accepts(committee[i]) {
        attestations := attestations + [Attestation(slot, blockHash, committee[i])];
      }
    }
    assert committee[..|committee|] == committee;
  }

  /** Whoever attests sits on the committee and accepted the block; whoever sits there and
      accepts, attests; and a committee without repetitions attests without repetitions. */
  lemma {:induction false} AttestersMeaning(committee: seq<Address>, accepts: Address -> bool)
    ensures forall a :: a in Attesters(committee, accepts) <==> a in committee && accepts(a)
    ensures Distinct(committee) ==> Distinct(Attesters(committee, accepts))
  {
    if |committee| > 0 {
      var init, last := committee[..|committee| - 1], committee[|committee| - 1];
      AttestersMeaning(init, accepts);
      assert committee == init + [last];
      assert Distinct(committee) ==> Distinct(init) && last !in init;
    }
  }

  /** They attest in committee order, each as often as it sits there. */
  lemma {:induction false} AttestersInOrder(committee: seq<Address>, accepts: Address -> bool)
    ensures Selects(committee, Attesters(committee, accepts), accepts)
  {
    if |committee| == 0 {
      SelectsNone(accepts);
    } else {
      var init, last := committee[..|committee| - 1], committee[|committee| - 1];
      AttestersInOrder(init, accepts);
      SelectsOneMore(init, Attesters(init, accepts), last, accepts);
      assert committee == init + [last];
    }
  }

  /** When every block is accepted, as the validation stub does, each member attests once, in
      committee order. */
  lemma {:induction false} EveryoneAttests(committee: seq<Address>, accepts: Address -> bool)
    requires forall a | a in committee :: accepts(a)
    ensures Attesters(committee, accepts) == committee
  {
    if |committee| > 0 {
      EveryoneAttests(committee[..|committee| - 1], accepts);
      assert committee == committee[..|committee| - 1] + [committee[|committee| - 1]];
    }
  }

  ghost predicate Distinct<T>(s: seq<T>) {
    forall i, j | 0 <= i < j < |s| :: s[i] != s[j]
  }

  // ---------- Supermajority ----------

  /** The least whole number that is at least two thirds of n. */
  function Required(n: nat): nat {
    (n * 2 + 2) / 3
  }

  predicate HasSupermajority(attestations: nat, committeeSize: nat) {
    attestations >= Required(committeeSize)
  }

  /** The rounded threshold is the exact two-thirds rule. */
  lemma SupermajorityIff(a: nat, n: nat)
    ensures HasSupermajority(a, n) <==> 3 * a >= 2 * n
  {
  }

  /** With the validation stub, which accepts every block, no block is ever rejected. */
  lemma StubNeverRejects(committee: seq<Address>, accepts: Address -> bool)
    requires forall a | a in committee :: accepts(a)
    ensures HasSupermajority(|Attesters(committee, accepts)|, |committee|)
  {
    EveryoneAttests(committee, accepts);
    SupermajorityIff(|committee|, |committee|);
  }

  lemma {:induction false} DistinctCount(s: seq<Address>)
    requires Distinct(s)
    ensures |set x | x in s| == |s|
  {
    if |s| > 0 {
      var init, last := s[..|s| - 1], s[|s| - 1];
      DistinctCount(init);
      assert s == init + [last];
      assert (set x | x in s) == (set x | x in init) + {last};
      assert last !in init;
    }
  }

  lemma SubsetCount(a: set<Address>, b: set<Address>)
    requires a <= b
    ensures |a| <= |b|
  {
    assert b == a + (b - a);
  }

  /** Two supermajorities of one committee overlap in at least a third of it. */
  lemma SupermajoritiesIntersect(committee: seq<Address>, first: Address -> bool, second: Address -> bool)
    requires Distinct(committee)
    requires HasSupermajority(|Attesters(committee, first)|, |committee|)
    requires HasSupermajority(|Attesters(committee, second)|, |committee|)
    ensures
      var both := set a | a in committee && first(a) && second(a);
      3 * |both| >= |committee|
  {
    var all := set a | a in committee;
    var f := set a | a in Attesters(committee, first);
    var g := set a | a in Attesters(committee, second);
    AttestersMeaning(committee, first);
    AttestersMeaning(committee, second);
    DistinctCount(committee);
    DistinctCount(Attesters(committee, first));
    DistinctCount(Attesters(committee, second));
    var both := set a | a in committee && first(a) && second(a);
    assert f * g == both;
    assert |f + g| == |f| + |g| - |f * g|;
    SubsetCount(f + g, all);
  }

  /** If fewer than a third of a committee attests dishonestly, two blocks that both reach a
      supermajority share an honest attester. */
  lemma HonestAttesterInBoth(committee: seq<Address>, first: Address -> bool, second: Address -> bool,
                             faulty: set<Address>)
    requires Distinct(committee)
    requires HasSupermajority(|Attesters(committee, first)|, |committee|)
    requires HasSupermajority(|Attesters(committee, second)|, |committee|)
    requires 3 * |faulty| < |committee|
    ensures exists a :: a in committee && a !in faulty && first(a) && second(a)
  {
    SupermajoritiesIntersect(committee, first, second);
    var both := set a | a in committee && first(a) && second(a);
    if both <= faulty {
      SubsetCount(both, faulty);
    } else {
      var a :| a in both && a !in faulty;
    }
  }

  // ---------- Slots and epochs ----------

  /** The slot that contains a moment. */
  function SlotAt(genesisTime: int, now: int): int {
    (now - genesisTime) / BLOCK_TIME
  }

  /** How long the producer waits before the next slot starts. */
  function DelayToNextSlot(genesisTime: int, now: int): int {
    genesisTime + (SlotAt(genesisTime, now) + 1) * BLOCK_TIME - now
  }

  function EpochOf(slot: int): int {
    slot / EPOCH_SIZE
  }

  function EpochStartSlot(epoch: int): int {
    epoch * EPOCH_SIZE
  }

  function EpochEndSlot(epoch: int): int {
    (epoch + 1) * EPOCH_SIZE - 1
  }

  /** The timer is set at most one slot ahead, never to the present moment, and fires at the
      first moment of the slot after the current one. */
  lemma TimerFiresAtNextSlot(genesisTime: int, now: int)
    ensures
      var delay := DelayToNextSlot(genesisTime, now);
      && 0 < delay <= BLOCK_TIME
      && SlotAt(genesisTime, now + delay) == SlotAt(genesisTime, now) + 1
      && SlotAt(genesisTime, now + delay - 1) == SlotAt(genesisTime, now)
  {
    var t := now - genesisTime;
    assert t == BLOCK_TIME * (t / BLOCK_TIME) + t % BLOCK_TIME;
  }

  /** A slot belongs to an epoch exactly when it lies between its first and its last slot. */
  lemma EpochBounds(slot: int, epoch: int)
    ensures EpochOf(slot) == epoch <==> EpochStartSlot(epoch) <= slot <= EpochEndSlot(epoch)
  {
  }
}
