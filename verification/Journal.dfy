/** The journal of account changes: a stack of overlays above the repository, shown to be a stack
    of full snapshots. */
module Journal {
  import opened Types

  /** The changes of one checkpoint; None marks a deleted account. */
  type Layer = map<Address, Option<Account>>

  datatype State = State(layers: seq<Layer>, table: Ledger)

  /** A ledger with the changes of a layer made to it. */
  function Apply(l: Ledger, layer: Layer): Ledger {
    map a | a in l.Keys + layer.Keys && (a in layer ==> layer[a].Some?) ::
      if a in layer then layer[a].value else l[a]
  }

  function Overlay(table: Ledger, layers: seq<Layer>): Ledger {
    if |layers| == 0 then table
    else Apply(Overlay(table, layers[..|layers| - 1]), layers[|layers| - 1])
  }

  /** What a caller reads. */
  function View(s: State): Ledger {
    Overlay(s.table, s.layers)
  }

  /** All layers in one, the upper ones winning. */
  function Merged(layers: seq<Layer>): Layer {
    if |layers| == 0 then map[]
    else Merged(layers[..|layers| - 1]) + layers[|layers| - 1]
  }

  function Live(layer: Layer): Ledger {
    map a | a in layer && layer[a].Some? :: layer[a].value
  }

  // ---------- Operations ----------

  datatype Op =
    | Set(address: Address, account: Account) | Delete(address: Address)
    | Checkpoint | CommitCheckpoint | RevertCheckpoint
    | StartBlock | CommitBlock | RollbackBlock

  /** Writing on an empty stack opens a layer first. */
  function Write(layers: seq<Layer>, a: Address, v: Option<Account>): seq<Layer> {
    if |layers| == 0 then [map[a := v]]
    else layers[..|layers| - 1] + [layers[|layers| - 1][a := v]]
  }

  /** Committing and reverting throw on an empty stack; committing the only layer drops it. */
  predicate Throws(s: State, op: Op) {
    (op == CommitCheckpoint || op == RevertCheckpoint) && s.layers == []
  }

  function Step(s: State, op: Op): State {
    var n := |s.layers|;
    match op
    case Set(a, v) => s.(layers := Write(s.layers, a, Some(v)))
    case Delete(a) => s.(layers := Write(s.layers, a, None))
    case Checkpoint => s.(layers := s.layers + [map[]])
    case CommitCheckpoint =>
      if n <= 1 then s.(layers := [])
      else s.(layers := s.layers[..n - 2] + [s.layers[n - 2] + s.layers[n - 1]])
    case RevertCheckpoint => if n == 0 then s else s.(layers := s.layers[..n - 1])
    case StartBlock => s.(layers := [map[]])
    case CommitBlock => State([], s.table + Live(Merged(s.layers)))
    case RollbackBlock => s.(layers := [])
  }

  function Run(s: State, ops: seq<Op>): State
    decreases |ops|
  {
    if |ops| == 0 then s else Run(Step(s, ops[0]), ops[1..])
  }

  // ---------- The reference: a stack of full snapshots ----------

  datatype Snapshots = Snapshots(base: Ledger, stack: seq<Ledger>) {
    function Top(): Ledger {
      if |stack| == 0 then base else stack[|stack| - 1]
    }

    function WithTop(l: Ledger): Snapshots {
      Snapshots(base, (if |stack| == 0 then [] else stack[..|stack| - 1]) + [l])
    }
  }

  function SnapshotStep(s: Snapshots, op: Op): Snapshots {
    var n := |s.stack|;
    match op
    case Set(a, v) => s.WithTop(s.Top()[a := v])
    case Delete(a) => s.WithTop(s.Top() - {a})
    case Checkpoint => s.(stack := s.stack + [s.Top()])
    case CommitCheckpoint =>
      if n <= 1 then s.(stack := []) else s.(stack := s.stack[..n - 2] + [s.stack[n - 1]])
    case RevertCheckpoint => if n == 0 then s else s.(stack := s.stack[..n - 1])
    case StartBlock => s.(stack := [s.base])
    case CommitBlock => Snapshots(s.base + s.Top(), [])
    case RollbackBlock => s.(stack := [])
  }

  function SnapshotRun(s: Snapshots, ops: seq<Op>): Snapshots
    decreases |ops|
  {
    if |ops| == 0 then s else SnapshotRun(SnapshotStep(s, ops[0]), ops[1..])
  }

  /** The ledgers that the layers make of the table, one above the other. */
  function Levels(table: Ledger, layers: seq<Layer>): (r: seq<Ledger>)
    ensures |r| == |layers|
  {
    if |layers| == 0 then [] else Levels(table, layers[..|layers| - 1]) + [Overlay(table, layers)]
  }

  /** The snapshots that a journal stands for. */
  function Snap(s: State): Snapshots {
    Snapshots(s.table, Levels(s.table, s.layers))
  }

  // ---------- Overlays ----------

  lemma ApplyMerge(l: Ledger, lower: Layer, upper: Layer)
    ensures Apply(l, lower + upper) == Apply(Apply(l, lower), upper)
  {
  }

  lemma ApplyWrite(l: Ledger, layer: Layer, a: Address, v: Option<Account>)
    ensures Apply(l, layer[a := v]) == if v.Some? then Apply(l, layer)[a := v.value] else Apply(l, layer) - {a}
  {
  }

  lemma {:induction false} OverlayMerged(table: Ledger, layers: seq<Layer>)
    ensures Overlay(table, layers) == Apply(table, Merged(layers))
  {
    if |layers| == 0 {
      assert Apply(table, map[]) == table;
    } else {
      var init, top := layers[..|layers| - 1], layers[|layers| - 1];
      OverlayMerged(table, init);
      ApplyMerge(table, Merged(init), top);
    }
  }

  /** Flushing the live entries of all layers is laying the view over the table: deletions do
      not reach the table. */
  lemma FlushIsOverlay(s: State)
    ensures s.table + Live(Merged(s.layers)) == s.table + View(s)
  {
    OverlayMerged(s.table, s.layers);
    var m := Merged(s.layers);
    hide Merged, Overlay;
    assert s.table + Live(m) == s.table + Apply(s.table, m);
  }

  lemma OneMore(table: Ledger, layers: seq<Layer>, layer: Layer)
    ensures Overlay(table, layers + [layer]) == Apply(Overlay(table, layers), layer)
    ensures Levels(table, layers + [layer]) == Levels(table, layers) + [Apply(Overlay(table, layers), layer)]
  {
    assert (layers + [layer])[..|layers|] == layers;
  }

  lemma SnapTop(s: State)
    ensures Snap(s).Top() == View(s)
  {
  }

  // ---------- The journal refines the snapshots ----------

  lemma SnapWrite(s: State, a: Address, v: Option<Account>)
    ensures
      var l := View(s);
      Snap(s.(layers := Write(s.layers, a, v))) == Snap(s).WithTop(if v.Some? then l[a := v.value] else l - {a})
  {
    var n := |s.layers|;
    if n == 0 {
      OneMore(s.table, [], map[a := v]);
      assert Write(s.layers, a, v) == [] + [map[a := v]];
      ApplyWrite(s.table, map[], a, v);
      assert Apply(s.table, map[]) == s.table;
    } else {
      var below, top := s.layers[..n - 1], s.layers[n - 1];
      OneMore(s.table, below, top[a := v]);
      ApplyWrite(Overlay(s.table, below), top, a, v);
      assert Levels(s.table, s.layers)[..n - 1] == Levels(s.table, below);
    }
  }

  lemma SnapCommit(s: State)
    requires |s.layers| >= 2
    ensures Snap(Step(s, CommitCheckpoint)) == SnapshotStep(Snap(s), CommitCheckpoint)
  {
    var n := |s.layers|;
    var below, lower, upper := s.layers[..n - 2], s.layers[n - 2], s.layers[n - 1];
    hide Apply, Overlay;
    assert s.layers == below + [lower] + [upper];
    OneMore(s.table, below, lower + upper);
    OneMore(s.table, below, lower);
    OneMore(s.table, below + [lower], upper);
    ApplyMerge(Overlay(s.table, below), lower, upper);
    assert Levels(s.table, s.layers)[..n - 2] == Levels(s.table, below);
  }

  lemma SnapPush(s: State)
    ensures Snap(Step(s, Checkpoint)) == SnapshotStep(Snap(s), Checkpoint)
  {
    SnapTop(s);
    OneMore(s.table, s.layers, map[]);
    assert Apply(View(s), map[]) == View(s);
  }

  lemma SnapPop(s: State)
    requires |s.layers| > 0
    ensures Snap(Step(s, RevertCheckpoint)) == SnapshotStep(Snap(s), RevertCheckpoint)
  {
    var n := |s.layers|;
    assert Levels(s.table, s.layers)[..n - 1] == Levels(s.table, s.layers[..n - 1]);
  }

  /** Each operation does to the journal what it does to the snapshots. */
  lemma StepRefines(s: State, op: Op)
    ensures Snap(Step(s, op)) == SnapshotStep(Snap(s), op)
  {
    SnapTop(s);
    match op
    case Set(a, v) => SnapWrite(s, a, Some(v));
    case Delete(a) => SnapWrite(s, a, None);
    case Checkpoint => SnapPush(s);
    case CommitCheckpoint => if |s.layers| >= 2 { SnapCommit(s); }
    case RevertCheckpoint => if |s.layers| > 0 { SnapPop(s); }
    case StartBlock =>
      SnapPush(State([], s.table));
      assert Step(State([], s.table), Checkpoint) == Step(s, StartBlock);
    case CommitBlock => FlushIsOverlay(s);
    case RollbackBlock =>
  }

  /** Any sequence of operations on the journal is the same sequence on full snapshots, and what
      callers read is the topmost snapshot. */
  lemma {:induction false} RunRefines(s: State, ops: seq<Op>)
    ensures Snap(Run(s, ops)) == SnapshotRun(Snap(s), ops)
    ensures View(Run(s, ops)) == SnapshotRun(Snap(s), ops).Top()
    decreases |ops|
  {
    SnapTop(Run(s, ops));
    if |ops| > 0 {
      StepRefines(s, ops[0]);
      RunRefines(Step(s, ops[0]), ops[1..]);
    }
  }

  // ---------- Committing a block ----------

  /** Committing leaves what callers read as it was, address by address, unless the address was
      deleted from an account that the table holds: that account comes back. */
  lemma CommitBlockView(s: State)
    ensures forall a | a in View(s) || a !in s.table ::
      var v := View(Step(s, CommitBlock));
      (a in v <==> a in View(s)) && (a in v ==> v[a] == View(s)[a])
    ensures View(Step(s, CommitBlock)) == View(s) <==> s.table.Keys <= View(s).Keys
  {
    FlushIsOverlay(s);
    var v := View(Step(s, CommitBlock));
    assert v == s.table + View(s);
    hide View, Merged, Live;
    if s.table.Keys <= View(s).Keys {
      assert s.table + View(s) == View(s);
    }
  }

  /** An account that is stored and deleted in the journal is gone for every reader until the commit,
      and then it is back. */
  lemma DeletedComesBack(a: Address, v: Account)
    ensures
      var s := Step(Step(State([], map[a := v]), StartBlock), Delete(a));
      a !in View(s) && a in View(Step(s, CommitBlock)) && View(Step(s, CommitBlock))[a] == v
  {
    var s := Step(Step(State([], map[a := v]), StartBlock), Delete(a));
    var none: Layer := map[];
    assert [none][..0] == [];
    assert s == State([map[a := None]], map[a := v]);
    FlushIsOverlay(s);
    assert Overlay(s.table, s.layers[..0]) == s.table;
  }

  /** A table account that is missing from the view is one whose topmost entry is a deletion. */
  lemma MissingIffDeleted(s: State)
    ensures s.table.Keys <= View(s).Keys <==>
      forall a | a in Merged(s.layers) && a in s.table :: Merged(s.layers)[a].Some?
  {
    OverlayMerged(s.table, s.layers);
  }

  // ---------- Checkpoints as brackets ----------

  /** ops closes d open checkpoints and otherwise opens and closes its own. */
  predicate Balanced(ops: seq<Op>, d: nat) {
    if |ops| == 0 then d == 0
    else match ops[0]
      case Set(_, _) => Balanced(ops[1..], d)
      case Delete(_) => Balanced(ops[1..], d)
      case Checkpoint => Balanced(ops[1..], d + 1)
      case CommitCheckpoint => d > 0 && Balanced(ops[1..], d - 1)
      case RevertCheckpoint => d > 0 && Balanced(ops[1..], d - 1)
      case _ => false
  }

  lemma {:induction false} RunConcat(s: State, first: seq<Op>, second: seq<Op>)
    ensures Run(s, first + second) == Run(Run(s, first), second)
    decreases |first|
  {
    if |first| == 0 {
      assert first + second == second;
    } else {
      assert (first + second)[0] == first[0] && (first + second)[1..] == first[1..] + second;
      RunConcat(Step(s, first[0]), first[1..], second);
    }
  }

  lemma RunBracket(s: State, body: seq<Op>, close: Op)
    ensures Run(s, [Checkpoint] + body + [close]) == Step(Run(Step(s, Checkpoint), body), close)
  {
    RunConcat(s, [Checkpoint] + body, [close]);
    RunConcat(s, [Checkpoint], body);
    assert [Checkpoint][1..] == [] && [close][1..] == [];
  }

  /** What happens above the k lowest layers leaves them alone. */
  lemma {:induction false} BelowUntouched(s: State, ops: seq<Op>, k: nat, d: nat)
    requires Balanced(ops, d) && |s.layers| == k + 1 + d
    ensures
      var r := Run(s, ops);
      r.table == s.table && |r.layers| == k + 1 && r.layers[..k] == s.layers[..k]
    decreases |ops|
  {
    if |ops| > 0 {
      var s1 := Step(s, ops[0]);
      assert s1.layers[..k] == s.layers[..k];
      var d1 := if ops[0].Checkpoint? then d + 1 else if ops[0].Set? || ops[0].Delete? then d else d - 1;
      BelowUntouched(s1, ops[1..], k, d1);
    }
  }

  /** Reverting a checkpoint undoes everything since, layers and table included, at any depth. */
  lemma RevertRestores(s: State, body: seq<Op>)
    requires Balanced(body, 0)
    ensures Run(s, [Checkpoint] + body + [RevertCheckpoint]) == s
  {
    RunBracket(s, body, RevertCheckpoint);
    var s1 := Step(s, Checkpoint);
    BelowUntouched(s1, body, |s.layers|, 0);
    assert s1.layers[..|s.layers|] == s.layers;
  }

  /** Inside a checkpoint, over a lower layer, a body does what it does without the checkpoint,
      once the checkpoint's layer is merged into the lower one. */
  lemma {:induction false} MergedAlike(below: seq<Layer>, lower: Layer, upper: Layer, rest: seq<Layer>,
                                       table: Ledger, ops: seq<Op>)
    requires Balanced(ops, |rest|)
    ensures
      var r := Run(State(below + [lower, upper] + rest, table), ops);
      var u := Run(State(below + [lower + upper] + rest, table), ops);
      && |r.layers| == |below| + 2 && r.layers[..|below|] == below
      && u == State(below + [r.layers[|below|] + r.layers[|below| + 1]], r.table)
    decreases |ops|
  {
    var s := State(below + [lower, upper] + rest, table);
    var t := State(below + [lower + upper] + rest, table);
    if |ops| > 0 {
      MergedAlikeStep(below, lower, upper, rest, table, ops[0], |rest|);
      var (upper', rest') := Above(upper, rest, ops[0]);
      MergedAlike(below, lower, upper', rest', table, ops[1..]);
    }
  }

  /** One operation that does not close the checkpoint itself changes its layer and what is above
      it, in the same way whether or not the checkpoint's layer is merged with the lower one. */
  lemma MergedAlikeStep(below: seq<Layer>, lower: Layer, upper: Layer, rest: seq<Layer>, table: Ledger, op: Op, d: nat)
    requires d == |rest| && !op.StartBlock? && !op.CommitBlock? && !op.RollbackBlock?
    requires op.CommitCheckpoint? || op.RevertCheckpoint? ==> d > 0
    ensures
      var (upper', rest') := Above(upper, rest, op);
      && |rest'| == (if op.Checkpoint? then d + 1 else if op.Set? || op.Delete? then d else d - 1)
      && Step(State(below + [lower, upper] + rest, table), op) == State(below + [lower, upper'] + rest', table)
      && Step(State(below + [lower + upper] + rest, table), op) == State(below + [lower + upper'] + rest', table)
  {
    StepAbove(below + [lower], upper, rest, table, op);
    StepAbove(below, lower + upper, rest, table, op);
    AboveMerged(lower, upper, rest, op);
    hide Step, Above;
    var (upper', rest') := Above(upper, rest, op);
    assert below + [lower, upper] + rest == below + [lower] + [upper] + rest;
    assert below + [lower, upper'] + rest' == below + [lower] + [upper'] + rest';
  }

  lemma AboveMerged(lower: Layer, upper: Layer, rest: seq<Layer>, op: Op)
    requires !op.StartBlock? && !op.CommitBlock? && !op.RollbackBlock?
    requires op.CommitCheckpoint? || op.RevertCheckpoint? ==> |rest| > 0
    ensures
      var (upper', rest') := Above(upper, rest, op);
      && Above(lower + upper, rest, op) == (lower + upper', rest')
      && |rest'| == (if op.Checkpoint? then |rest| + 1 else if op.Set? || op.Delete? then |rest| else |rest| - 1)
  {
    if |rest| == 1 && op.CommitCheckpoint? {
      assert lower + upper + rest[0] == lower + (upper + rest[0]);
    } else if |rest| == 0 && (op.Set? || op.Delete?) {
      var v := if op.Set? then Some(op.account) else None;
      assert (lower + upper)[op.address := v] == lower + upper[op.address := v];
    }
  }

  /** The effect of an operation on a layer and the layers above it. */
  function Above(upper: Layer, rest: seq<Layer>, op: Op): (Layer, seq<Layer>)
    requires op.CommitCheckpoint? || op.RevertCheckpoint? ==> |rest| > 0
  {
    var d := |rest|;
    match op
    case Set(a, v) => if d == 0 then (upper[a := Some(v)], []) else (upper, Write(rest, a, Some(v)))
    case Delete(a) => if d == 0 then (upper[a := None], []) else (upper, Write(rest, a, None))
    case Checkpoint => (upper, rest + [map[]])
    case CommitCheckpoint =>
      if d == 1 then (upper + rest[0], []) else (upper, rest[..d - 2] + [rest[d - 2] + rest[d - 1]])
    case RevertCheckpoint => (upper, rest[..d - 1])
    case _ => (upper, rest)
  }

  lemma StepAbove(below: seq<Layer>, upper: Layer, rest: seq<Layer>, table: Ledger, op: Op)
    requires !op.StartBlock? && !op.CommitBlock? && !op.RollbackBlock?
    requires op.CommitCheckpoint? || op.RevertCheckpoint? ==> |rest| > 0
    ensures
      var (upper', rest') := Above(upper, rest, op);
      Step(State(below + [upper] + rest, table), op) == State(below + [upper'] + rest', table)
  {
    var s := below + [upper] + rest;
    var d, n := |rest|, |s|;
    match op
    case Set(a, v) => WriteAbove(below, upper, rest, a, Some(v));
    case Delete(a) => WriteAbove(below, upper, rest, a, None);
    case Checkpoint => assert s + [map[]] == below + [upper] + (rest + [map[]]);
    case RevertCheckpoint => assert s[..n - 1] == below + [upper] + rest[..d - 1];
    case CommitCheckpoint =>
      if d == 1 {
        assert s[..n - 2] == below && s[n - 2] == upper && s[n - 1] == rest[0];
        assert below + [upper + rest[0]] == below + [upper + rest[0]] + [];
      } else {
        assert s[..n - 2] == below + [upper] + rest[..d - 2];
        assert s[..n - 2] + [s[n - 2] + s[n - 1]] == below + [upper] + (rest[..d - 2] + [rest[d - 2] + rest[d - 1]]);
      }
  }

  lemma WriteAbove(below: seq<Layer>, upper: Layer, rest: seq<Layer>, a: Address, v: Option<Account>)
    ensures Write(below + [upper] + rest, a, v)
      == if |rest| == 0 then below + [upper[a := v]] + [] else below + [upper] + Write(rest, a, v)
  {
    var s := below + [upper] + rest;
    if |rest| == 0 {
      assert s[..|s| - 1] == below;
    } else {
      assert s[..|s| - 1] == below + [upper] + rest[..|rest| - 1];
    }
  }

  /** Over a block's layer, committing a checkpoint is as if it had never been set. */
  lemma CommitIsTransparent(s: State, body: seq<Op>)
    requires |s.layers| >= 1 && Balanced(body, 0)
    ensures Run(s, [Checkpoint] + body + [CommitCheckpoint]) == Run(s, body)
  {
    hide Run, Balanced, Step;
    RunBracket(s, body, CommitCheckpoint);
    OpenCheckpoint(s);
    var below, lower := s.layers[..|s.layers| - 1], s.layers[|s.layers| - 1];
    MergedAlike(below, lower, map[], [], s.table, body);
    CloseCheckpoint(Run(Step(s, Checkpoint), body), below);
  }

  lemma OpenCheckpoint(s: State)
    requires |s.layers| >= 1
    ensures
      var below, lower := s.layers[..|s.layers| - 1], s.layers[|s.layers| - 1];
      && Step(s, Checkpoint) == State(below + [lower, map[]] + [], s.table)
      && s == State(below + [lower + map[]] + [], s.table)
  {
    var lower := s.layers[|s.layers| - 1];
    assert lower + map[] == lower;
  }

  lemma CloseCheckpoint(s: State, below: seq<Layer>)
    requires |s.layers| == |below| + 2 && s.layers[..|below|] == below
    ensures Step(s, CommitCheckpoint) == State(below + [s.layers[|below|] + s.layers[|below| + 1]], s.table)
  {
  }

  /** With no layer below it the checkpoint's changes are dropped instead. */
  lemma CommitDropsOnlyLayer(s: State, body: seq<Op>)
    requires s.layers == [] && Balanced(body, 0)
    ensures Run(s, [Checkpoint] + body + [CommitCheckpoint]) == s
  {
    RunBracket(s, body, CommitCheckpoint);
    BelowUntouched(Step(s, Checkpoint), body, 0, 0);
  }

  ghost predicate CommitLaw(s: State, body: seq<Op>) {
    View(Run(s, [Checkpoint] + body + [CommitCheckpoint])) == View(Run(s, body))
  }

  /** Checkpoint and commit around a body leave its meaning alone, for every body, exactly when
      the stack is not empty to begin with. */
  lemma CommitLawIff(s: State)
    ensures (forall body | Balanced(body, 0) :: CommitLaw(s, body)) <==> s.layers != []
  {
    hide View, Run;
    if s.layers != [] {
      forall body | Balanced(body, 0) ensures CommitLaw(s, body) {
        CommitIsTransparent(s, body);
      }
    } else {
      var v := NEW_ACCOUNT.(nonce := if "" in s.table then s.table[""].nonce + 1 else 0);
      var body := [Set("", v)];
      assert body[1..] == [];
      assert Balanced(body, 0);
      CommitDropsOnlyLayer(s, body);
      OneWrite(s, "", v);
      assert !CommitLaw(s, body);
    }
  }

  lemma OneWrite(s: State, a: Address, v: Account)
    requires s.layers == []
    ensures View(s) == s.table && View(Run(s, [Set(a, v)])) == s.table[a := v]
  {
    assert [Set(a, v)][1..] == [];
    assert Run(s, [Set(a, v)]) == Step(s, Set(a, v));
    SnapWrite(s, a, Some(v));
    SnapTop(Step(s, Set(a, v)));
  }
}
