/** Admission to the log: what begin_op reserves is never overdrawn, over every run of
    operations that keep to MAXOPBLOCKS distinct blocks each. */
module LogBudget {
  import opened Common

  /** begin_op admits an operation when the log has room for all it may write. */
  predicate MayBegin(n: int, outstanding: int, committing: bool) {
    !committing && n + (outstanding + 1) * MAXOPBLOCKS <= LOGSIZE
  }

  /** The in-memory log, and the blocks that each open operation has logged. */
  datatype State = State(lh: seq<nat>, ops: seq<set<nat>>, outstanding: int, committing: bool)

  datatype Step =
    | Begin
    | Add(i: nat, b: nat)
    | End(i: nat)
    | CommitDone

  const Empty := State([], [], 0, false)

  /** log_write panics; `size` is log.size. */
  predicate Panics(s: State, size: nat) {
    |s.lh| >= LOGSIZE || |s.lh| >= size - 1 || s.outstanding < 1
  }

  /** Steps that happen: begin_op returns, an operation within its budget logs a block and
      nothing panics, end_op, and the end of a commit. */
  ghost predicate Enabled(s: State, size: nat, e: Step) {
    match e
    case Begin => MayBegin(|s.lh|, s.outstanding, s.committing)
    case Add(i, b) => i < |s.ops| && |s.ops[i] + {b}| <= MAXOPBLOCKS && !Panics(s, size)
    case End(i) => i < |s.ops| && !s.committing
    case CommitDone => s.committing
  }

  ghost function Apply(s: State, e: Step): State
    requires (e.Add? || e.End?) ==> e.i < |s.ops|
  {
    match e
    case Begin => s.(ops := s.ops + [{}], outstanding := s.outstanding + 1)
    case Add(i, b) => s.(lh := if b in s.lh then s.lh else s.lh + [b], ops := s.ops[i := s.ops[i] + {b}])
    case End(i) => s.(ops := s.ops[..i] + s.ops[i+1..], outstanding := s.outstanding - 1,
                      committing := s.outstanding == 1)
    case CommitDone => s.(lh := [], committing := false)
  }

  ghost predicate Run(s: State, size: nat, es: seq<Step>, s': State)
    decreases |es|
  {
    if es == [] then s' == s
    else Enabled(s, size, es[0]) && Run(Apply(s, es[0]), size, es[1..], s')
  }

  // ------------------------------------------------------------------- invariant

  /** What the open operations may still log. */
  ghost function Unspent(ops: seq<set<nat>>): int {
    if ops == [] then 0 else Unspent(ops[..|ops|-1]) + MAXOPBLOCKS - |ops[|ops|-1]|
  }

  ghost predicate OpOk(lh: seq<nat>, op: set<nat>) {
    |op| <= MAXOPBLOCKS && forall b :: b in op ==> b in lh
  }

  ghost predicate Inv(s: State) {
    && Distinct(s.lh)
    && (forall i {:trigger OpOk(s.lh, s.ops[i])} :: 0 <= i < |s.ops| ==> OpOk(s.lh, s.ops[i]))
    && s.outstanding == |s.ops|
    && |s.lh| + Unspent(s.ops) <= LOGSIZE
    && (s.committing ==> s.ops == [])
    && (!s.committing && s.ops == [] ==> s.lh == [])
  }

  lemma {:induction false} UnspentBounds(lh: seq<nat>, ops: seq<set<nat>>)
    requires forall i {:trigger OpOk(lh, ops[i])} :: 0 <= i < |ops| ==> OpOk(lh, ops[i])
    ensures 0 <= Unspent(ops) <= |ops| * MAXOPBLOCKS
  {
    if ops != [] {
      UnspentBounds(lh, ops[..|ops|-1]);
      assert OpOk(lh, ops[|ops|-1]);
    }
  }

  lemma {:induction false} UnspentUpdate(ops: seq<set<nat>>, i: nat, op: set<nat>)
    requires i < |ops|
    ensures Unspent(ops[i := op]) == Unspent(ops) + |ops[i]| - |op|
  {
    var n := |ops| - 1;
    if i == n {
      assert ops[i := op][..n] == ops[..n];
    } else {
      UnspentUpdate(ops[..n], i, op);
      assert ops[i := op][..n] == ops[..n][i := op];
    }
  }

  lemma {:induction false} UnspentRemove(ops: seq<set<nat>>, i: nat)
    requires i < |ops|
    ensures Unspent(ops[..i] + ops[i+1..]) == Unspent(ops) - MAXOPBLOCKS + |ops[i]|
  {
    var n := |ops| - 1;
    var rest := ops[..i] + ops[i+1..];
    if i == n {
      assert rest == ops[..n];
    } else {
      UnspentRemove(ops[..n], i);
      assert rest[..n-1] == ops[..n][..i] + ops[..n][i+1..];
    }
  }

  lemma WriteInv(s: State, size: nat, i: nat, b: nat)
    requires Inv(s) && Enabled(s, size, Add(i, b))
    ensures Inv(Apply(s, Add(i, b)))
  {
    var s' := Apply(s, Add(i, b));
    assert OpOk(s.lh, s.ops[i]);
    UnspentUpdate(s.ops, i, s.ops[i] + {b});
    if b !in s.lh {
      assert b !in s.ops[i];
      assert s'.lh == s.lh + [b];
    }
    assert b in s'.lh by { if b !in s.lh { assert s'.lh[|s.lh|] == b; } }
    assert |s.ops[i]| <= |s.ops[i] + {b}| by { assert b in s.ops[i] ==> s.ops[i] + {b} == s.ops[i]; }
    forall k | 0 <= k < |s'.ops| ensures OpOk(s'.lh, s'.ops[k]) {
      assert OpOk(s.lh, s.ops[k]);
      forall c | c in s'.ops[k] ensures c in s'.lh { assert c in s.ops[k] || c == b; }
    }
  }

  lemma StepInv(s: State, size: nat, e: Step)
    requires Inv(s) && Enabled(s, size, e)
    ensures Inv(Apply(s, e))
  {
    var s' := Apply(s, e);
    match e
    case Begin =>
      UnspentBounds(s.lh, s.ops);
      assert s'.ops[..|s.ops|] == s.ops;
      forall k | 0 <= k < |s'.ops| ensures OpOk(s'.lh, s'.ops[k]) {
        if k < |s.ops| { assert OpOk(s.lh, s.ops[k]); }
      }
    case Add(i, b) => WriteInv(s, size, i, b);
    case End(i) =>
      UnspentRemove(s.ops, i);
      assert OpOk(s.lh, s.ops[i]);
      forall k | 0 <= k < |s'.ops| ensures OpOk(s'.lh, s'.ops[k]) {
        assert OpOk(s.lh, s.ops[if k < i then k else k + 1]);
      }
    case CommitDone =>
  }

  lemma {:induction false} RunInv(s: State, size: nat, es: seq<Step>, s': State)
    requires Inv(s) && Run(s, size, es, s')
    ensures Inv(s')
    decreases |es|
  {
    if es != [] {
      StepInv(s, size, es[0]);
      RunInv(Apply(s, es[0]), size, es[1..], s');
    }
  }

  /** In every reachable state the logged blocks and the unspent budgets fit the log
      together, and a commit runs only when no operation is open. */
  lemma Budget(size: nat, es: seq<Step>, s: State)
    requires Run(Empty, size, es, s)
    ensures |s.lh| + Unspent(s.ops) <= LOGSIZE && s.outstanding == |s.ops|
    ensures s.committing ==> s.outstanding == 0
  {
    RunInv(Empty, size, es, s);
  }

  // ----------------------------------------------------------------- log_write's guards

  /** In some reachable state, an operation that has budget left for a new block finds
      log_write panicking. */
  ghost predicate CanPanic(size: nat) {
    exists es, s, i, b :: Stuck(size, es, s, i, b)
  }

  ghost predicate Stuck(size: nat, es: seq<Step>, s: State, i: nat, b: nat) {
    Run(Empty, size, es, s) && i < |s.ops| && b !in s.ops[i] && |s.ops[i]| < MAXOPBLOCKS && Panics(s, size)
  }

  lemma {:induction false} UnspentAtLeast(lh: seq<nat>, ops: seq<set<nat>>, i: nat)
    requires i < |ops| && forall k {:trigger OpOk(lh, ops[k])} :: 0 <= k < |ops| ==> OpOk(lh, ops[k])
    ensures Unspent(ops) >= MAXOPBLOCKS - |ops[i]|
  {
    var n := |ops| - 1;
    assert OpOk(lh, ops[n]);
    if i == n { UnspentBounds(lh, ops[..n]); } else { UnspentAtLeast(lh, ops[..n], i); }
  }

  /** Budgeted writes never panic if, and only if, the log area is larger than LOGSIZE; an
      area of exactly LOGSIZE blocks, header included, is one block short. */
  lemma NoPanicIffLarger(size: nat)
    ensures !CanPanic(size) <==> size > LOGSIZE
  {
    if size > LOGSIZE {
      forall es, s, i, b ensures !Stuck(size, es, s, i, b) { NotStuck(size, es, s, i, b); }
    } else {
      PanicRun(size);
    }
  }

  lemma NotStuck(size: nat, es: seq<Step>, s: State, i: nat, b: nat)
    requires size > LOGSIZE
    ensures !Stuck(size, es, s, i, b)
  {
    if Stuck(size, es, s, i, b) {
      RunInv(Empty, size, es, s);
      UnspentAtLeast(s.lh, s.ops, i);
    }
  }

  // Three operations log blocks 0, 1, 2, ..., each until its budget is spent.

  ghost function Upto(k: nat): (bs: seq<nat>)
    ensures |bs| == k && forall i :: 0 <= i < k ==> bs[i] == i
  {
    seq(k, i => i)
  }

  /** What operation `j` has logged after `k` writes. */
  ghost function Level(k: nat, j: nat): set<nat> {
    Range(10 * j, if k < 10 * j + 10 then k else 10 * j + 10)
  }

  ghost function Filled(k: nat): State {
    State(Upto(k), [Level(k, 0), Level(k, 1), Level(k, 2)], 3, false)
  }

  ghost function Filling(k: nat): seq<Step> {
    if k == 0 then [Begin, Begin, Begin] else Filling(k - 1) + [Add((k - 1) / 10, k - 1)]
  }

  lemma {:induction false} RunMore(s: State, size: nat, es: seq<Step>, s': State, e: Step)
    requires Run(s, size, es, s') && Enabled(s', size, e)
    ensures Run(s, size, es + [e], Apply(s', e))
    decreases |es|
  {
    if es == [] {
      assert [e][1..] == [];
    } else {
      RunMore(Apply(s, es[0]), size, es[1..], s', e);
      assert (es + [e])[1..] == es[1..] + [e];
    }
  }

  lemma LevelStep(k: nat, j: nat)
    ensures Level(k + 1, j) == if k / 10 == j then Level(k, j) + {k} else Level(k, j)
    ensures |Level(k + 1, j)| <= MAXOPBLOCKS && |Level(k, j)| <= MAXOPBLOCKS
    ensures Level(0, j) == {} && (k < 10 * j + 10 ==> |Level(k, j)| < MAXOPBLOCKS && k !in Level(k, j))
  {
    RangeSize(10 * j, if k < 10 * j + 10 then k else 10 * j + 10);
    RangeSize(10 * j, if k + 1 < 10 * j + 10 then k + 1 else 10 * j + 10);
  }

  lemma FillStep(size: nat, k: nat)
    requires k < LOGSIZE && k < size - 1
    ensures Enabled(Filled(k), size, Add(k / 10, k)) && Apply(Filled(k), Add(k / 10, k)) == Filled(k + 1)
  {
    LevelStep(k, 0);
    LevelStep(k, 1);
    LevelStep(k, 2);
    assert Upto(k) + [k] == Upto(k + 1);
  }

  lemma {:induction false} FillRun(size: nat, k: nat)
    requires k <= LOGSIZE && k <= size - 1
    ensures Run(Empty, size, Filling(k), Filled(k))
  {
    if k == 0 {
      Three(size);
    } else {
      FillRun(size, k - 1);
      FillStep(size, k - 1);
      RunMore(Empty, size, Filling(k - 1), Filled(k - 1), Add((k - 1) / 10, k - 1));
    }
  }

  lemma Three(size: nat)
    ensures Run(Empty, size, [Begin, Begin, Begin], Filled(0))
  {
    var s1, s2 := Apply(Empty, Begin), Apply(Apply(Empty, Begin), Begin);
    assert Run(Empty, size, [], Empty);
    RunMore(Empty, size, [], Empty, Begin);
    RunMore(Empty, size, [] + [Begin], s1, Begin);
    RunMore(Empty, size, [] + [Begin] + [Begin], s2, Begin);
    assert [] + [Begin] + [Begin] + [Begin] == [Begin, Begin, Begin];
    LevelStep(0, 0);
    LevelStep(0, 1);
    LevelStep(0, 2);
    assert Apply(s2, Begin) == Filled(0);
  }

  lemma PanicRun(size: nat)
    requires size <= LOGSIZE
    ensures CanPanic(size)
  {
    var k := if size == 0 then 0 else size - 1;
    if size == 0 {
      Three(size);
    } else {
      FillRun(size, k);
    }
    LevelStep(k, 2);
    assert Stuck(size, Filling(k), Filled(k), 2, k);
  }

  /** In a larger log, log_write panics for an open operation exactly when the log is full, and
      then every open operation has spent its budget. */
  lemma PanicsIffFull(size: nat, es: seq<Step>, s: State, i: nat)
    requires size > LOGSIZE && Run(Empty, size, es, s) && i < |s.ops|
    ensures Panics(s, size) <==> |s.lh| == LOGSIZE
    ensures Panics(s, size) ==> |s.ops[i]| == MAXOPBLOCKS
  {
    RunInv(Empty, size, es, s);
    UnspentAtLeast(s.lh, s.ops, i);
    assert OpOk(s.lh, s.ops[i]);
  }

  /** That does happen: the guard comes before absorption, so with a full log even a block that
      the operation has logged already cannot be logged again. */
  lemma RewritePanics(size: nat)
    requires size > LOGSIZE
    ensures exists es, s :: Run(Empty, size, es, s) && |s.ops| == 3 && 0 in s.ops[0] && Panics(s, size)
  {
    FillRun(size, LOGSIZE);
    var s := Filled(LOGSIZE);
    assert 0 in Level(LOGSIZE, 0) by { assert Between(0, 0, 10); }
    assert Run(Empty, size, Filling(LOGSIZE), s);
  }

  /** In a larger log a commit can hold LOGSIZE blocks. */
  ghost predicate FullCommit(size: nat, es: seq<Step>, s: State) {
    Run(Empty, size, es, s) && s.committing && |s.lh| == LOGSIZE
  }

  lemma FullCommitRun(size: nat)
    requires size > LOGSIZE
    ensures exists es, s :: FullCommit(size, es, s)
  {
    FillRun(size, LOGSIZE);
    var es, s := EndAll(size, Filling(LOGSIZE), Filled(LOGSIZE));
    assert FullCommit(size, es, s);
  }

  /** All open operations end, and the last one starts the commit. */
  lemma {:induction false} EndAll(size: nat, es: seq<Step>, s: State) returns (es': seq<Step>, s': State)
    requires Run(Empty, size, es, s) && !s.committing && s.outstanding == |s.ops| > 0
    ensures Run(Empty, size, es', s') && s'.committing && s'.lh == s.lh
    decreases |s.ops|
  {
    RunMore(Empty, size, es, s, End(0));
    es', s' := es + [End(0)], Apply(s, End(0));
    if |s.ops| > 1 { es', s' := EndAll(size, es', s'); }
  }

  /** In a log of at most LOGSIZE blocks none holds that many. */
  lemma {:induction false} SmallCommits(size: nat, s: State, es: seq<Step>, s': State)
    requires Run(s, size, es, s') && (|s.lh| == 0 || |s.lh| < size)
    ensures |s'.lh| == 0 || |s'.lh| < size
    decreases |es|
  {
    if es != [] { SmallCommits(size, Apply(s, es[0]), es[1..], s'); }
  }

  // ------------------------------------------------------------------- waiting

  /** Whoever is made to wait outside a commit waits for an open operation, whose end or commit
      wakes it: without one the log is empty. And it waits only for want of room, counting
      MAXOPBLOCKS for it and for each open operation. */
  lemma RefusedIsFull(size: nat, es: seq<Step>, s: State)
    requires Run(Empty, size, es, s) && !s.committing
    ensures !Enabled(s, size, Begin) <==> |s.lh| + (|s.ops| + 1) * MAXOPBLOCKS > LOGSIZE
    ensures !Enabled(s, size, Begin) ==> s.ops != []
  {
    RunInv(Empty, size, es, s);
  }
}
