/** Files and crashes: whatever happens between power failures, the disk holds a file system in
    which every file has the contents of the committed transactions, whole and in order. */
module FsCrash {
  import opened Common
  import opened FsSpec
  import opened FsDisk
  import opened FileSystem
  import LogSpec
  import LogCrash

  // ------------------------------------------------- blocks of bytes, blocks of words

  /** A block as the log sees it. */
  ghost function Words(b: Block): (w: LogSpec.Block)
    requires |b| == BSIZE
    ensures |w| == LogSpec.BLOCKWORDS
  {
    GetWords(b, 0, NINDIRECT)
  }

  lemma JoinInjective(a: Byte, b: Byte, c: Byte, d: Byte, a': Byte, b': Byte, c': Byte, d': Byte)
    requires Join(a, b, c, d) == Join(a', b', c', d')
    ensures a == a' && b == b' && c == c' && d == d'
  {
    var x, x' := b + 0x100 * (c + 0x100 * d), b' + 0x100 * (c' + 0x100 * d');
    assert a + 0x100 * x == a' + 0x100 * x';
    assert a == a' && x == x';
    assert b == b' && c + 0x100 * d == c' + 0x100 * d';
  }

  lemma WordsInjective(b: Block, b': Block)
    requires |b| == |b'| == BSIZE && Words(b) == Words(b')
    ensures b == b'
  {
    forall k | 0 <= k < BSIZE ensures b[k] == b'[k] {
      var j := k / 4;
      assert Words(b)[j] == GetWord(b, 0 + j) && Words(b')[j] == GetWord(b', 0 + j);
      JoinInjective(b[4*j], b[4*j+1], b[4*j+2], b[4*j+3], b'[4*j], b'[4*j+1], b'[4*j+2], b'[4*j+3]);
      assert k == 4 * j || k == 4 * j + 1 || k == 4 * j + 2 || k == 4 * j + 3;
    }
  }

  ghost function Raw(d: seq<Block>): (e: LogSpec.Disk)
    requires Blocks(d)
    ensures |e| == |d| && forall b :: 0 <= b < |d| ==> e[b] == Words(d[b])
  {
    seq(|d|, b requires 0 <= b < |d| => Words(d[b]))
  }

  ghost function LogArea(lay: Layout): LogSpec.Area { LogSpec.Area(lay.log, lay.nlog) }

  // --------------------------------------------------------------- one commit

  /** The log's transaction for a run of operations: every block they logged, with what it holds
      after the last of them. */
  ghost predicate Commits(t: Trace, x: LogCrash.Txn) {
    && |t.sts| == |t.ops| + 1 && |x.bs| == |x.data|
    && (forall k, b :: 0 <= k < |t.logs| && b in t.logs[k] ==> b in x.bs)
    && var d := t.sts[|t.ops|].d;
       Blocks(d) && forall i :: 0 <= i < |x.bs| ==> x.bs[i] < |d| && x.data[i] == Words(d[x.bs[i]])
  }

  lemma {:induction false} Unlogged(lay: Layout, t: Trace, k: nat, b: nat)
    requires TraceOk(lay, t) && k <= |t.ops| && b < |t.sts[0].d| && forall j :: 0 <= j < k ==> b !in t.logs[j]
    ensures |t.sts[k].d| == |t.sts[0].d| && t.sts[k].d[b] == t.sts[0].d[b]
  {
    if k > 0 {
      Unlogged(lay, t, k - 1, b);
      assert StepOk(lay, t, k - 1);
      assert LogOk(lay, t.sts[k - 1].d, t.sts[k].d, t.logs[k - 1], b);
    }
  }

  lemma {:induction false} TraceSize(lay: Layout, t: Trace, k: nat)
    requires TraceOk(lay, t) && k <= |t.ops|
    ensures |t.sts[k].d| == |t.sts[0].d| && Stored(lay, t.sts[k].d, t.sts[k].f)
  {
    if k > 0 {
      TraceSize(lay, t, k - 1);
      assert StepOk(lay, t, k - 1);
    }
  }

  /** With the transaction in place the disk is the one after the last operation. */
  lemma CommitRaw(lay: Layout, t: Trace, x: LogCrash.Txn)
    requires TraceOk(lay, t) && Commits(t, x)
    ensures Blocks(t.sts[0].d) && LogCrash.TxnFits(|t.sts[0].d|, x)
    ensures LogCrash.Updated(Raw(t.sts[0].d), x) == Raw(t.sts[|t.ops|].d)
  {
    var d, d' := t.sts[0].d, t.sts[|t.ops|].d;
    TraceSize(lay, t, |t.ops|);
    var u := LogCrash.Updated(Raw(d), x);
    forall b | 0 <= b < |d| ensures u[b] == Raw(d')[b] {
      if b !in x.bs { Unlogged(lay, t, |t.ops|, b); }
    }
  }

  /** The blocks that the first `n` operations logged. */
  ghost function LoggedTo(t: Trace, n: nat): set<nat>
    requires n <= |t.logs|
  {
    if n == 0 then {} else LoggedTo(t, n - 1) + t.logs[n - 1]
  }

  ghost predicate AtHome(lay: Layout, size: nat, b: nat) { lay.inodes <= b < size }

  lemma {:induction false} LoggedHome(lay: Layout, t: Trace, n: nat)
    requires TraceOk(lay, t) && n <= |t.ops|
    ensures |LoggedTo(t, n)| <= n * MAXOPBLOCKS && forall b :: b in LoggedTo(t, n) ==> AtHome(lay, |t.sts[0].d|, b)
  {
    if n > 0 {
      LoggedHome(lay, t, n - 1);
      TraceSize(lay, t, n - 1);
      UnionSize(LoggedTo(t, n - 1), t.logs[n - 1]);
      StepHome(lay, t, n - 1);
    }
  }

  lemma StepHome(lay: Layout, t: Trace, k: nat)
    requires TraceOk(lay, t) && k < |t.ops|
    ensures |t.logs[k]| <= MAXOPBLOCKS && forall b :: b in t.logs[k] ==> AtHome(lay, |t.sts[k].d|, b)
  {
    assert StepOk(lay, t, k);
    forall b | b in t.logs[k] ensures AtHome(lay, |t.sts[k].d|, b) {
      assert LogOk(lay, t.sts[k].d, t.sts[k + 1].d, t.logs[k], b);
    }
  }

  lemma {:induction false} LoggedAll(t: Trace, n: nat, k: nat)
    requires k < n <= |t.logs|
    ensures t.logs[k] <= LoggedTo(t, n)
  {
    if k < n - 1 { LoggedAll(t, n - 1, k); }
  }

  /** A transaction of home blocks that fits the log. */
  lemma TxnFor(lay: Layout, d: seq<Block>, a: set<nat>) returns (x: LogCrash.Txn)
    requires Blocks(d) && |a| <= LOGSIZE && |a| < lay.nlog && lay.log + lay.nlog <= lay.inodes
    requires forall b :: b in a ==> AtHome(lay, |d|, b)
    ensures LogCrash.TxnOk(|d|, LogArea(lay), x) && SetOf(x.bs) == a
    ensures forall i :: 0 <= i < |x.bs| ==> x.data[i] == Words(d[x.bs[i]])
  {
    var bs := SetToSeq(a);
    forall i | 0 <= i < |bs| ensures AtHome(lay, |d|, bs[i]) { assert bs[i] in SetOf(bs); }
    x := LogCrash.Txn(bs, seq(|bs|, i requires 0 <= i < |bs| => assert AtHome(lay, |d|, bs[i]); Words(d[bs[i]])));
  }

  /** Operations that fit the log together have a commit. */
  lemma CommitFor(lay: Layout, t: Trace) returns (x: LogCrash.Txn)
    requires TraceOk(lay, t) && |t.ops| * MAXOPBLOCKS <= LOGSIZE && |t.ops| * MAXOPBLOCKS < lay.nlog
    ensures Commits(t, x) && LogCrash.TxnOk(|t.sts[0].d|, LogArea(lay), x)
  {
    var n := |t.ops|;
    LoggedHome(lay, t, n);
    TraceSize(lay, t, n);
    x := TxnFor(lay, t.sts[n].d, LoggedTo(t, n));
    forall k, b | 0 <= k < |t.logs| && b in t.logs[k] ensures b in x.bs {
      LoggedAll(t, n, k);
      assert b in SetOf(x.bs);
    }
  }

  // ------------------------------------------------------------------ whole runs

  /** The machine, and the committed state: the one that a recovery would find. */
  datatype Sys = Sys(m: LogCrash.Machine, s: State)

  /** Some operations, as many as share a commit, of which `k` block writes reach the disk; or a
      recovery of which `k` writes do. */
  datatype Event = Batch(t: Trace, x: LogCrash.Txn, k: nat) | Recover(k: nat)

  /** The operations start from the committed files; what lies in the log does not matter. */
  ghost predicate Resumes(lay: Layout, s: State, s0: State) {
    && s0.f == s.f && |s0.d| == |s.d|
    && forall b :: 0 <= b < |s.d| && !LogSpec.InLog(LogArea(lay), b) ==> s0.d[b] == s.d[b]
  }

  ghost function LogEvent(e: Event): LogCrash.Event {
    match e
    case Batch(_, x, k) => LogCrash.Commit(x, k)
    case Recover(k) => LogCrash.Recover(k)
  }

  ghost predicate Can(lay: Layout, y: Sys, e: Event) {
    && LogCrash.Can(y.m, LogArea(lay), LogEvent(e))
    && (e.Batch? ==> TraceOk(lay, e.t) && Resumes(lay, y.s, e.t.sts[0]) && Commits(e.t, e.x))
  }

  /** The header of the commit reached the disk, or nothing was logged. */
  ghost predicate Kept(e: Event) { e.Batch? && (e.k > |e.x.bs| || e.x.bs == []) }

  ghost function Next(lay: Layout, y: Sys, e: Event): Sys
    requires Can(lay, y, e)
  {
    Sys(LogCrash.Next(y.m, LogArea(lay), LogEvent(e)), if Kept(e) then e.t.sts[|e.t.ops|] else y.s)
  }

  ghost predicate Run(lay: Layout, y: Sys, es: seq<Event>, y': Sys)
    decreases |es|
  {
    if es == [] then y' == y else Can(lay, y, es[0]) && Run(lay, Next(lay, y, es[0]), es[1..], y')
  }

  /** The committed state is a file system in order, and a recovery finds it. */
  ghost predicate Good(lay: Layout, y: Sys) {
    Stored(lay, y.s.d, y.s.f) && LogCrash.Sound(y.m, LogArea(lay), Raw(y.s.d))
  }

  /** A disk with a clean log that holds a file system is a good start. */
  lemma CleanStart(lay: Layout, s: State)
    requires Stored(lay, s.d, s.f) && LogSpec.DiskOk(Raw(s.d), LogArea(lay))
    requires LogSpec.Logged(Raw(s.d), LogArea(lay)) == []
    ensures Good(lay, Sys(LogCrash.Machine(Raw(s.d), true), s))
  {
    LogCrash.CleanHome(Raw(s.d), LogArea(lay));
  }

  lemma SameRaw(lay: Layout, s: State, s0: State)
    requires Resumes(lay, s, s0) && Blocks(s.d) && Blocks(s0.d)
    ensures LogCrash.SameHome(Raw(s.d), Raw(s0.d), LogArea(lay))
  {
  }

  lemma SoundElse(m: LogCrash.Machine, g: LogSpec.Area, home: LogSpec.Disk, home': LogSpec.Disk)
    requires LogCrash.Sound(m, g, home) && LogCrash.SameHome(home, home', g)
    ensures LogCrash.Sound(m, g, home')
  {
    LogCrash.Chain(LogSpec.Recovered(m.disk, g), home, home', g);
  }

  lemma StepGood(lay: Layout, y: Sys, e: Event)
    requires Good(lay, y) && Can(lay, y, e)
    ensures Good(lay, Next(lay, y, e))
  {
    var g := LogArea(lay);
    match e
    case Recover(k) =>
      LogCrash.RecoverSound(y.m, g, Raw(y.s.d), k);
    case Batch(t, x, k) =>
      LogCrash.CommitSound(y.m, g, Raw(y.s.d), x, k);
      if Kept(e) { BatchGood(lay, y, t, x, k); }
  }

  lemma BatchGood(lay: Layout, y: Sys, t: Trace, x: LogCrash.Txn, k: nat)
    requires Good(lay, y) && Can(lay, y, Batch(t, x, k)) && (k > |x.bs| || x.bs == [])
    requires var m, u := LogCrash.Next(y.m, LogArea(lay), LogCrash.Commit(x, k)), LogCrash.Updated(Raw(y.s.d), x);
      LogCrash.Sound(m, LogArea(lay), if k > |x.bs| then u else Raw(y.s.d))
    ensures Good(lay, Sys(LogCrash.Next(y.m, LogArea(lay), LogCrash.Commit(x, k)), t.sts[|t.ops|]))
  {
    var g, u := LogArea(lay), LogCrash.Updated(Raw(y.s.d), x);
    var m := LogCrash.Next(y.m, g, LogCrash.Commit(x, k));
    TraceSize(lay, t, |t.ops|);
    CommitRaw(lay, t, x);
    SameRaw(lay, y.s, t.sts[0]);
    LogCrash.SameUpdate(Raw(y.s.d), Raw(t.sts[0].d), g, x);
    if x.bs == [] { assert u == Raw(y.s.d); }
    SoundElse(m, g, u, Raw(t.sts[|t.ops|].d));
  }

  // -------------------------------------------------------------------- files

  /** The contents of inode `i` after the first `n` operations. */
  ghost function After(c: seq<Byte>, i: nat, ops: seq<Op>, n: nat): seq<Byte>
    requires n <= |ops|
  {
    if n == 0 then c
    else
      var b := After(c, i, ops, n - 1);
      match ops[n - 1]
      case Op(j, off, data) => if j == i && off <= |b| then Overwrite(b, off, data) else b
      case Drop(j) => if j == i then [] else b
  }

  lemma {:induction false} AfterTrace(t: Trace, i: nat, n: nat)
    requires Effects(t) && n <= |t.ops| && Inv(t.sts[0].f) && i < |t.sts[0].f.inodes|
    ensures Inv(t.sts[n].f) && |t.sts[n].f.inodes| == |t.sts[0].f.inodes|
    ensures Contents(t.sts[n].f, i) == After(Contents(t.sts[0].f, i), i, t.ops, n)
  {
    if n > 0 {
      AfterTrace(t, i, n - 1);
      assert EffectAt(t, n - 1);
      if t.ops[n - 1].i != i { assert FileKept(t.sts[n - 1].f, t.sts[n].f, i); }
    }
  }

  lemma {:induction false} AfterBoth(c: seq<Byte>, i: nat, ops: seq<Op>, more: seq<Op>, n: nat)
    requires n <= |more|
    ensures After(c, i, ops + more, |ops| + n) == After(After(c, i, ops, |ops|), i, more, n)
  {
    if n > 0 {
      AfterBoth(c, i, ops, more, n - 1);
    } else {
      AfterPrefix(c, i, ops, more, |ops|);
    }
  }

  lemma {:induction false} AfterPrefix(c: seq<Byte>, i: nat, ops: seq<Op>, more: seq<Op>, n: nat)
    requires n <= |ops|
    ensures After(c, i, ops + more, n) == After(c, i, ops, n)
  {
    if n > 0 { AfterPrefix(c, i, ops, more, n - 1); }
  }

  lemma AfterAll(c: seq<Byte>, c1: seq<Byte>, c2: seq<Byte>, i: nat, ops: seq<Op>, more: seq<Op>)
    requires c1 == After(c, i, ops, |ops|) && c2 == After(c1, i, more, |more|)
    ensures c2 == After(c, i, ops + more, |ops + more|)
  {
    AfterBoth(c, i, ops, more, |more|);
  }

  ghost function Ops(e: Event): seq<Op> { if Kept(e) then e.t.ops else [] }

  /** The operations that were committed, in order. */
  ghost function Committed(es: seq<Event>): seq<Op> {
    if es == [] then [] else Ops(es[0]) + Committed(es[1..])
  }

  lemma StepFiles(lay: Layout, y: Sys, e: Event, i: nat)
    requires Good(lay, y) && Can(lay, y, e) && i < |y.s.f.inodes|
    ensures Good(lay, Next(lay, y, e)) && |Next(lay, y, e).s.f.inodes| == |y.s.f.inodes|
    ensures Contents(Next(lay, y, e).s.f, i) == After(Contents(y.s.f, i), i, Ops(e), |Ops(e)|)
  {
    StepGood(lay, y, e);
    if Kept(e) {
      TraceEffects(lay, e.t);
      AfterTrace(e.t, i, |e.t.ops|);
    }
  }

  lemma {:induction false} RunFiles(lay: Layout, y: Sys, es: seq<Event>, y': Sys, i: nat)
    requires Good(lay, y) && Run(lay, y, es, y') && i < |y.s.f.inodes|
    ensures Good(lay, y') && |y'.s.f.inodes| == |y.s.f.inodes|
    ensures Contents(y'.s.f, i) == After(Contents(y.s.f, i), i, Committed(es), |Committed(es)|)
    decreases |es|
  {
    if es != [] {
      var next := Next(lay, y, es[0]);
      StepFiles(lay, y, es[0], i);
      RunFiles(lay, next, es[1..], y', i);
      AfterAll(Contents(y.s.f, i), Contents(next.s.f, i), Contents(y'.s.f, i), i, Ops(es[0]), Committed(es[1..]));
    }
  }

  lemma {:induction false} RunGood(lay: Layout, y: Sys, es: seq<Event>, y': Sys)
    requires Good(lay, y) && Run(lay, y, es, y')
    ensures Good(lay, y')
    decreases |es|
  {
    if es != [] {
      StepGood(lay, y, es[0]);
      RunGood(lay, Next(lay, y, es[0]), es[1..], y');
    }
  }

  /** Whatever commits, crashes and interrupted recoveries there are, once the machine is up its
      disk holds a file system in order, in which every file has the contents that the committed
      operations give it, whole and in order. */
  lemma FilesSurvive(lay: Layout, y: Sys, es: seq<Event>, y': Sys)
    requires Good(lay, y) && Run(lay, y, es, y') && y'.m.up
    ensures Stored(lay, y'.s.d, y'.s.f) && LogCrash.SameHome(y'.m.disk, Raw(y'.s.d), LogArea(lay))
    ensures |y'.s.f.inodes| == |y.s.f.inodes|
    ensures forall i :: 0 <= i < |y.s.f.inodes| ==>
      Contents(y'.s.f, i) == After(Contents(y.s.f, i), i, Committed(es), |Committed(es)|)
  {
    RunGood(lay, y, es, y');
    UpHolds(lay, y');
    RunInodes(lay, y, es, y');
    forall i | 0 <= i < |y.s.f.inodes|
      ensures Contents(y'.s.f, i) == After(Contents(y.s.f, i), i, Committed(es), |Committed(es)|)
    {
      RunFiles(lay, y, es, y', i);
    }
  }

  lemma UpHolds(lay: Layout, y: Sys)
    requires Good(lay, y) && y.m.up
    ensures LogCrash.SameHome(y.m.disk, Raw(y.s.d), LogArea(lay))
  {
    LogCrash.CleanHome(y.m.disk, LogArea(lay));
    LogCrash.Transfer(LogSpec.Recovered(y.m.disk, LogArea(lay)), y.m.disk, Raw(y.s.d), LogArea(lay));
  }

  lemma {:induction false} RunInodes(lay: Layout, y: Sys, es: seq<Event>, y': Sys)
    requires Good(lay, y) && Run(lay, y, es, y')
    ensures |y'.s.f.inodes| == |y.s.f.inodes|
    decreases |es|
  {
    if es != [] {
      var e := es[0];
      StepGood(lay, y, e);
      if Kept(e) {
        TraceEffects(lay, e.t);
        TraceInodes(e.t, |e.t.ops|);
      }
      RunInodes(lay, Next(lay, y, e), es[1..], y');
    }
  }

  lemma {:induction false} TraceInodes(t: Trace, n: nat)
    requires Effects(t) && n <= |t.ops|
    ensures |t.sts[n].f.inodes| == |t.sts[0].f.inodes|
  {
    if n > 0 {
      TraceInodes(t, n - 1);
      assert EffectAt(t, n - 1);
    }
  }

  // ------------------------------------------------------------- filewrite, cut off

  /** Whenever the machine is up, operations that start from its files and fit the log together
      can be committed, and the power may fail at any of the writes. */
  lemma CommitPossible(lay: Layout, y: Sys, t: Trace) returns (x: LogCrash.Txn)
    requires Good(lay, y) && y.m.up && TraceOk(lay, t) && Resumes(lay, y.s, t.sts[0])
    requires |t.ops| * MAXOPBLOCKS <= LOGSIZE && |t.ops| * MAXOPBLOCKS < lay.nlog
    ensures forall k :: 0 <= k <= LogCrash.CommitLength(x) ==> Can(lay, y, Batch(t, x, k))
  {
    x := CommitFor(lay, t);
  }

  /** Operations `n` up to `p` of a run. */
  ghost function Part(t: Trace, n: nat, p: nat): Trace
    requires n <= p <= |t.ops| == |t.logs| && |t.sts| == |t.ops| + 1
  {
    Trace(t.sts[n..p + 1], t.ops[n..p], t.logs[n..p])
  }

  lemma PartOk(lay: Layout, t: Trace, n: nat, p: nat)
    requires TraceOk(lay, t) && n <= p <= |t.ops|
    ensures TraceOk(lay, Part(t, n, p)) && Part(t, n, p).sts[0] == t.sts[n] && Part(t, n, p).sts[p - n] == t.sts[p]
  {
    var u := Part(t, n, p);
    TraceSize(lay, t, n);
    forall k | 0 <= k < |u.ops| ensures StepOk(lay, u, k) {
      assert StepOk(lay, t, n + k);
      assert u.sts[k] == t.sts[n + k] && u.sts[k + 1] == t.sts[n + k + 1];
      assert u.ops[k] == t.ops[n + k] && u.logs[k] == t.logs[n + k];
    }
  }

  /** The committed state after some events. */
  ghost function StateAfter(s: State, es: seq<Event>): State
    requires forall k :: 0 <= k < |es| && Kept(es[k]) ==> |es[k].t.sts| == |es[k].t.ops| + 1
    decreases |es|
  {
    if es == [] then s else StateAfter(if Kept(es[0]) then es[0].t.sts[|es[0].t.ops|] else s, es[1..])
  }

  lemma {:induction false} RunState(lay: Layout, y: Sys, es: seq<Event>, y': Sys)
    requires Run(lay, y, es, y')
    ensures forall k :: 0 <= k < |es| && Kept(es[k]) ==> |es[k].t.sts| == |es[k].t.ops| + 1
    ensures y'.s == StateAfter(y.s, es)
    decreases |es|
  {
    if es != [] {
      RunState(lay, Next(lay, y, es[0]), es[1..], y');
      forall k | 0 <= k < |es| && Kept(es[k]) ensures |es[k].t.sts| == |es[k].t.ops| + 1 {
        if k > 0 { assert es[k] == es[1..][k - 1]; }
      }
    }
  }

  /** From operation `n` on the operations of `t` are committed in order, any number of them at a
      time, with power failures and recoveries in between; `m` of them are in the end. */
  ghost predicate Follows(t: Trace, n: nat, es: seq<Event>, m: nat)
    requires |t.ops| == |t.logs| && |t.sts| == |t.ops| + 1
    decreases |es|
  {
    n <= |t.ops|
    && if es == [] then m == n
       else if es[0].Recover? then Follows(t, n, es[1..], m)
       else
         var p := n + |es[0].t.ops|;
         p <= |t.ops| && es[0].t == Part(t, n, p) && Follows(t, if Kept(es[0]) then p else n, es[1..], m)
  }

  lemma {:induction false} FollowsState(t: Trace, n: nat, s: State, es: seq<Event>, m: nat)
    requires |t.ops| == |t.logs| && |t.sts| == |t.ops| + 1 && Follows(t, n, es, m) && s == t.sts[n]
    requires forall k :: 0 <= k < |es| && Kept(es[k]) ==> |es[k].t.sts| == |es[k].t.ops| + 1
    ensures n <= m <= |t.ops| && StateAfter(s, es) == t.sts[m]
    decreases |es|
  {
    if es != [] {
      var p := if Kept(es[0]) then n + |es[0].t.ops| else n;
      FollowsState(t, p, t.sts[p], es[1..], m);
    }
  }

  /** A filewrite that the power cuts off anywhere: once the machine is up again its disk holds a
      file system in which the file has `m` whole chunks of the data, and every other file is as
      before. */
  lemma FilewriteCut(lay: Layout, t: Trace, i: nat, off: nat, addr: seq<Byte>, last: State,
                     y: Sys, es: seq<Event>, y': Sys, m: nat)
    requires Progress(lay, t, i, off, addr, y.s, last) && |t.logs| == |t.ops| && Follows(t, 0, es, m)
    requires Good(lay, y) && Run(lay, y, es, y') && y'.m.up
    ensures m <= |t.ops| && Appended(y.s.f, i, off, addr, Chunked(addr, m), y'.s.f)
    ensures Stored(lay, y'.s.d, y'.s.f) && LogCrash.SameHome(y'.m.disk, Raw(y'.s.d), LogArea(lay))
  {
    RunGood(lay, y, es, y');
    UpHolds(lay, y');
    RunState(lay, y, es, y');
    FollowsState(t, 0, y.s, es, m);
    TraceEffects(lay, t);
    ChunksWritten(t, i, off, addr, m);
  }

  /** Such runs exist, from every point to every other: with room for one operation in the log,
      the transactions can be committed one by one. */
  lemma {:induction false} FilewriteGoesOn(lay: Layout, t: Trace, n: nat, y: Sys, m: nat)
      returns (es: seq<Event>, y': Sys)
    requires TraceOk(lay, t) && n <= m <= |t.ops| && lay.nlog > MAXOPBLOCKS
    requires Good(lay, y) && y.m.up && y.s == t.sts[n]
    ensures Run(lay, y, es, y') && Follows(t, n, es, m) && Good(lay, y') && y'.m.up && y'.s == t.sts[m]
    decreases m - n
  {
    es, y' := [], y;
    if n < m {
      var e := NextCommit(lay, t, n, y);
      StepGood(lay, y, e);
      var rest;
      rest, y' := FilewriteGoesOn(lay, t, n + 1, Next(lay, y, e), m);
      es := [e] + rest;
      assert es[1..] == rest;
    }
  }

  lemma NextCommit(lay: Layout, t: Trace, n: nat, y: Sys) returns (e: Event)
    requires TraceOk(lay, t) && n < |t.ops| && lay.nlog > MAXOPBLOCKS && Good(lay, y) && y.m.up && y.s == t.sts[n]
    ensures e.Batch? && Can(lay, y, e) && Kept(e) && e.t == Part(t, n, n + 1) && |e.t.ops| == 1
    ensures Next(lay, y, e).m.up && Next(lay, y, e).s == t.sts[n + 1]
  {
    var u := Part(t, n, n + 1);
    PartOk(lay, t, n, n + 1);
    var x := CommitPossible(lay, y, u);
    e := Batch(u, x, LogCrash.CommitLength(x));
  }

  /** If of the transactions of a filewrite the first `k` were committed, the file has the bytes
      of `k` whole chunks, and all other files are as before. */
  lemma {:induction false} AfterChunks(c: seq<Byte>, i: nat, off: nat, addr: seq<Byte>, ops: seq<Op>, k: nat)
    requires ChunksOf(i, off, addr, ops) && k <= |ops| && off <= |c|
    ensures After(c, i, ops, k) == OverwriteTo(c, off, addr, Chunked(addr, k))
  {
    if k > 0 {
      AfterChunks(c, i, off, addr, ops, k - 1);
      assert ChunkIs(i, off, addr, ops[k - 1], Chunked(addr, k - 1));
      AfterChunk(c, After(c, i, ops, k - 1), i, off, addr, ops[k - 1], Chunked(addr, k - 1), Chunked(addr, k));
    }
  }

  lemma {:induction false} OthersStay(c: seq<Byte>, j: nat, i: nat, off: nat, addr: seq<Byte>, ops: seq<Op>, k: nat)
    requires ChunksOf(i, off, addr, ops) && k <= |ops| && j != i
    ensures After(c, j, ops, k) == c
  {
    if k > 0 {
      OthersStay(c, j, i, off, addr, ops, k - 1);
      assert ChunkIs(i, off, addr, ops[k - 1], Chunked(addr, k - 1));
    }
  }

  lemma AfterChunk(c: seq<Byte>, b: seq<Byte>, i: nat, off: nat, addr: seq<Byte>, op: Op, n: nat, n': nat)
    requires ChunkIs(i, off, addr, op, n) && n' == n + MinChunk(|addr| - n) && off <= |c|
    requires b == OverwriteTo(c, off, addr, n)
    ensures op.i == i && op.off <= |b| && Overwrite(b, op.off, op.data) == OverwriteTo(c, off, addr, n')
  {
    OverwriteOn(c, off, addr, n, op.data, |op.data|);
  }

  // ---------------------------------------------------------------- reading it back

  /** A disk holds the contents of at most one file system: the home blocks decide. */
  lemma DiskDecides(lay: Layout, e: LogSpec.Disk, s: State, s': State, i: nat)
    requires Stored(lay, s.d, s.f) && Stored(lay, s'.d, s'.f) && |s.f.inodes| == |s'.f.inodes| && i < |s.f.inodes|
    requires LogCrash.SameHome(e, Raw(s.d), LogArea(lay)) && LogCrash.SameHome(e, Raw(s'.d), LogArea(lay))
    ensures Contents(s.f, i) == Contents(s'.f, i)
  {
    forall b | lay.inodes <= b < |e| ensures s.d[b] == s'.d[b] { WordsInjective(s.d[b], s'.d[b]); }
    Places(lay, |e|, |s.f.inodes|);
    assert InodeOk(lay, s.d, s.f.inodes, i) && InodeOk(lay, s'.d, s'.f.inodes, i);
    forall bn | 0 <= bn < MAXFILE ensures Addr(s.f, i, bn) == Addr(s'.f, i, bn) { SameAddr(lay, s, s', i, bn); }
    forall k | 0 <= k < s.f.inodes[i].size ensures Contents(s.f, i)[k] == Contents(s'.f, i)[k] {
      ContentsAt(s.f, i, k);
      ContentsAt(s'.f, i, k);
      var a := Addr(s.f, i, k / BSIZE);
      BlockData(s.f, i, k / BSIZE);
      assert DataOk(s.d, s.f.blocks, a) && DataOk(s'.d, s'.f.blocks, a);
    }
  }

  lemma SameAddr(lay: Layout, s: State, s': State, i: nat, bn: nat)
    requires Stored(lay, s.d, s.f) && Stored(lay, s'.d, s'.f) && i < |s.f.inodes| == |s'.f.inodes| && bn < MAXFILE
    requires |s.d| == |s'.d| && s.f.inodes[i] == s'.f.inodes[i]
    requires forall b :: lay.inodes <= b < |s.d| ==> s.d[b] == s'.d[b]
    ensures Addr(s.f, i, bn) == Addr(s'.f, i, bn)
  {
    var a := s.f.inodes[i].addrs[NDIRECT];
    if a != 0 {
      IndirectData(s.f, i);
      assert DataOk(s.d, s.f.blocks, a) && DataOk(s'.d, s'.f.blocks, a);
    }
  }
}
