/** Crash atomicity: after a crash at any block write of a commit, any number of crashes
    inside recovery and a completed recovery, a transaction is on disk entirely or not at all. */
module LogCrash {
  import opened Common
  import opened LogSpec

  /** A transaction: the logged block numbers and what the cache holds for them. */
  datatype Txn = Txn(bs: seq<nat>, data: seq<Block>)

  ghost predicate TxnOk(size: nat, g: Area, t: Txn) {
    && Loggable(size, g, t.bs) && |t.data| == |t.bs|
    && forall i :: 0 <= i < |t.data| ==> |t.data[i]| == BLOCKWORDS
  }

  /** The disk with the transaction's blocks in place. */
  ghost function Updated(d: Disk, t: Txn): (e: Disk)
    requires |t.bs| == |t.data| && forall i :: 0 <= i < |t.bs| ==> t.bs[i] < |d|
    ensures |e| == |d|
  {
    seq(|d|, b requires 0 <= b < |d| => if b in t.bs then t.data[IndexOf(t.bs, b)] else d[b])
  }

  /** The same home blocks; the log area may differ. */
  ghost predicate SameHome(d: Disk, e: Disk, g: Area) {
    |d| == |e| && forall b :: 0 <= b < |d| && !InLog(g, b) ==> d[b] == e[b]
  }

  // --------------------------------------------------------- one commit, cut short

  ghost function CommitLength(t: Txn): nat {
    if t.bs == [] then 0 else 2 * |t.bs| + 2
  }

  /** Write number `j` of a commit. */
  ghost function CommitWriteAt(h: Block, g: Area, t: Txn, j: nat): Write
    requires |h| == BLOCKWORDS && |t.bs| == |t.data| <= LOGSIZE && j < CommitLength(t)
  {
    var n := |t.bs|;
    if j < n then Write(g.start + 1 + j, t.data[j])
    else if j == n then Write(g.start, PutHead(h, t.bs))
    else if j <= 2 * n then Write(t.bs[j-n-1], t.data[j-n-1])
    else Write(g.start, PutHead(PutHead(h, t.bs), []))
  }

  lemma CommitWritesAre(h: Block, g: Area, t: Txn)
    requires |h| == BLOCKWORDS && |t.bs| == |t.data| <= LOGSIZE
    ensures var ws := CommitWrites(h, g, t.bs, t.data);
      |ws| == CommitLength(t) && forall j :: 0 <= j < |ws| ==> ws[j] == CommitWriteAt(h, g, t, j)
  {
    if t.bs != [] {
      var n, a, c := |t.bs|, LogWrites(g, t.data), HomeWrites(t.bs, t.data);
      var ws := CommitWrites(h, g, t.bs, t.data);
      forall j | 0 <= j < |ws| ensures ws[j] == CommitWriteAt(h, g, t, j) {
        if j < n { assert ws[j] == a[j]; }
        else if n < j <= 2 * n { assert ws[j] == c[j-n-1]; }
      }
    }
  }

  /** The first `k` writes of a commit. */
  ghost function CommitPrefix(h: Block, g: Area, t: Txn, k: nat): (ws: seq<Write>)
    requires |h| == BLOCKWORDS && |t.bs| == |t.data| <= LOGSIZE && k <= CommitLength(t)
    ensures |ws| == k && forall j :: 0 <= j < k ==> ws[j] == CommitWriteAt(h, g, t, j)
  {
    CommitWritesAre(h, g, t);
    CommitWrites(h, g, t.bs, t.data)[..k]
  }

  lemma CommitPrefixOk(d: Disk, g: Area, t: Txn, k: nat)
    requires DiskOk(d, g) && TxnOk(|d|, g, t) && k <= CommitLength(t)
    ensures WritesOk(|d|, CommitPrefix(d[g.start], g, t, k))
  {
    var ws := CommitPrefix(d[g.start], g, t, k);
    forall j | 0 <= j < k ensures ws[j].b < |d| && |ws[j].data| == BLOCKWORDS {
      assert ws[j] == CommitWriteAt(d[g.start], g, t, j);
    }
  }

  /** The disk after the first `k` writes of a commit. */
  ghost function CommitCrash(d: Disk, g: Area, t: Txn, k: nat): (e: Disk)
    requires DiskOk(d, g) && TxnOk(|d|, g, t) && k <= CommitLength(t)
    ensures |e| == |d|
  {
    CommitPrefixOk(d, g, t, k);
    ApplyWrites(d, CommitPrefix(d[g.start], g, t, k))
  }

  /** The last write to a block decides; a block no write names stays. */
  lemma CommitLast(d: Disk, g: Area, t: Txn, k: nat, j: nat)
    requires DiskOk(d, g) && TxnOk(|d|, g, t) && j < k <= CommitLength(t)
    requires forall i :: j < i < k ==> CommitWriteAt(d[g.start], g, t, i).b != CommitWriteAt(d[g.start], g, t, j).b
    ensures CommitCrash(d, g, t, k)[CommitWriteAt(d[g.start], g, t, j).b] == CommitWriteAt(d[g.start], g, t, j).data
  {
    CommitPrefixOk(d, g, t, k);
    var ws := CommitPrefix(d[g.start], g, t, k);
    forall i | j < i < k ensures ws[i].b != ws[j].b {
      assert ws[i] == CommitWriteAt(d[g.start], g, t, i);
    }
    WrittenLast(d, ws, j);
  }

  lemma CommitNever(d: Disk, g: Area, t: Txn, k: nat, b: nat)
    requires DiskOk(d, g) && TxnOk(|d|, g, t) && k <= CommitLength(t) && b < |d|
    requires forall i :: 0 <= i < k ==> CommitWriteAt(d[g.start], g, t, i).b != b
    ensures CommitCrash(d, g, t, k)[b] == d[b]
  {
    CommitPrefixOk(d, g, t, k);
    var ws := CommitPrefix(d[g.start], g, t, k);
    forall i | 0 <= i < k ensures ws[i].b != b {
      assert ws[i] == CommitWriteAt(d[g.start], g, t, i);
    }
    Untouched(d, ws, b);
  }

  /** The header after `k` writes. */
  lemma CommitCrashHead(d: Disk, g: Area, t: Txn, k: nat)
    requires DiskOk(d, g) && TxnOk(|d|, g, t) && k <= CommitLength(t)
    ensures var h, n := d[g.start], |t.bs|;
      CommitCrash(d, g, t, k)[g.start] ==
        if k <= n then h else if k <= 2 * n + 1 then PutHead(h, t.bs) else PutHead(PutHead(h, t.bs), [])
  {
    var n := |t.bs|;
    if k <= n {
      CommitNever(d, g, t, k, g.start);
    } else if k <= 2 * n + 1 {
      CommitLast(d, g, t, k, n);
    } else {
      CommitLast(d, g, t, k, 2 * n + 1);
    }
  }

  /** Log block `i` after `k` writes. */
  lemma CommitCrashLog(d: Disk, g: Area, t: Txn, k: nat, i: nat)
    requires DiskOk(d, g) && TxnOk(|d|, g, t) && i < k <= CommitLength(t) && i < |t.bs|
    ensures CommitCrash(d, g, t, k)[g.start+1+i] == t.data[i]
  {
    CommitLast(d, g, t, k, i);
  }

  /** The home block of log block `i` after `k` writes. */
  lemma CommitCrashLogged(d: Disk, g: Area, t: Txn, k: nat, i: nat)
    requires DiskOk(d, g) && TxnOk(|d|, g, t) && k <= CommitLength(t) && i < |t.bs|
    ensures CommitCrash(d, g, t, k)[t.bs[i]] == if |t.bs| + 1 + i < k then t.data[i] else d[t.bs[i]]
  {
    if |t.bs| + 1 + i < k {
      CommitLast(d, g, t, k, |t.bs| + 1 + i);
    } else {
      CommitNever(d, g, t, k, t.bs[i]);
    }
  }

  /** Any other home block. */
  lemma CommitCrashOther(d: Disk, g: Area, t: Txn, k: nat, b: nat)
    requires DiskOk(d, g) && TxnOk(|d|, g, t) && k <= CommitLength(t) && b < |d| && !InLog(g, b) && b !in t.bs
    ensures CommitCrash(d, g, t, k)[b] == d[b]
  {
    CommitNever(d, g, t, k, b);
  }

  lemma CommitCrashOk(d: Disk, g: Area, t: Txn, k: nat)
    requires DiskOk(d, g) && TxnOk(|d|, g, t) && k <= CommitLength(t) && Logged(d, g) == []
    ensures var e, n := CommitCrash(d, g, t, k), |t.bs|;
      DiskOk(e, g) && Logged(e, g) == if n < k <= 2 * n + 1 then t.bs else []
  {
    var e := CommitCrash(d, g, t, k);
    CommitPrefixOk(d, g, t, k);
    CommitSizes(d, CommitPrefix(d[g.start], g, t, k));
    CommitCrashHead(d, g, t, k);
    HeadRoundTrip(d[g.start], t.bs);
    HeadRoundTrip(PutHead(d[g.start], t.bs), []);
  }

  lemma {:induction false} CommitSizes(d: Disk, ws: seq<Write>)
    requires WritesOk(|d|, ws) && forall b :: 0 <= b < |d| ==> |d[b]| == BLOCKWORDS
    ensures forall b :: 0 <= b < |d| ==> |ApplyWrites(d, ws)[b]| == BLOCKWORDS
  {
    if ws != [] { CommitSizes(d, ws[..|ws|-1]); }
  }

  /** The header write is the commit point: recovery after fewer writes finds the old home
      blocks, recovery after more finds the new ones. */
  lemma CommitAtomic(d: Disk, g: Area, t: Txn, k: nat)
    requires DiskOk(d, g) && TxnOk(|d|, g, t) && k <= CommitLength(t) && Logged(d, g) == []
    ensures DiskOk(CommitCrash(d, g, t, k), g)
    ensures SameHome(Recovered(CommitCrash(d, g, t, k), g), if k <= |t.bs| then d else Updated(d, t), g)
  {
    CommitCrashOk(d, g, t, k);
    var want := if k <= |t.bs| then d else Updated(d, t);
    forall b | 0 <= b < |d| && !InLog(g, b) ensures Recovered(CommitCrash(d, g, t, k), g)[b] == want[b] {
      CommitAtomicBlock(d, g, t, k, b);
    }
  }

  lemma CommitAtomicBlock(d: Disk, g: Area, t: Txn, k: nat, b: nat)
    requires DiskOk(d, g) && TxnOk(|d|, g, t) && k <= CommitLength(t) && Logged(d, g) == []
    requires DiskOk(CommitCrash(d, g, t, k), g) && b < |d| && !InLog(g, b)
    ensures Recovered(CommitCrash(d, g, t, k), g)[b] == if k <= |t.bs| then d[b] else Updated(d, t)[b]
  {
    if b in t.bs {
      CommitAtomicAt(d, g, t, k, IndexOf(t.bs, b));
    } else {
      CommitAtomicOther(d, g, t, k, b);
    }
  }

  lemma CommitAtomicOther(d: Disk, g: Area, t: Txn, k: nat, b: nat)
    requires DiskOk(d, g) && TxnOk(|d|, g, t) && k <= CommitLength(t) && Logged(d, g) == []
    requires DiskOk(CommitCrash(d, g, t, k), g) && b < |d| && !InLog(g, b) && b !in t.bs
    ensures Recovered(CommitCrash(d, g, t, k), g)[b] == d[b]
  {
    CommitCrashOk(d, g, t, k);
    CommitCrashOther(d, g, t, k, b);
    RecoveredBlock(CommitCrash(d, g, t, k), g, b);
  }

  lemma CommitAtomicAt(d: Disk, g: Area, t: Txn, k: nat, i: nat)
    requires DiskOk(d, g) && TxnOk(|d|, g, t) && k <= CommitLength(t) && Logged(d, g) == [] && i < |t.bs|
    requires DiskOk(CommitCrash(d, g, t, k), g)
    ensures Recovered(CommitCrash(d, g, t, k), g)[t.bs[i]] == if k <= |t.bs| then d[t.bs[i]] else t.data[i]
  {
    CommitCrashOk(d, g, t, k);
    RecoveredBlock(CommitCrash(d, g, t, k), g, t.bs[i]);
    CommitCrashLogged(d, g, t, k, i);
    if i < k { CommitCrashLog(d, g, t, k, i); }
  }

  // ------------------------------------------------------------------- whole runs

  /** The machine is up, with a clean log, or down, waiting for recovery. */
  datatype Machine = Machine(disk: Disk, up: bool)

  /** A commit or a recovery, of which `k` writes reach the disk before the power fails. */
  datatype Event = Commit(t: Txn, k: nat) | Recover(k: nat)

  ghost predicate Can(m: Machine, g: Area, e: Event) {
    && DiskOk(m.disk, g)
    && match e
       case Commit(t, k) => m.up && TxnOk(|m.disk|, g, t) && k <= CommitLength(t)
       case Recover(k) => !m.up && k <= |Logged(m.disk, g)| + 1
  }

  ghost function Next(m: Machine, g: Area, e: Event): Machine
    requires Can(m, g, e)
  {
    match e
    case Commit(t, k) => Machine(CommitCrash(m.disk, g, t, k), k == CommitLength(t))
    case Recover(k) => Machine(RecoverCrash(m.disk, g, k), k == |Logged(m.disk, g)| + 1)
  }

  ghost predicate Run(m: Machine, g: Area, es: seq<Event>, m': Machine)
    decreases |es|
  {
    if es == [] then m' == m
    else Can(m, g, es[0]) && Run(Next(m, g, es[0]), g, es[1..], m')
  }

  /** The transactions whose header reached the disk, in order. */
  function Committed(es: seq<Event>): seq<Txn> {
    if es == [] then []
    else if es[0].Commit? && es[0].k > |es[0].t.bs| then [es[0].t] + Committed(es[1..])
    else Committed(es[1..])
  }

  /** Whole transactions, applied one after the other. */
  ghost function Replay(d: Disk, ts: seq<Txn>): (e: Disk)
    requires forall i :: 0 <= i < |ts| ==> TxnFits(|d|, ts[i])
    ensures |e| == |d|
    decreases |ts|
  {
    if ts == [] then d
    else
      assert TxnFits(|d|, ts[0]);
      Replay(Updated(d, ts[0]), ts[1..])
  }

  ghost predicate TxnFits(size: nat, t: Txn) {
    |t.bs| == |t.data| && forall i :: 0 <= i < |t.bs| ==> t.bs[i] < size
  }

  ghost predicate Sound(m: Machine, g: Area, home: Disk) {
    && DiskOk(m.disk, g) && SameHome(Recovered(m.disk, g), home, g)
    && (m.up ==> Logged(m.disk, g) == [])
  }

  lemma SameUpdate(d: Disk, e: Disk, g: Area, t: Txn)
    requires SameHome(d, e, g) && TxnFits(|d|, t)
    ensures SameHome(Updated(d, t), Updated(e, t), g)
  {
  }

  lemma CleanHome(d: Disk, g: Area)
    requires DiskOk(d, g) && Logged(d, g) == []
    ensures SameHome(Recovered(d, g), d, g)
  {
    forall b | 0 <= b < |d| && !InLog(g, b) ensures Recovered(d, g)[b] == d[b] { RecoveredBlock(d, g, b); }
  }

  lemma CommitSound(m: Machine, g: Area, home: Disk, t: Txn, k: nat)
    requires Sound(m, g, home) && Can(m, g, Commit(t, k))
    ensures |home| == |m.disk| && Sound(Next(m, g, Commit(t, k)), g, if k > |t.bs| then Updated(home, t) else home)
  {
    CommitAtomic(m.disk, g, t, k);
    CommitCrashOk(m.disk, g, t, k);
    CleanHome(m.disk, g);
    var r := Recovered(CommitCrash(m.disk, g, t, k), g);
    Transfer(Recovered(m.disk, g), m.disk, home, g);
    SameUpdate(m.disk, home, g, t);
    if k > |t.bs| {
      Chain(r, Updated(m.disk, t), Updated(home, t), g);
    } else {
      Chain(r, m.disk, home, g);
    }
  }

  lemma Transfer(d: Disk, e: Disk, f: Disk, g: Area)
    requires SameHome(d, e, g) && SameHome(d, f, g)
    ensures SameHome(e, f, g)
  {
  }

  lemma Chain(d: Disk, e: Disk, f: Disk, g: Area)
    requires SameHome(d, e, g) && SameHome(e, f, g)
    ensures SameHome(d, f, g)
  {
  }

  lemma RecoverSound(m: Machine, g: Area, home: Disk, k: nat)
    requires Sound(m, g, home) && Can(m, g, Recover(k))
    ensures Sound(Next(m, g, Recover(k)), g, home)
  {
    RecoveryIdempotent(m.disk, g, k);
    RecoverCrashOk(m.disk, g, k);
  }

  lemma {:induction false} RunSound(m: Machine, g: Area, es: seq<Event>, m': Machine, home: Disk)
    requires Sound(m, g, home) && Run(m, g, es, m')
    ensures forall i :: 0 <= i < |Committed(es)| ==> TxnFits(|home|, Committed(es)[i])
    ensures Sound(m', g, Replay(home, Committed(es)))
    decreases |es|
  {
    if es != [] {
      var next := Next(m, g, es[0]);
      if es[0].Commit? {
        var t := es[0].t;
        CommitSound(m, g, home, t, es[0].k);
        RunSound(next, g, es[1..], m', if es[0].k > |t.bs| then Updated(home, t) else home);
        if es[0].k > |t.bs| {
          var rest := Committed(es[1..]);
          assert Committed(es) == [t] + rest;
          assert ([t] + rest)[1..] == rest;
        }
      } else {
        RecoverSound(m, g, home, es[0].k);
        RunSound(next, g, es[1..], m', home);
      }
    }
  }

  /** Crash atomicity over whole runs: with the log clean at the start, whatever commits,
      crashes and interrupted recoveries follow, once the machine is up again its home blocks
      are those of the committed transactions, whole and in order. */
  lemma CrashAtomicity(d: Disk, g: Area, es: seq<Event>, m: Machine)
    requires DiskOk(d, g) && Logged(d, g) == [] && Run(Machine(d, true), g, es, m) && m.up
    ensures forall i :: 0 <= i < |Committed(es)| ==> TxnFits(|d|, Committed(es)[i])
    ensures SameHome(m.disk, Replay(d, Committed(es)), g)
  {
    CleanHome(d, g);
    RunSound(Machine(d, true), g, es, m, d);
    CleanHome(m.disk, g);
  }
}
