/** The log layer over the buffer cache: write_log to recover_from_log and log_write. The
    methods make exactly the block writes that crash atomicity is proved about. */
module LogImpl {
  import opened Common
  import opened LogSpec
  import opened LogCrash
  import opened Bcache
  import LogBudget

  /** Contents of the listed blocks. */
  ghost function Contents(flat: Disk, bs: seq<nat>): (data: seq<Block>)
    requires forall i :: 0 <= i < |bs| ==> bs[i] < |flat|
    ensures |data| == |bs| && forall i :: 0 <= i < |bs| ==> data[i] == flat[bs[i]]
  {
    seq(|bs|, i requires 0 <= i < |bs| => flat[bs[i]])
  }

  /** What the cache and the disk show: contents, disk, the writes made so far and the
      disk before and after each of them. */
  datatype Store = Store(flat: Disk, disk: Disk, trace: seq<Write>, history: seq<Disk>)

  ghost function Put(s: Store, w: Write): Store
    requires w.b < |s.flat| == |s.disk|
  {
    var disk := s.disk[w.b := w.data];
    Store(s.flat[w.b := w.data], disk, s.trace + [w], s.history + [disk])
  }

  /** The log area lies on the disk, and the block numbers `bs` may be logged. */
  ghost predicate Fits(s: Store, g: Area, bs: seq<nat>) {
    match s
    case Store(flat, disk, trace, history) =>
      |flat| == |disk| && g.start + g.size <= |disk| && Loggable(|disk|, g, bs)
  }

  lemma CopyBounds(s: Store, g: Area, bs: seq<nat>, k: nat)
    requires Fits(s, g, bs) && k < |bs|
    ensures g.start + k + 1 < |s.disk| && bs[k] < |s.disk| && g.start + k + 1 != bs[k]
  {
    assert !InLog(g, bs[k]);
  }

  /** From `s` to `v` every block stayed as it was or was written through. */
  ghost predicate Synced(s: Store, v: Store) {
    && |v.flat| == |v.disk| == |s.flat| == |s.disk|
    && forall b :: 0 <= b < |s.disk| ==> SyncedAt(s, v, b)
  }

  ghost predicate SyncedAt(s: Store, v: Store, b: nat)
    requires b < |v.flat| == |v.disk| == |s.flat| == |s.disk|
  {
    (v.flat[b] == s.flat[b] && v.disk[b] == s.disk[b]) || v.flat[b] == v.disk[b]
  }

  lemma SyncedTrans(s: Store, v: Store, u: Store)
    requires Synced(s, v) && Synced(v, u)
    ensures Synced(s, u)
  {
    forall b | 0 <= b < |s.disk| ensures SyncedAt(s, u, b) {
      assert SyncedAt(s, v, b) && SyncedAt(v, u, b);
    }
  }

  lemma SyncedPut(s: Store, w: Write)
    requires w.b < |s.flat| == |s.disk|
    ensures Synced(s, Put(s, w))
  {
  }

  class Log {
    const g: Area
    const cache: Cache
    /** log.lh: the block numbers of the open transaction. */
    var lh: seq<nat>
    var outstanding: nat
    var committing: bool
    /** The blocks that each open operation has logged. */
    ghost var ops: seq<set<nat>>

    ghost function View(): Store
      reads cache
    {
      Store(cache.flat, cache.disk, cache.trace, cache.history)
    }

    constructor (area: Area, c: Cache)
      ensures g == area && cache == c && lh == [] && Budget() == LogBudget.Empty
    {
      g, cache, lh, outstanding, committing, ops := area, c, [], 0, false, [];
    }

    /** The log as the admission rules see it. */
    ghost function Budget(): LogBudget.State
      reads this
    {
      LogBudget.State(lh, ops, outstanding, committing)
    }

    /** Exactly the logged blocks are in dirty buffers. */
    ghost predicate Pins()
      reads this, cache
    {
      cache.dirt == SetOf(lh)
    }

    /** The buffers that are in use. */
    ghost function Use(): Load
      reads cache
    {
      Load(cache.dirt, cache.refs, cache.n)
    }

    /** No buffer is left, and the kernel panics. */
    ghost predicate NoBuffers()
      reads cache
    {
      forall k :: 0 <= k < |cache.buf| ==> Busy(cache.buf[k])
    }

    /** Buffer `i` is held and shows block `b`. */
    ghost predicate Holding(i: nat, b: nat)
      reads cache
    {
      && i < |cache.buf| && b < |cache.flat| == |cache.disk|
      && cache.buf[i].blockno == Some(b) && cache.buf[i].valid && cache.buf[i].refcnt > 0
      && cache.buf[i].data == cache.flat[b] && |cache.flat[b]| == BLOCKWORDS
    }

    /** bread a log block and a home block. `ok` is false when the cache has no free buffer
        and the kernel panics. */
    method ReadPair(log: nat, home: nat) returns (l: nat, h: nat, ok: bool)
      requires cache.Valid() && log < |cache.disk| && home < |cache.disk| && log != home
      modifies cache
      ensures cache.Valid() && View() == old(View())
      ensures ok ==> l != h && Holding(l, log) && Holding(h, home)
      ensures !ok ==> NoBuffers()
      ensures Paired(old(Use()), ok, log, home, Use())
    {
      h := 0;
      l := cache.Bread(log);
      if l == cache.n { return l, h, false; }
      h := cache.Bread(home);
      ok := h != cache.n;
    }

    /** brelse two buffers, `i` first. */
    method ReleasePair(i: nat, j: nat)
      requires cache.Valid() && i < |cache.buf| && j < |cache.buf| && i != j
      requires cache.buf[i].refcnt > 0 && cache.buf[j].refcnt > 0
      modifies cache
      ensures cache.Valid() && View() == old(View()) && Use() == old(Use()).(refs := Use().refs)
      ensures Use().refs + 2 == old(Use()).refs
    {
      cache.Brelse(i);
      cache.Brelse(j);
    }

    /** bread both blocks, copy one over the other, bwrite, brelse both. */
    method Copy(log: nat, home: nat, toLog: bool) returns (ok: bool)
      requires cache.Valid() && log < |cache.disk| && home < |cache.disk| && log != home
      modifies cache
      ensures cache.Valid() && |cache.flat| == |cache.disk| == |old(cache.disk)| == |old(cache.flat)|
      ensures View() == if !ok then old(View())
                        else if toLog then Put(old(View()), Write(log, old(cache.flat)[home]))
                        else Put(old(View()), Write(home, old(cache.flat)[log]))
      ensures !ok ==> NoBuffers()
      ensures Copied(old(Use()), ok, log, home, if toLog then log else home, Use())
    {
      var l, h;
      l, h, ok := ReadPair(log, home);
      if ok {
        if toLog { Transfer(h, l, home, log); } else { Transfer(l, h, log, home); }
      }
    }

    /** Copy buffer `i` to buffer `j`, bwrite it, and brelse both. */
    method Transfer(i: nat, j: nat, ghost from: nat, ghost to: nat)
      requires cache.Valid() && Holding(i, from) && Holding(j, to) && i != j
      modifies cache
      ensures cache.Valid() && View() == Put(old(View()), Write(to, old(cache.flat)[from]))
      ensures Use().n == old(Use()).n && Use().refs + 2 == old(Use()).refs && Use().dirt == old(Use()).dirt - {to}
    {
      cache.WriteThrough(j, cache.buf[i].data);
      ReleasePair(i, j);
    }

    /** write_log: copy the cached blocks of the transaction to the log, `k` of them. */
    method WriteLog() returns (ghost k: nat, ok: bool)
      requires cache.Valid() && Fits(View(), g, lh)
      modifies cache
      ensures cache.Valid() && (ok ==> k == |lh|) && (!ok ==> NoBuffers())
      ensures LogWritten(old(View()), g, lh, k, View()) && LogLoad(old(Use()), g, lh, k, ok, Use())
    {
      ghost var s, u := View(), Use();
      LogNothing(s, g, lh);
      ok := true;
      var tail := 0;
      while ok && tail < |lh|
        invariant 0 <= tail <= |lh|
        invariant cache.Valid() && LogWritten(s, g, lh, tail, View())
        invariant (!ok ==> NoBuffers()) && LogLoad(u, g, lh, tail, ok, Use())
        decreases ok, |lh| - tail
      {
        ghost var u1 := Use();
        ok := LogBlock(s, tail);
        LogLoadMore(s, u, g, lh, tail, u1, ok, Use());
        if ok { tail := tail + 1; }
      }
      k := tail;
    }

    /** One round of write_log. */
    method LogBlock(ghost s: Store, tail: nat) returns (ok: bool)
      requires cache.Valid() && Fits(s, g, lh) && tail < |lh| && LogWritten(s, g, lh, tail, View())
      modifies cache
      ensures cache.Valid() && LogWritten(s, g, lh, if ok then tail + 1 else tail, View()) && (!ok ==> NoBuffers())
      ensures Copied(old(Use()), ok, g.start + tail + 1, lh[tail], g.start + tail + 1, Use())
    {
      ghost var v := View();
      CopyBounds(s, g, lh, tail);
      LogSize(s, g, lh, tail, v);
      ok := Copy(g.start + tail + 1, lh[tail], true);
      if ok { LogOneMore(s, g, lh, tail, v, View()); }
    }

    /** install_trans: copy `k` log blocks to their home locations. */
    method InstallTrans() returns (ghost k: nat, ok: bool)
      requires cache.Valid() && Fits(View(), g, lh)
      modifies cache
      ensures cache.Valid() && (ok ==> k == |lh|) && (!ok ==> NoBuffers())
      ensures Installed(old(View()), g, lh, k, View()) && InstallLoad(old(Use()), lh, k, ok, Use())
    {
      ghost var s, u := View(), Use();
      InstallNothing(s, g, lh);
      ok := true;
      var tail := 0;
      while ok && tail < |lh|
        invariant 0 <= tail <= |lh|
        invariant cache.Valid() && Installed(s, g, lh, tail, View())
        invariant (!ok ==> NoBuffers()) && InstallLoad(u, lh, tail, ok, Use())
        decreases ok, |lh| - tail
      {
        ok := InstallRound(s, u, tail);
        if ok { tail := tail + 1; }
      }
      k := tail;
    }

    /** One round of install_trans, and the buffers it needs. */
    method InstallRound(ghost s: Store, ghost u: Load, tail: nat) returns (ok: bool)
      requires cache.Valid() && Fits(s, g, lh) && tail < |lh| && Installed(s, g, lh, tail, View())
      requires InstallLoad(u, lh, tail, true, Use())
      modifies cache
      ensures cache.Valid() && Installed(s, g, lh, if ok then tail + 1 else tail, View()) && (!ok ==> NoBuffers())
      ensures InstallLoad(u, lh, if ok then tail + 1 else tail, ok, Use())
    {
      ghost var u1 := Use();
      ok := InstallBlock(s, tail);
      InstallLoadMore(s, u, g, lh, tail, u1, ok, Use());
    }

    /** Copy log block `tail` home. */
    method InstallBlock(ghost s: Store, tail: nat) returns (ok: bool)
      requires cache.Valid() && Fits(s, g, lh) && tail < |lh| && Installed(s, g, lh, tail, View())
      modifies cache
      ensures cache.Valid() && Installed(s, g, lh, if ok then tail + 1 else tail, View()) && (!ok ==> NoBuffers())
      ensures Copied(old(Use()), ok, g.start + tail + 1, lh[tail], lh[tail], Use())
    {
      ghost var v := View();
      CopyBounds(s, g, lh, tail);
      InstallSize(s, g, lh, tail, v);
      ok := Copy(g.start + tail + 1, lh[tail], false);
      if ok { InstallOneMore(s, g, lh, tail, v, View()); }
    }

    /** write_head: put the in-memory header into the header block and write it. */
    method WriteHead() returns (ok: bool)
      requires cache.Valid() && g.start < |cache.disk| && |lh| <= LOGSIZE
      modifies cache
      ensures cache.Valid() && |cache.flat| == |cache.disk| == |old(cache.disk)| == |old(cache.flat)|
      ensures |old(cache.flat)[g.start]| == BLOCKWORDS
      ensures View() == if ok then Put(old(View()), Write(g.start, PutHead(old(cache.flat)[g.start], lh)))
                        else old(View())
      ensures (!ok ==> NoBuffers()) && HeadLoad(old(Use()), g.start, ok, Use())
    {
      var i := cache.Bread(g.start);
      if i == cache.n { return false; }
      var head := FillHead(cache.buf[i].data);
      cache.WriteThrough(i, head);
      cache.Brelse(i);
      ok := true;
    }

    /** The loop of write_head: the count and the numbers, over what the block holds. */
    method FillHead(h: Block) returns (head: Block)
      requires |h| == BLOCKWORDS && |lh| <= LOGSIZE
      ensures head == PutHead(h, lh)
    {
      head := h[0 := |lh|];
      var k := 0;
      while k < |lh|
        invariant 0 <= k <= |lh| && head == [|lh|] + lh[..k] + h[k+1..]
      {
        head := head[k + 1 := lh[k]];
        k := k + 1;
      }
      assert lh[..k] == lh;
    }

    /** read_head: take the in-memory header from the header block. */
    method ReadHead() returns (ok: bool)
      requires cache.Valid() && g.start < |cache.disk| && GoodHead(|cache.disk|, g, cache.flat[g.start])
      modifies cache, `lh
      ensures cache.Valid() && View() == old(View())
      ensures ok ==> lh == HeadBlocks(cache.flat[g.start])
      ensures !ok ==> lh == old(lh) && NoBuffers()
      ensures ReadLoad(old(Use()), g.start, ok, Use())
    {
      var i := cache.Bread(g.start);
      if i == cache.n { return false; }
      lh := ListIn(cache.buf[i].data);
      cache.Brelse(i);
      ok := true;
    }

    /** The loop of read_head. */
    method ListIn(head: Block) returns (bs: seq<nat>)
      requires |head| == BLOCKWORDS && 0 <= head[0] <= LOGSIZE && forall i :: 1 <= i <= head[0] ==> head[i] >= 0
      ensures bs == HeadBlocks(head)
    {
      bs := [];
      var k := 0;
      while k < head[0]
        invariant 0 <= k <= head[0] && |bs| == k
        invariant forall j :: 0 <= j < k ==> bs[j] == head[j+1]
      {
        bs := bs + [head[k+1]];
        k := k + 1;
      }
    }

    /** Between operations: the log on disk is clean, and what is not logged is on disk. */
    ghost predicate Valid()
      reads this, cache
    {
      cache.Valid() && Clean(View(), g, lh)
    }

    /** The open transaction: the logged blocks with their contents in the cache. */
    ghost function Open(): Txn
      requires Valid()
      reads this, cache
    {
      Txn(lh, Contents(cache.flat, lh))
    }

    /** commit. `k` writes reach the disk: all of them, unless the cache runs out of buffers
        and the kernel panics. The disk goes through exactly the states that crash atomicity
        is about, and no home block reads differently than before. */
    method Commit() returns (ghost k: nat, ok: bool)
      requires Valid()
      modifies cache, `lh
      ensures CommitRan(old(View()), g, old(Open()), k, View())
      ensures ok ==> Valid() && k == CommitLength(old(Open())) && lh == []
      ensures ok ==> SameHome(cache.flat, old(cache.flat), g)
      ensures (!ok ==> NoBuffers()) && CommitLoad(old(Use()), old(lh), ok, Use())
    {
      ghost var s, t := View(), Open();
      OpenOk(s, g, t);
      if |lh| == 0 {
        k, ok := 0, true;
        NothingRan(s, g, t);
      } else {
        k, ok := CommitSome(t);
      }
    }

    /** The body of commit, for a transaction that is not empty. */
    method CommitSome(ghost t: Txn) returns (ghost k: nat, ok: bool)
      requires cache.Valid() && Clean(View(), g, lh) && TxnOk(|cache.disk|, g, t) && lh != []
      requires t == Txn(lh, Contents(cache.flat, lh))
      modifies cache, `lh
      ensures cache.Valid() && CommitRan(old(View()), g, t, k, View())
      ensures ok ==>
        Clean(View(), g, []) && k == CommitLength(t) && lh == [] && SameHome(cache.flat, old(cache.flat), g)
      ensures (!ok ==> NoBuffers()) && CommitLoad(old(Use()), old(lh), ok, Use())
    {
      ghost var s, u := View(), Use();
      CleanFits(s, g, lh);
      k, ok := WriteLog();
      ghost var a, u1 := View(), Use();
      LogRan(s, g, t, k, a);
      if ok {
        ok := WriteHead();
        ghost var u2 := Use();
        if ok {
          HeadRan(s, g, t, a, View());
          k, ok := Finish(s, t);
          CommitUse(s, g, t.bs, u, u1, u2, ok, Use());
        } else {
          CommitShort(s, g, t.bs, u, k, u1, u2);
        }
      } else {
        CommitShort(s, g, t.bs, u, k, u1, u1);
      }
      RanIs(s, g, t, k, View());
    }

    /** The part of commit after the header is written. */
    method Finish(ghost s: Store, ghost t: Txn) returns (ghost k: nat, ok: bool)
      requires cache.Valid() && Clean(s, g, lh) && TxnOk(|s.disk|, g, t) && lh == t.bs != []
      requires t.data == Contents(s.flat, lh) && Ran(s, g, t, |lh| + 1, View()) && LogReady(s, g, t, View())
      modifies cache, `lh
      ensures cache.Valid() && Ran(s, g, t, k, View())
      ensures ok ==> Clean(View(), g, []) && k == CommitLength(t) && lh == [] && SameHome(cache.flat, s.flat, g)
      ensures (!ok ==> NoBuffers()) && FinishLoad(old(Use()), g, t.bs, ok, Use())
    {
      ghost var b, u := View(), Use();
      k, ok := InstallTrans();
      ghost var c, u1 := View(), Use();
      InstallRan(s, g, t, b, k, c);
      k := |lh| + 1 + k;
      if ok {
        lh := [];
        ok := WriteHead();
        FinishUse(u, g, t.bs, u1, ok, Use());
        if ok {
          ClearRan(s, g, t, c, View());
          k := k + 1;
        }
      }
    }

    /** recover_from_log, on a machine that has just booted and caches nothing. `k` of its
        writes reach the disk; a completed recovery leaves a clean log. */
    method RecoverFromLog() returns (ghost k: nat, ok: bool)
      requires cache.Valid() && DiskOk(cache.disk, g) && cache.flat == cache.disk
      modifies cache, `lh
      ensures cache.Valid() && RecoverRan(old(View()), g, k, View())
      ensures ok ==> Valid() && lh == [] && k == |Logged(old(cache.disk), g)| + 1
      ensures ok ==> cache.disk == cache.flat == Recovered(old(cache.disk), g)
      ensures (!ok ==> NoBuffers()) && RecoverLoad(old(Use()), Logged(old(cache.disk), g), ok, Use())
    {
      ghost var s, u := View(), Use();
      k := 0;
      ok := ReadHead();
      if ok {
        HeadFits(s, g);
        ghost var u1 := Use();
        k, ok := Reinstall(s);
        RecoverUse(u, g, Logged(s.disk, g), u1, ok, Use());
      } else {
        NothingRecovers(s, g);
        RecoverShort(u, g, Logged(s.disk, g), Use());
      }
      RecIs(s, g, k, View());
      if ok { RecClean(s, g, View()); }
    }

    /** recover_from_log after the header was read. */
    method Reinstall(ghost s: Store) returns (ghost k: nat, ok: bool)
      requires cache.Valid() && View() == s && DiskOk(s.disk, g) && s.flat == s.disk && lh == Logged(s.disk, g)
      requires Fits(s, g, lh)
      modifies cache, `lh
      ensures cache.Valid() && RecRan(s, g, k, View()) && (ok ==> lh == [] && k == |Logged(s.disk, g)| + 1)
      ensures (!ok ==> NoBuffers()) && ReinstallLoad(old(Use()), Logged(s.disk, g), ok, Use())
    {
      ghost var u := Use();
      k, ok := InstallTrans();
      InstallRecovers(s, g, k, View());
      if ok {
        ok := EndRecovery(s, Logged(s.disk, g), u);
        k := if ok then k + 1 else k;
      } else {
        ReinstallShort(u, Logged(s.disk, g), k, Use());
      }
    }

    /** The end of recover_from_log, which has installed the blocks `bs`: clear the header. */
    method EndRecovery(ghost s: Store, ghost bs: seq<nat>, ghost u: Load) returns (ok: bool)
      requires cache.Valid() && DiskOk(s.disk, g) && bs == Logged(s.disk, g) && RecRan(s, g, |bs|, View())
      requires g.start < |cache.flat| == |cache.disk| && cache.flat[g.start] == s.disk[g.start]
      requires InstallLoad(u, bs, |bs|, true, Use())
      modifies cache, `lh
      ensures cache.Valid() && lh == [] && RecRan(s, g, |bs| + (if ok then 1 else 0), View())
      ensures (!ok ==> NoBuffers()) && ReinstallLoad(u, bs, ok, Use())
    {
      lh := [];
      ok := WriteHead();
      ReinstallUse(u, g, bs, old(Use()), ok, Use());
      if ok { ClearRecovers(s, g, bs, old(View()), View()); }
    }

    /** begin_op, one look at the log: admitted, which is a step of the budget, or put to sleep. */
    method BeginOp() returns (ok: bool)
      modifies `outstanding, `ops
      ensures ok <==> LogBudget.Enabled(old(Budget()), g.size, LogBudget.Begin)
      ensures ok <==> !committing && |lh| + (old(outstanding) + 1) * MAXOPBLOCKS <= LOGSIZE
      ensures outstanding == old(outstanding) + if ok then 1 else 0
      ensures Budget() == if ok then LogBudget.Apply(old(Budget()), LogBudget.Begin) else old(Budget())
    {
      if committing {
        ok := false;
      } else if |lh| + (outstanding + 1) * MAXOPBLOCKS > LOGSIZE {
        ok := false;
      } else {
        outstanding, ops := outstanding + 1, ops + [{}];
        ok := true;
      }
    }

    /** end_op of operation `op`: the last one to end commits. It panics if a commit is under way. */
    method EndOp(ghost op: nat) returns (ghost k: nat, ok: bool)
      requires Valid() && outstanding >= 1 && op < |ops|
      modifies this, cache
      ensures old(committing) ==> !ok
      ensures !old(committing) && old(outstanding) > 1 ==>
        && ok && Valid() && View() == old(View()) && Use() == old(Use())
        && Budget() == LogBudget.Apply(old(Budget()), LogBudget.End(op))
      ensures !old(committing) && old(outstanding) == 1 ==>
        && CommitRan(old(View()), g, old(Open()), k, View())
        && (!ok ==> NoBuffers()) && CommitLoad(old(Use()), old(lh), ok, Use())
      ensures !old(committing) && old(outstanding) == 1 && ok ==>
        && Valid() && k == CommitLength(old(Open())) && SameHome(cache.flat, old(cache.flat), g)
        && Budget() == LogBudget.Apply(LogBudget.Apply(old(Budget()), LogBudget.End(op)), LogBudget.CommitDone)
    {
      outstanding, k, ops := outstanding - 1, 0, ops[..op] + ops[op+1..];
      if committing { return k, false; }
      ok := true;
      if outstanding == 0 {
        committing := true;
        k, ok := Commit();
        committing := false;
      }
    }

    /** log_write, called on behalf of operation `op` by an owner of buffer `i` who has put `data`
        into it. The kernel panics when the log might not have room or no operation is open. */
    method LogWrite(i: nat, data: Block, ghost op: nat) returns (ok: bool)
      requires Valid() && i < |cache.buf| && cache.buf[i].valid && cache.buf[i].blockno.Some? && cache.buf[i].refcnt > 0
      requires cache.buf[i].blockno.value < |cache.disk| && !InLog(g, cache.buf[i].blockno.value)
      requires |data| == BLOCKWORDS
      requires outstanding >= 1 ==> op < |ops|
      modifies cache, `lh, `ops
      ensures ok <==> !LogBudget.Panics(old(Budget()), g.size)
      ensures ok <==> |old(lh)| < LOGSIZE && |old(lh)| < g.size - 1 && outstanding >= 1
      ensures Valid() && cache.disk == old(cache.disk) && cache.trace == old(cache.trace)
      ensures cache.history == old(cache.history)
      ensures var b := old(cache.buf)[i].blockno.value;
        if ok then
          && cache.flat == old(cache.flat)[b := data]
          && Budget() == LogBudget.Apply(old(Budget()), LogBudget.Add(op, b))
          && (old(Pins()) ==> Pins())
        else cache.flat == old(cache.flat) && Budget() == old(Budget())
    {
      if |lh| >= LOGSIZE || |lh| >= g.size - 1 { return false; }
      if outstanding < 1 { return false; }
      ghost var s := View();
      var b := cache.buf[i].blockno.value;
      cache.Modify(i, data);
      var k := 0;
      while k < |lh| && lh[k] != b
        invariant 0 <= k <= |lh| && b !in lh[..k]
      {
        k := k + 1;
      }
      if k == |lh| {
        LoggedMore(s, g, lh, b, data);
        assert SetOf(lh + [b]) == SetOf(lh) + {b};
        lh := lh + [b];
      } else {
        LoggedAgain(s, g, lh, b, data);
        assert SetOf(lh) == SetOf(lh) + {b};
      }
      ops := ops[op := ops[op] + {b}];
      ok := true;
    }
  }

  /** What begin_op, log_write within budget and end_op keep of the reservation. */
  lemma BudgetKept(s: LogBudget.State, size: nat, e: LogBudget.Step)
    requires LogBudget.Inv(s) && LogBudget.Enabled(s, size, e)
    ensures LogBudget.Inv(LogBudget.Apply(s, e))
    ensures e.End? && s.outstanding == 1 ==> LogBudget.Inv(LogBudget.Apply(LogBudget.Apply(s, e), LogBudget.CommitDone))
  {
    LogBudget.StepInv(s, size, e);
    var t := LogBudget.Apply(s, e);
    if e.End? && s.outstanding == 1 { LogBudget.StepInv(t, size, LogBudget.CommitDone); }
  }

  // ------------------------------------------------------------------- buffers in use

  /** The blocks in dirty buffers, the references to buffers, and how many buffers there are. */
  datatype Load = Load(dirt: set<nat>, refs: nat, n: nat)

  /** Too few buffers for one of the two blocks. */
  ghost predicate Short(u: Load, log: nat, home: nat) {
    || (log !in u.dirt && u.n <= |u.dirt| + u.refs)
    || (home !in u.dirt && u.n <= |u.dirt| + u.refs + 1)
  }

  /** Two buffers were taken. */
  ghost predicate Paired(u: Load, ok: bool, log: nat, home: nat, u': Load) {
    match u'
    case Load(dirt, refs, n) =>
      && n == u.n && dirt == u.dirt
      && if ok then refs == u.refs + 2 && n >= 2 && (log in dirt || |dirt| < n) else Short(u, log, home)
  }

  /** Two buffers were taken, one of them written, and both given back. */
  ghost predicate Copied(u: Load, ok: bool, log: nat, home: nat, target: nat, u': Load) {
    match u'
    case Load(dirt, refs, n) =>
      && n == u.n
      && if ok then refs == u.refs && dirt == u.dirt - {target} && n >= 2 && (log in u.dirt || |u.dirt| < n)
         else Short(u, log, home)
  }

  ghost predicate NoLogDirt(u: Load, g: Area) { forall b :: b in u.dirt ==> !InLog(g, b) }

  /** write_log takes a buffer for a log block; the logged blocks are in the cache. */
  ghost predicate LogLoad(u: Load, g: Area, bs: seq<nat>, k: nat, ok: bool, u': Load) {
    match u'
    case Load(dirt, refs, n) =>
      && n == u.n && (ok ==> refs == u.refs)
      && (NoLogDirt(u, g) ==>
            if ok then dirt == u.dirt && (k > 0 ==> |u.dirt| < n)
            else !(u.refs == 0 && SetOf(bs) <= u.dirt && |u.dirt| < n))
  }

  lemma LogLoadMore(s: Store, u: Load, g: Area, bs: seq<nat>, k: nat, u1: Load, ok: bool, u2: Load)
    requires Fits(s, g, bs) && k < |bs| && LogLoad(u, g, bs, k, true, u1)
    requires Copied(u1, ok, g.start + k + 1, bs[k], g.start + k + 1, u2)
    ensures LogLoad(u, g, bs, if ok then k + 1 else k, ok, u2)
  {
    assert InLog(g, g.start + k + 1) && bs[k] in SetOf(bs);
  }

  /** install_trans takes two buffers for a block, unless its home block is in the cache. */
  ghost predicate InstallLoad(u: Load, bs: seq<nat>, k: nat, ok: bool, u': Load) {
    match u'
    case Load(dirt, refs, n) =>
      && n == u.n && k <= |bs|
      && if ok then refs == u.refs && dirt == u.dirt - SetOf(bs[..k]) && (k > 0 ==> n >= 2)
         else !(u.refs == 0 && |u.dirt| < n && (SetOf(bs) <= u.dirt || |u.dirt| + 1 < n))
  }

  lemma SetOfMore(bs: seq<nat>, k: nat)
    requires k < |bs| && Distinct(bs)
    ensures SetOf(bs[..k+1]) == SetOf(bs[..k]) + {bs[k]} && bs[k] in SetOf(bs) && bs[k] !in SetOf(bs[..k])
  {
    assert bs[..k+1] == bs[..k] + [bs[k]];
  }

  lemma InstallLoadMore(s: Store, u: Load, g: Area, bs: seq<nat>, k: nat, u1: Load, ok: bool, u2: Load)
    requires Fits(s, g, bs) && k < |bs| && InstallLoad(u, bs, k, true, u1)
    requires Copied(u1, ok, g.start + k + 1, bs[k], bs[k], u2)
    ensures InstallLoad(u, bs, if ok then k + 1 else k, ok, u2)
  {
    SetOfMore(bs, k);
    var done, more := SetOf(bs[..k]), SetOf(bs[..k+1]);
    if ok {
      assert u2.dirt == u.dirt - more;
    } else {
      SubsetSize(u.dirt - done, u.dirt);
      assert SetOf(bs) <= u.dirt ==> bs[k] in u.dirt - done;
    }
  }

  /** write_head takes one buffer. */
  ghost predicate HeadLoad(u: Load, start: nat, ok: bool, u': Load) {
    match u'
    case Load(dirt, refs, n) =>
      && n == u.n
      && if ok then refs == u.refs && dirt == u.dirt - {start} && (start in u.dirt || |u.dirt| < n)
         else start !in u.dirt && n <= |u.dirt| + u.refs
  }

  ghost predicate ReadLoad(u: Load, start: nat, ok: bool, u': Load) {
    match u'
    case Load(dirt, refs, n) =>
      && n == u.n && dirt == u.dirt
      && if ok then refs == u.refs && (start in dirt || |dirt| < n) else start !in dirt && n <= |dirt| + u.refs
  }

  /** The part of commit behind the header, when the dirty blocks are the logged ones. */
  ghost predicate FinishLoad(u: Load, g: Area, bs: seq<nat>, ok: bool, u': Load) {
    match u'
    case Load(dirt, refs, n) =>
      && n == u.n && (ok ==> refs == u.refs)
      && (u.dirt == SetOf(bs) ==> (ok ==> dirt == {}) && (u.refs == 0 && |u.dirt| < n ==> ok))
  }

  lemma FinishUse(u: Load, g: Area, bs: seq<nat>, u1: Load, ok: bool, u2: Load)
    requires InstallLoad(u, bs, |bs|, true, u1) && HeadLoad(u1, g.start, ok, u2)
    ensures FinishLoad(u, g, bs, ok, u2)
  {
    assert bs[..|bs|] == bs;
    if u.dirt == SetOf(bs) { assert u1.dirt == {}; }
  }

  /** commit: with no buffer referenced and exactly the logged blocks pinned, it goes through if
      and only if there is a buffer more than logged blocks, or nothing to do. */
  ghost predicate CommitLoad(u: Load, bs: seq<nat>, ok: bool, u': Load) {
    match u'
    case Load(dirt, refs, n) =>
      && n == u.n && (ok ==> refs == u.refs)
      && (u.dirt == SetOf(bs) ==>
            (ok ==> dirt == {}) && (u.refs == 0 ==> (ok <==> bs == [] || |bs| < n)))
  }

  /** With as many buffers as a log holds blocks, header included, commit always has its buffer. */
  lemma SmallLogCommits(size: nat, es: seq<LogBudget.Step>, b: LogBudget.State, u: Load, ok: bool, u': Load)
    requires LogBudget.Run(LogBudget.Empty, size, es, b) && size <= u.n
    requires u.dirt == SetOf(b.lh) && u.refs == 0 && CommitLoad(u, b.lh, ok, u')
    ensures ok
  {
    LogBudget.SmallCommits(size, LogBudget.Empty, es, b);
  }

  /** With NBUF buffers, none referenced and the logged blocks `bs` pinned, commit stops short. */
  ghost predicate CommitStops(bs: seq<nat>) {
    forall u: Load, ok: bool, u': Load ::
      u.n == NBUF && u.dirt == SetOf(bs) && u.refs == 0 && CommitLoad(u, bs, ok, u') ==> !ok
  }

  /** So with NBUF buffers no size of the log is right: either log_write can panic within the budget
      of an operation, or a full transaction pins all buffers and its commit finds none. */
  lemma NoSizeFits(size: nat)
    ensures if size <= LOGSIZE then LogBudget.CanPanic(size)
            else exists es, b :: LogBudget.FullCommit(size, es, b) && CommitStops(b.lh)
  {
    if size <= LOGSIZE {
      LogBudget.PanicRun(size);
    } else {
      LogBudget.FullCommitRun(size);
      var es, b :| LogBudget.FullCommit(size, es, b);
      assert CommitStops(b.lh);
    }
  }

  lemma PinnedOutside(s: Store, g: Area, bs: seq<nat>, u: Load)
    requires Clean(s, g, bs) && u.dirt == SetOf(bs)
    ensures NoLogDirt(u, g) && g.start !in u.dirt && |u.dirt| == |bs|
  {
    DistinctCard(bs);
    assert InLog(g, g.start);
    forall b | b in u.dirt ensures !InLog(g, b) { var i := IndexOf(bs, b); }
  }

  lemma CommitUse(s: Store, g: Area, bs: seq<nat>, u: Load, u1: Load, u2: Load, ok: bool, u3: Load)
    requires Clean(s, g, bs) && bs != [] && LogLoad(u, g, bs, |bs|, true, u1) && HeadLoad(u1, g.start, true, u2)
    requires FinishLoad(u2, g, bs, ok, u3)
    ensures CommitLoad(u, bs, ok, u3)
  {
    if u.dirt == SetOf(bs) {
      PinnedOutside(s, g, bs, u);
      assert u2.dirt == u.dirt;
    }
  }

  /** write_log or the first write_head found no buffer. */
  lemma CommitShort(s: Store, g: Area, bs: seq<nat>, u: Load, k: nat, u1: Load, u2: Load)
    requires Clean(s, g, bs) && bs != []
    requires || (LogLoad(u, g, bs, k, false, u1) && u2 == u1)
             || (LogLoad(u, g, bs, k, true, u1) && HeadLoad(u1, g.start, false, u2))
    ensures CommitLoad(u, bs, false, u2)
  {
    if u.dirt == SetOf(bs) { PinnedOutside(s, g, bs, u); }
  }

  /** recover_from_log on a cache in which nothing is dirty or referenced: it goes through if and
      only if there are two buffers, or one and nothing to install. */
  ghost predicate RecoverLoad(u: Load, bs: seq<nat>, ok: bool, u': Load) {
    match u'
    case Load(dirt, refs, n) =>
      && n == u.n && (ok ==> refs == u.refs)
      && (u.dirt == {} ==>
            (ok ==> dirt == {}) && (u.refs == 0 ==> (ok <==> n >= if bs == [] then 1 else 2)))
  }

  ghost predicate ReinstallLoad(u: Load, bs: seq<nat>, ok: bool, u': Load) {
    match u'
    case Load(dirt, refs, n) =>
      && n == u.n && (ok ==> refs == u.refs && (bs != [] ==> n >= 2))
      && (u.dirt == {} ==>
            (ok ==> dirt == {}) && (u.refs == 0 && n >= (if bs == [] then 1 else 2) ==> ok))
  }

  lemma ReinstallShort(u: Load, bs: seq<nat>, k: nat, u1: Load)
    requires InstallLoad(u, bs, k, false, u1)
    ensures ReinstallLoad(u, bs, false, u1)
  {
    if bs == [] { assert SetOf(bs) == {}; }
  }

  lemma RecoverUse(u: Load, g: Area, bs: seq<nat>, u1: Load, ok: bool, u': Load)
    requires ReadLoad(u, g.start, true, u1) && ReinstallLoad(u1, bs, ok, u')
    ensures RecoverLoad(u, bs, ok, u')
  {
  }

  lemma RecoverShort(u: Load, g: Area, bs: seq<nat>, u': Load)
    requires ReadLoad(u, g.start, false, u')
    ensures RecoverLoad(u, bs, false, u')
  {
  }

  lemma ReinstallUse(u: Load, g: Area, bs: seq<nat>, u1: Load, ok: bool, u2: Load)
    requires InstallLoad(u, bs, |bs|, true, u1) && HeadLoad(u1, g.start, ok, u2)
    ensures ReinstallLoad(u, bs, ok, u2)
  {
    if u.dirt == {} { assert u1.dirt == {}; }
  }

  // ------------------------------------------------------------ what the loops do

  /** `v` has `k` more writes on record than `s`. */
  ghost predicate MoreWrites(s: Store, v: Store, k: nat) {
    && |v.trace| == |s.trace| + k && v.trace[..|s.trace|] == s.trace
    && |v.history| == |s.history| + k && v.history[..|s.history|] == s.history
  }

  /** The writes made between `s` and `v` are `ws`. */
  ghost predicate Wrote(s: Store, ws: seq<Write>, v: Store) {
    match v
    case Store(flat, disk, trace, history) =>
      MoreWrites(s, v, |ws|) && forall i :: 0 <= i < |ws| ==> trace[|s.trace| + i] == ws[i]
  }

  /** Disk number `m + i` and the next one differ by write `i`. */
  ghost predicate StepAt(ws: seq<Write>, history: seq<Disk>, m: nat, i: nat)
    requires i < |ws| && m + i + 1 < |history|
  {
    ws[i].b < |history[m+i]| && history[m+i+1] == history[m+i][ws[i].b := ws[i].data]
  }

  lemma {:induction false} HistoryIs(d: Disk, ws: seq<Write>, history: seq<Disk>, m: nat, j: nat)
    requires WritesOk(|d|, ws) && j <= |ws| && m + |ws| < |history| && history[m] == d
    requires forall i :: 0 <= i < |ws| ==> StepAt(ws, history, m, i)
    ensures history[m+j] == ApplyWrites(d, ws[..j])
  {
    if j > 0 {
      HistoryIs(d, ws, history, m, j - 1);
      assert StepAt(ws, history, m, j - 1);
      assert ws[..j][..j-1] == ws[..j-1];
    }
  }

  /** The recorded disks are the initial one with the writes applied one by one. */
  lemma WroteHistory(s: Store, ws: seq<Write>, v: Store, j: nat)
    requires Wrote(s, ws, v) && WritesOk(|s.disk|, ws) && j <= |ws|
    requires Recorded(s.history, s.trace, s.disk) && Recorded(v.history, v.trace, v.disk)
    ensures v.history[|s.trace| + j] == ApplyWrites(s.disk, ws[..j])
  {
    var m := |s.trace|;
    assert v.history[m] == v.history[..|s.history|][m];
    forall i | 0 <= i < |ws| ensures StepAt(ws, v.history, m, i) {
      assert RecordedAt(v.history, v.trace, m + i);
    }
    HistoryIs(s.disk, ws, v.history, m, j);
  }

  /** write_log has copied `k` blocks: the writes made, and the log blocks filled. */
  ghost predicate LogWritten(s: Store, g: Area, bs: seq<nat>, k: nat, v: Store) {
    match v
    case Store(flat, disk, trace, history) =>
      && k <= |bs| && (forall i :: 0 <= i < |bs| ==> bs[i] < |s.flat|) && g.start + k < |s.disk|
      && Synced(s, v) && MoreWrites(s, v, k)
      && (forall b :: 0 <= b < |flat| && !(g.start < b <= g.start + k) ==> flat[b] == s.flat[b])
      && (forall i :: 0 <= i < k ==> flat[g.start+1+i] == s.flat[bs[i]])
      && (forall i :: 0 <= i < k ==> trace[|s.trace| + i] == Write(g.start + 1 + i, s.flat[bs[i]]))
  }

  lemma LogNothing(s: Store, g: Area, bs: seq<nat>)
    requires Fits(s, g, bs)
    ensures LogWritten(s, g, bs, 0, s)
  {
  }

  lemma LogSize(s: Store, g: Area, bs: seq<nat>, k: nat, v: Store)
    requires LogWritten(s, g, bs, k, v)
    ensures |v.flat| == |v.disk| == |s.disk|
  {
  }

  /** While the log is written, the home blocks still show what they did. */
  lemma LogOneMore(s: Store, g: Area, bs: seq<nat>, k: nat, v: Store, v': Store)
    requires LogWritten(s, g, bs, k, v) && k < |bs| && Fits(s, g, bs) && g.start + k + 1 < |s.disk|
    requires bs[k] < |v.flat| == |v.disk| == |s.disk| && v' == Put(v, Write(g.start + k + 1, v.flat[bs[k]]))
    ensures LogWritten(s, g, bs, k + 1, v')
  {
    assert !InLog(g, bs[k]);
    assert v.flat[bs[k]] == s.flat[bs[k]];
    SyncedPut(v, Write(g.start + k + 1, v.flat[bs[k]]));
    SyncedTrans(s, v, v');
  }

  /** install_trans has copied `k` blocks: the writes made, and the home blocks filled. */
  ghost predicate Installed(s: Store, g: Area, bs: seq<nat>, k: nat, v: Store) {
    match v
    case Store(flat, disk, trace, history) =>
      && k <= |bs| < g.size && g.start + g.size <= |s.flat| && (forall i :: 0 <= i < |bs| ==> bs[i] < |s.flat|)
      && Synced(s, v) && MoreWrites(s, v, k)
      && (forall b :: 0 <= b < |flat| && b !in bs ==> flat[b] == s.flat[b])
      && (forall i :: 0 <= i < k ==> flat[bs[i]] == disk[bs[i]] == s.flat[g.start+1+i])
      && (forall i :: 0 <= i < k ==> trace[|s.trace| + i] == Write(bs[i], s.flat[g.start+1+i]))
  }

  lemma InstallNothing(s: Store, g: Area, bs: seq<nat>)
    requires Fits(s, g, bs)
    ensures Installed(s, g, bs, 0, s)
  {
  }

  lemma InstallSize(s: Store, g: Area, bs: seq<nat>, k: nat, v: Store)
    requires Installed(s, g, bs, k, v)
    ensures |v.flat| == |v.disk| == |s.disk|
  {
  }

  /** While blocks are installed, the log blocks still show what they did. */
  lemma InstallOneMore(s: Store, g: Area, bs: seq<nat>, k: nat, v: Store, v': Store)
    requires Installed(s, g, bs, k, v) && k < |bs| && Fits(s, g, bs)
    requires bs[k] < |v.disk| && g.start + k + 1 < |v.disk| && |v.flat| == |v.disk| == |s.disk|
    requires v' == Put(v, Write(bs[k], v.flat[g.start+k+1]))
    ensures Installed(s, g, bs, k + 1, v')
  {
    assert g.start + k + 1 !in bs by { assert InLog(g, g.start + k + 1); }
    assert v.flat[g.start+k+1] == s.flat[g.start+k+1];
    SyncedPut(v, Write(bs[k], v.flat[g.start+k+1]));
    SyncedTrans(s, v, v');
    InstallMoreTrace(s, g, bs, k, v, v');
    forall i | 0 <= i < k + 1 ensures v'.flat[bs[i]] == v'.disk[bs[i]] == s.flat[g.start+1+i] {}
  }

  lemma InstallMoreTrace(s: Store, g: Area, bs: seq<nat>, k: nat, v: Store, v': Store)
    requires Installed(s, g, bs, k, v) && k < |bs| && g.start + k + 1 < |s.flat| && bs[k] < |v.flat| == |v.disk|
    requires v' == Put(v, Write(bs[k], s.flat[g.start+k+1]))
    ensures MoreWrites(s, v', k + 1)
    ensures forall i :: 0 <= i < k + 1 ==> v'.trace[|s.trace| + i] == Write(bs[i], s.flat[g.start+1+i])
  {
  }

  // -------------------------------------------------------- the writes of commit

  /** The log on disk is clean, and what is not in `bs` is on disk as the cache shows it. */
  ghost predicate Clean(s: Store, g: Area, bs: seq<nat>) {
    match s
    case Store(flat, disk, trace, history) =>
      && |flat| == |disk| && DiskOk(disk, g) && Logged(disk, g) == [] && Loggable(|disk|, g, bs)
      && (forall b :: 0 <= b < |flat| ==> |flat[b]| == BLOCKWORDS)
      && (forall b :: 0 <= b < |disk| && b !in bs ==> flat[b] == disk[b])
  }

  lemma OpenOk(s: Store, g: Area, t: Txn)
    requires Clean(s, g, t.bs) && t.data == Contents(s.flat, t.bs)
    ensures TxnOk(|s.disk|, g, t)
  {
  }

  lemma CleanFits(s: Store, g: Area, bs: seq<nat>)
    requires Clean(s, g, bs)
    ensures Fits(s, g, bs) && g.start < |s.disk| && |bs| <= LOGSIZE && g.start !in bs
    ensures s.flat[g.start] == s.disk[g.start] && |s.flat[g.start]| == BLOCKWORDS
  {
    assert InLog(g, g.start);
  }

  /** The first `k` writes of the commit of `t` were made since `s`. */
  ghost predicate Ran(s: Store, g: Area, t: Txn, k: nat, v: Store) {
    match v
    case Store(flat, disk, trace, history) =>
      && g.start < |s.disk| && |s.disk[g.start]| == BLOCKWORDS && |t.bs| == |t.data| <= LOGSIZE
      && k <= CommitLength(t) && Synced(s, v) && MoreWrites(s, v, k)
      && forall i :: 0 <= i < k ==> trace[|s.trace| + i] == CommitWriteAt(s.disk[g.start], g, t, i)
  }

  lemma LogRan(s: Store, g: Area, t: Txn, k: nat, a: Store)
    requires Clean(s, g, t.bs) && t.data == Contents(s.flat, t.bs) && t.bs != []
    requires LogWritten(s, g, t.bs, k, a)
    ensures Ran(s, g, t, k, a) && k <= |t.bs| && g.start < |a.disk|
  {
    CleanFits(s, g, t.bs);
  }

  /** After the header is written: the log holds the transaction, the home blocks are as before. */
  ghost predicate LogReady(s: Store, g: Area, t: Txn, b: Store) {
    match b
    case Store(flat, disk, trace, history) =>
      && Fits(b, g, t.bs) && |flat| == |s.flat| == |s.disk| && |t.bs| == |t.data| <= LOGSIZE
      && g.start < |flat| && |s.disk[g.start]| == BLOCKWORDS && flat[g.start] == PutHead(s.disk[g.start], t.bs)
      && (forall i :: 0 <= i < |t.bs| ==> flat[g.start+1+i] == t.data[i])
      && (forall x :: 0 <= x < |flat| && !InLog(g, x) ==> flat[x] == s.flat[x])
  }

  lemma HeadRan(s: Store, g: Area, t: Txn, a: Store, b: Store)
    requires Clean(s, g, t.bs) && t.data == Contents(s.flat, t.bs) && t.bs != []
    requires LogWritten(s, g, t.bs, |t.bs|, a) && Ran(s, g, t, |t.bs|, a)
    requires g.start < |a.flat| == |a.disk| && |a.flat[g.start]| == BLOCKWORDS
    requires b == Put(a, Write(g.start, PutHead(a.flat[g.start], t.bs)))
    ensures Ran(s, g, t, |t.bs| + 1, b) && LogReady(s, g, t, b)
  {
    CleanFits(s, g, t.bs);
    HeadRanWrites(s, g, t, a, b);
    forall x | 0 <= x < |b.flat| && !InLog(g, x) ensures b.flat[x] == s.flat[x] {}
  }

  lemma RanOneMore(s: Store, g: Area, t: Txn, k: nat, v: Store, w: Write, v': Store)
    requires Ran(s, g, t, k, v) && k < CommitLength(t) && w.b < |v.flat| == |v.disk|
    requires w == CommitWriteAt(s.disk[g.start], g, t, k) && v' == Put(v, w)
    ensures Ran(s, g, t, k + 1, v')
  {
    SyncedPut(v, w);
    SyncedTrans(s, v, v');
  }

  lemma HeadRanWrites(s: Store, g: Area, t: Txn, a: Store, b: Store)
    requires Ran(s, g, t, |t.bs|, a) && t.bs != [] && g.start < |a.flat| == |a.disk|
    requires a.flat[g.start] == s.disk[g.start]
    requires b == Put(a, Write(g.start, PutHead(s.disk[g.start], t.bs)))
    ensures Ran(s, g, t, |t.bs| + 1, b)
  {
    RanOneMore(s, g, t, |t.bs|, a, Write(g.start, PutHead(s.disk[g.start], t.bs)), b);
  }

  /** When everything is installed: the home blocks read as before, and are on disk. */
  ghost predicate HomeDone(s: Store, g: Area, t: Txn, c: Store) {
    match c
    case Store(flat, disk, trace, history) =>
      && |flat| == |disk| == |s.flat|
      && (forall i :: 0 <= i < |t.bs| ==> t.bs[i] < |flat| && flat[t.bs[i]] == disk[t.bs[i]])
      && (forall x :: 0 <= x < |flat| && !InLog(g, x) ==> flat[x] == s.flat[x])
  }

  lemma InstallRan(s: Store, g: Area, t: Txn, b: Store, j: nat, c: Store)
    requires Clean(s, g, t.bs) && t.data == Contents(s.flat, t.bs) && t.bs != []
    requires Ran(s, g, t, |t.bs| + 1, b) && LogReady(s, g, t, b) && Installed(b, g, t.bs, j, c)
    ensures Ran(s, g, t, |t.bs| + 1 + j, c)
    ensures g.start < |c.flat| == |c.disk| && c.flat[g.start] == PutHead(s.disk[g.start], t.bs)
    ensures j == |t.bs| ==> HomeDone(s, g, t, c)
  {
    CleanFits(s, g, t.bs);
    InstallRanWrites(s, g, t, b, j, c);
    if j == |t.bs| {
      forall x | 0 <= x < |c.flat| && !InLog(g, x) ensures c.flat[x] == s.flat[x] {
        if x in t.bs { var i := IndexOf(t.bs, x); }
      }
    }
  }

  lemma InstallRanWrites(s: Store, g: Area, t: Txn, b: Store, j: nat, c: Store)
    requires Ran(s, g, t, |t.bs| + 1, b) && LogReady(s, g, t, b) && Installed(b, g, t.bs, j, c) && t.bs != []
    ensures Ran(s, g, t, |t.bs| + 1 + j, c)
  {
    var n, m := |t.bs|, |s.trace|;
    SyncedTrans(s, b, c);
    forall i | 0 <= i < n + 1 + j ensures c.trace[m + i] == CommitWriteAt(s.disk[g.start], g, t, i) {
      if i <= n {
        assert c.trace[m + i] == b.trace[m + i];
      } else {
        assert c.trace[|b.trace| + (i - n - 1)] == Write(t.bs[i-n-1], b.flat[g.start+1+(i-n-1)]);
      }
    }
    assert c.trace[..m] == b.trace[..m] && c.history[..|s.history|] == b.history[..|s.history|];
  }

  lemma ClearRan(s: Store, g: Area, t: Txn, c: Store, e: Store)
    requires Clean(s, g, t.bs) && t.bs != [] && TxnOk(|s.disk|, g, t)
    requires Ran(s, g, t, 2 * |t.bs| + 1, c) && HomeDone(s, g, t, c)
    requires g.start < |c.flat| == |c.disk| && c.flat[g.start] == PutHead(s.disk[g.start], t.bs)
    requires |c.flat[g.start]| == BLOCKWORDS && e == Put(c, Write(g.start, PutHead(c.flat[g.start], [])))
    requires forall b :: 0 <= b < |e.flat| ==> |e.flat[b]| == BLOCKWORDS
    ensures Ran(s, g, t, CommitLength(t), e) && Clean(e, g, []) && SameHome(e.flat, s.flat, g)
  {
    CleanFits(s, g, t.bs);
    RanOneMore(s, g, t, 2 * |t.bs| + 1, c, Write(g.start, PutHead(c.flat[g.start], [])), e);
    forall b | 0 <= b < |e.disk| ensures e.flat[b] == e.disk[b] {
      assert SyncedAt(s, c, b);
      if b in t.bs { var i := IndexOf(t.bs, b); }
    }
    HeadRoundTrip(PutHead(s.disk[g.start], t.bs), []);
    assert InLog(g, g.start);
  }

  /** A commit of `t` made `k` writes since `s`, and the disk went through the states that
      crash atomicity speaks of. */
  ghost predicate CommitRan(s: Store, g: Area, t: Txn, k: nat, v: Store) {
    match v
    case Store(flat, disk, trace, history) =>
      && DiskOk(s.disk, g) && TxnOk(|s.disk|, g, t) && k <= CommitLength(t) && MoreWrites(s, v, k)
      && |s.history| == |s.trace| + 1
      && disk == CommitCrash(s.disk, g, t, k)
      && forall j :: 0 <= j <= k ==> history[|s.trace| + j] == CommitCrash(s.disk, g, t, j)
  }

  lemma RanIs(s: Store, g: Area, t: Txn, k: nat, v: Store)
    requires DiskOk(s.disk, g) && TxnOk(|s.disk|, g, t) && Ran(s, g, t, k, v)
    requires Recorded(s.history, s.trace, s.disk) && Recorded(v.history, v.trace, v.disk)
    ensures CommitRan(s, g, t, k, v)
  {
    var ws := CommitPrefix(s.disk[g.start], g, t, k);
    CommitPrefixOk(s.disk, g, t, k);
    RanWrote(s, g, t, k, v);
    forall j | 0 <= j <= k ensures v.history[|s.trace| + j] == CommitCrash(s.disk, g, t, j) {
      WroteHistory(s, ws, v, j);
      assert ws[..j] == CommitPrefix(s.disk[g.start], g, t, j);
    }
  }

  lemma RanWrote(s: Store, g: Area, t: Txn, k: nat, v: Store)
    requires Ran(s, g, t, k, v)
    ensures Wrote(s, CommitPrefix(s.disk[g.start], g, t, k), v)
  {
  }

  lemma NothingRan(s: Store, g: Area, t: Txn)
    requires Clean(s, g, t.bs) && TxnOk(|s.disk|, g, t) && t.bs == [] && Recorded(s.history, s.trace, s.disk)
    ensures CommitRan(s, g, t, 0, s)
  {
    assert CommitPrefix(s.disk[g.start], g, t, 0) == [];
  }

  // ------------------------------------------------------ the writes of recovery

  ghost predicate RecRan(s: Store, g: Area, k: nat, v: Store) {
    match v
    case Store(flat, disk, trace, history) =>
      DiskOk(s.disk, g) && k <= |Logged(s.disk, g)| + 1 && Synced(s, v) && Wrote(s, RecoverWrites(s.disk, g)[..k], v)
  }

  lemma HeadFits(s: Store, g: Area)
    requires DiskOk(s.disk, g) && s.flat == s.disk
    ensures Fits(s, g, Logged(s.disk, g)) && g.start < |s.disk|
  {
  }

  lemma NothingRecovers(s: Store, g: Area)
    requires DiskOk(s.disk, g) && s.flat == s.disk
    ensures RecRan(s, g, 0, s)
  {
  }

  lemma InstallRecovers(s: Store, g: Area, k: nat, c: Store)
    requires DiskOk(s.disk, g) && s.flat == s.disk && Installed(s, g, Logged(s.disk, g), k, c)
    ensures RecRan(s, g, k, c) && g.start < |c.flat| == |c.disk| && c.flat[g.start] == s.disk[g.start]
  {
    assert InLog(g, g.start);
    var bs, ws := Logged(s.disk, g), RecoverWrites(s.disk, g)[..k];
    forall i | 0 <= i < k ensures c.trace[|s.trace| + i] == ws[i] {
      assert ws[i] == Write(bs[i], s.disk[g.start+1+i]);
    }
  }

  lemma ClearRecovers(s: Store, g: Area, bs: seq<nat>, c: Store, e: Store)
    requires RecRan(s, g, |bs|, c) && bs == Logged(s.disk, g)
    requires g.start < |c.flat| == |c.disk| && c.flat[g.start] == s.disk[g.start]
    requires e == Put(c, Write(g.start, PutHead(c.flat[g.start], [])))
    ensures RecRan(s, g, |bs| + 1, e)
  {
    SyncedPut(c, Write(g.start, PutHead(c.flat[g.start], [])));
    SyncedTrans(s, c, e);
    var k := |bs|;
    var ws, ws' := RecoverWrites(s.disk, g)[..k], RecoverWrites(s.disk, g)[..k+1];
    forall i | 0 <= i < k + 1 ensures e.trace[|s.trace| + i] == ws'[i] {
      if i < k { assert e.trace[|s.trace| + i] == ws[i]; }
    }
  }

  /** A recovery made `k` writes since `s`, and the disk went through the states that
      crash atomicity speaks of. */
  ghost predicate RecoverRan(s: Store, g: Area, k: nat, v: Store) {
    match v
    case Store(flat, disk, trace, history) =>
      && DiskOk(s.disk, g) && k <= |Logged(s.disk, g)| + 1 && MoreWrites(s, v, k) && |s.history| == |s.trace| + 1
      && disk == RecoverCrash(s.disk, g, k)
      && forall j :: 0 <= j <= k ==> history[|s.trace| + j] == RecoverCrash(s.disk, g, j)
  }

  lemma RecIs(s: Store, g: Area, k: nat, v: Store)
    requires RecRan(s, g, k, v) && Recorded(s.history, s.trace, s.disk) && Recorded(v.history, v.trace, v.disk)
    ensures RecoverRan(s, g, k, v)
  {
    var ws := RecoverWrites(s.disk, g)[..k];
    RecoverWritesOk(s.disk, g);
    forall j | 0 <= j <= k ensures v.history[|s.trace| + j] == RecoverCrash(s.disk, g, j) {
      WroteHistory(s, ws, v, j);
      assert ws[..j] == RecoverWrites(s.disk, g)[..j];
    }
  }

  lemma RecClean(s: Store, g: Area, v: Store)
    requires DiskOk(s.disk, g) && RecRan(s, g, |Logged(s.disk, g)| + 1, v)
    requires RecoverRan(s, g, |Logged(s.disk, g)| + 1, v) && s.flat == s.disk
    requires forall b :: 0 <= b < |v.flat| ==> |v.flat[b]| == BLOCKWORDS
    ensures Clean(v, g, []) && v.flat == v.disk == Recovered(s.disk, g)
  {
    RecoverAll(s.disk, g);
    RecoverCrashOk(s.disk, g, |Logged(s.disk, g)| + 1);
    forall b | 0 <= b < |v.flat| ensures v.flat[b] == v.disk[b] { assert SyncedAt(s, v, b); }
  }

  // ---------------------------------------------------- the blocks of a transaction

  lemma LoggedMore(s: Store, g: Area, bs: seq<nat>, b: nat, data: Block)
    requires Clean(s, g, bs) && b < |s.flat| && !InLog(g, b) && b !in bs && |data| == BLOCKWORDS
    requires |bs| < LOGSIZE && |bs| < g.size - 1
    ensures Clean(s.(flat := s.flat[b := data]), g, bs + [b])
  {
    forall c | 0 <= c < |s.disk| && c !in bs + [b] ensures s.flat[b := data][c] == s.disk[c] {
      assert c != (bs + [b])[|bs|] && forall i :: 0 <= i < |bs| ==> bs[i] == (bs + [b])[i];
    }
  }

  lemma LoggedAgain(s: Store, g: Area, bs: seq<nat>, b: nat, data: Block)
    requires Clean(s, g, bs) && b < |s.flat| && b in bs && |data| == BLOCKWORDS
    ensures Clean(s.(flat := s.flat[b := data]), g, bs)
  {
  }

  // ------------------------------------------------------------ crashes of the code

  /** Whenever the power fails while commit runs, recovery finds the home blocks of before the
      transaction, or all of them as the cache showed them. */
  lemma CrashInCommit(s: Store, g: Area, t: Txn, k: nat, v: Store, j: nat)
    requires Clean(s, g, t.bs) && t.data == Contents(s.flat, t.bs) && CommitRan(s, g, t, k, v) && j <= k
    ensures var d := v.history[|s.trace| + j];
      DiskOk(d, g) && SameHome(Recovered(d, g), if j <= |t.bs| then s.disk else s.flat, g)
  {
    CommitAtomic(s.disk, g, t, j);
    if j > |t.bs| {
      CacheShows(s, g, t);
      Chain(Recovered(CommitCrash(s.disk, g, t, j), g), Updated(s.disk, t), s.flat, g);
    }
  }

  lemma CacheShows(s: Store, g: Area, t: Txn)
    requires Clean(s, g, t.bs) && t.data == Contents(s.flat, t.bs)
    ensures SameHome(Updated(s.disk, t), s.flat, g)
  {
    var e := Updated(s.disk, t);
    forall b | 0 <= b < |e| && !InLog(g, b) ensures e[b] == s.flat[b] {
      if b in t.bs { var i := IndexOf(t.bs, b); }
    }
  }

  /** Whenever the power fails while recovery runs, the next recovery ends where this one would have. */
  lemma CrashInRecovery(s: Store, g: Area, k: nat, v: Store, j: nat)
    requires RecoverRan(s, g, k, v) && j <= k
    ensures var d := v.history[|s.trace| + j];
      DiskOk(d, g) && DiskOk(s.disk, g) && Recovered(d, g) == Recovered(s.disk, g)
  {
    RecoveryIdempotent(s.disk, g, j);
  }
}
