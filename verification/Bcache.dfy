/** The list of buffers, most recently used first, linked both ways through a head that
    stands behind the last buffer. Links are buffer numbers; `n` is the head. */
module MruList {
  import opened Common

  /** The node at place `i` of the circle; the head is at -1 and again at the end. */
  ghost function Node(order: seq<nat>, n: nat, i: int): nat {
    if 0 <= i < |order| then order[i] else n
  }

  ghost predicate LinkAt(next: seq<nat>, prev: seq<nat>, order: seq<nat>, n: nat, i: int)
    requires |next| == |prev| == n + 1 && forall k :: 0 <= k < |order| ==> order[k] < n
  {
    next[Node(order, n, i)] == Node(order, n, i + 1) && prev[Node(order, n, i + 1)] == Node(order, n, i)
  }

  /** `next` and `prev` link exactly the nodes of `order`, in that order. */
  ghost predicate Linked(next: seq<nat>, prev: seq<nat>, order: seq<nat>, n: nat) {
    && |next| == |prev| == n + 1
    && (forall k :: 0 <= k <= n ==> next[k] <= n && prev[k] <= n)
    && (forall k :: 0 <= k < |order| ==> order[k] < n)
    && Distinct(order)
    && (forall i :: -1 <= i < |order| ==> LinkAt(next, prev, order, n, i))
  }

  /** The list with `b` moved to the front and everything else in the same order. */
  ghost function Front(order: seq<nat>, b: nat): seq<nat>
    requires b in order
  {
    [b] + (order[..IndexOf(order, b)] + order[IndexOf(order, b)+1..])
  }

  lemma FrontSame(order: seq<nat>, b: nat)
    requires b in order
    ensures |Front(order, b)| == |order| && forall i :: i in order ==> i in Front(order, b)
    ensures Front(order, b)[0] == b
  {
    var k := IndexOf(order, b);
    assert order == order[..k] + [b] + order[k+1..];
  }

  lemma EmptyLinked(next: seq<nat>, prev: seq<nat>, n: nat)
    requires |next| == |prev| == n + 1 && next[n] == n && prev[n] == n
    requires forall k :: 0 <= k <= n ==> next[k] <= n && prev[k] <= n
    ensures Linked(next, prev, [], n)
  {
  }

  /** Insert `b` behind the head. */
  lemma PushFront(next: seq<nat>, prev: seq<nat>, order: seq<nat>, n: nat, b: nat,
                  next': seq<nat>, prev': seq<nat>)
    requires Linked(next, prev, order, n) && b < n && b !in order
    requires next' == next[b := next[n]][n := b]
    requires prev' == prev[b := n][next[n] := b]
    ensures Linked(next', prev', [b] + order, n)
  {
    var order' := [b] + order;
    assert LinkAt(next, prev, order, n, -1);
    forall i | -1 <= i < |order'| ensures LinkAt(next', prev', order', n, i) {
      if i >= 1 { assert LinkAt(next, prev, order, n, i - 1); }
      else if i == 0 && order == [] { assert next[n] == n; }
    }
  }

  /** Take the node at place `k` out. */
  lemma Unlink(next: seq<nat>, prev: seq<nat>, order: seq<nat>, n: nat, k: nat,
               next': seq<nat>, prev': seq<nat>)
    requires Linked(next, prev, order, n) && k < |order|
    requires prev' == prev[next[order[k]] := prev[order[k]]]
    requires next' == next[prev[order[k]] := next[order[k]]]
    ensures Linked(next', prev', order[..k] + order[k+1..], n)
  {
    var order' := order[..k] + order[k+1..];
    assert LinkAt(next, prev, order, n, k) && LinkAt(next, prev, order, n, k - 1);
    forall i | -1 <= i < |order'| ensures LinkAt(next', prev', order', n, i) {
      if i < k - 1 {
        assert LinkAt(next, prev, order, n, i);
      } else if i >= k {
        assert LinkAt(next, prev, order, n, i + 1);
      }
    }
  }
}

/** The buffer cache: cached blocks agree with one flat map of block contents. */
module Bcache {
  import opened LogSpec
  import opened MruList
  import opened Common

  /** A buffer holds no block of the root device until it is first used. */
  datatype Buf = Buf(blockno: Option<nat>, valid: bool, dirty: bool, refcnt: nat, data: Block)

  /** What the cache and the disk together say: valid buffers hold the flat contents, at most
      one buffer holds a block, and contents that are not on disk are pinned in a dirty buffer. */
  ghost predicate Agree(buf: seq<Buf>, disk: Disk, flat: Disk) {
    && |flat| == |disk|
    && (forall b :: 0 <= b < |flat| ==> |flat[b]| == BLOCKWORDS)
    && (forall i {:trigger BufOk(buf[i], disk, flat)} :: 0 <= i < |buf| ==> BufOk(buf[i], disk, flat))
    && (forall i, j :: 0 <= i < |buf| && 0 <= j < |buf| ==> HoldOnce(buf, i, j))
    && (forall b {:trigger Pinned(buf, b)} :: 0 <= b < |flat| && flat[b] != disk[b] ==> Pinned(buf, b))
  }

  ghost predicate HoldOnce(buf: seq<Buf>, i: nat, j: nat)
    requires i < |buf| && j < |buf|
  {
    i == j || buf[i].blockno.None? || buf[i].blockno != buf[j].blockno
  }

  ghost predicate BufOk(p: Buf, disk: Disk, flat: Disk) {
    && (p.blockno.Some? ==> p.blockno.value < |flat|)
    && (p.valid ==> p.blockno.Some? && p.blockno.value < |flat| && p.data == flat[p.blockno.value])
    && (p.dirty ==> p.valid)
  }

  ghost predicate Pinned(buf: seq<Buf>, b: nat) {
    exists i :: HoldsDirty(buf, i, b)
  }

  ghost predicate HoldsDirty(buf: seq<Buf>, i: int, b: nat) {
    0 <= i < |buf| && buf[i].blockno == Some(b) && buf[i].dirty
  }

  /** Everything a cache consists of. */
  datatype Rep = Rep(n: nat, buf: seq<Buf>, next: seq<nat>, prev: seq<nat>, disk: Disk,
                     order: seq<nat>, flat: Disk, trace: seq<Write>, history: seq<Disk>,
                     dirt: set<nat>, refs: nat)

  /** The list links all buffers, the contents agree, and every write is on record. */
  ghost predicate RepOk(r: Rep) {
    match r
    case Rep(n, buf, next, prev, disk, order, flat, trace, history, dirt, refs) =>
      && |buf| == n && |order| == n && Linked(next, prev, order, n)
      && (forall i :: 0 <= i < n ==> i in order)
      && Agree(buf, disk, flat)
      && Recorded(history, trace, disk)
      && Tallied(buf, dirt, refs)
  }

  ghost predicate RecordedAt(history: seq<Disk>, trace: seq<Write>, i: nat)
    requires |history| == |trace| + 1 && i < |trace|
  {
    trace[i].b < |history[i]| && history[i+1] == history[i][trace[i].b := trace[i].data]
  }

  /** `history` starts somewhere, follows the writes of `trace` one by one and ends in `disk`. */
  ghost predicate Recorded(history: seq<Disk>, trace: seq<Write>, disk: Disk) {
    && |history| == |trace| + 1 && history[|trace|] == disk
    && forall i :: 0 <= i < |trace| ==> RecordedAt(history, trace, i)
  }

  lemma RecordOne(history: seq<Disk>, trace: seq<Write>, disk: Disk, w: Write)
    requires Recorded(history, trace, disk) && w.b < |disk|
    ensures Recorded(history + [disk[w.b := w.data]], trace + [w], disk[w.b := w.data])
  {
    var h, t := history + [disk[w.b := w.data]], trace + [w];
    forall i | 0 <= i < |t| ensures RecordedAt(h, t, i) {
      if i < |trace| { assert RecordedAt(history, trace, i); }
    }
  }

  predicate Busy(p: Buf) { p.refcnt > 0 || p.dirty }

  /** Every buffer that was used less recently than the one at place `k` is busy. */
  ghost predicate BusyBehind(buf: seq<Buf>, order: seq<nat>, k: int) {
    0 <= k < |order| && forall j :: k < j < |order| ==> order[j] < |buf| && Busy(buf[order[j]])
  }

  /** Of the buffers that are not busy, `i` was used least recently. */
  ghost predicate LeastRecentFree(buf: seq<Buf>, order: seq<nat>, i: nat) {
    i < |buf| && !Busy(buf[i]) && exists k :: BusyBehind(buf, order, k) && order[k] == i
  }

  class Cache {
    const n: nat
    var buf: seq<Buf>
    var next: seq<nat>
    var prev: seq<nat>
    var disk: Disk
    /** Most recently used first. */
    ghost var order: seq<nat>
    /** What bread returns for every block. */
    ghost var flat: Disk
    /** All writes that reached the disk, and the disk before and after each of them. */
    ghost var trace: seq<Write>
    ghost var history: seq<Disk>
    /** The blocks in dirty buffers, and the references to buffers altogether. */
    ghost var dirt: set<nat>
    ghost var refs: nat

    ghost predicate Valid()
      reads this
    {
      RepOk(All())
    }

    ghost function All(): Rep
      reads this
    {
      Rep(n, buf, next, prev, disk, order, flat, trace, history, dirt, refs)
    }

    /** binit: put every buffer at the front of an empty list. */
    constructor (nbuf: nat, d: Disk)
      requires forall b :: 0 <= b < |d| ==> |d[b]| == BLOCKWORDS
      ensures Valid() && n == nbuf && disk == d && flat == d && trace == [] && history == [d] && dirt == {} && refs == 0
      ensures forall i :: 0 <= i < n ==> buf[i] == Buf(None, false, false, 0, [])
    {
      n := nbuf;
      buf := seq(nbuf, _ => Buf(None, false, false, 0, []));
      disk, flat, history, trace, dirt, refs := d, d, [d], [], {}, 0;
      next, prev := seq(nbuf + 1, _ => nbuf), seq(nbuf + 1, _ => nbuf);
      order := [];
      new;
      EmptyLinked(next, prev, n);
      var b := 0;
      while b < n
        invariant 0 <= b <= n && |order| == b && Linked(next, prev, order, n)
        invariant forall k :: 0 <= k < |order| ==> order[k] < b
        invariant forall k :: 0 <= k < b ==> k in order
        invariant disk == d && flat == d && trace == [] && history == [d]
        invariant |buf| == n && forall i :: 0 <= i < n ==> buf[i] == Buf(None, false, false, 0, [])
        invariant dirt == {} && refs == 0
      {
        PushNode(b);
        b := b + 1;
      }
      NoRefs(buf, n);
    }

    /** Link `b`, which is in no list, behind the head. */
    method PushNode(b: nat)
      requires Linked(next, prev, order, n) && b < n && b !in order
      modifies `next, `prev, `order
      ensures Linked(next, prev, order, n) && order == [b] + old(order)
    {
      ghost var nx, pv := next, prev;
      next := next[b := next[n]];
      prev := prev[b := n];
      prev := prev[next[n] := b];
      next := next[n := b];
      PushFront(nx, pv, order, n, b, next, prev);
      order := [b] + order;
    }

    /** Move `b` to the front of the list. */
    method MoveToFront(b: nat)
      requires Linked(next, prev, order, n) && b in order
      modifies `next, `prev, `order
      ensures Linked(next, prev, order, n) && order == Front(old(order), b)
      ensures var k := IndexOf(old(order), b); order == [b] + (old(order)[..k] + old(order)[k+1..])
    {
      ghost var nx, pv := next, prev;
      ghost var k: int := IndexOf(order, b);
      assert LinkAt(next, prev, order, n, k) && LinkAt(next, prev, order, n, k - 1);
      prev := prev[next[b] := prev[b]];
      next := next[prev[b] := next[b]];
      Unlink(nx, pv, order, n, k, next, prev);
      order := order[..k] + order[k+1..];
      PushNode(b);
    }

    /** bget: the buffer that holds block `b`, else the least recently used buffer that is
        free; `n` when there is none and the kernel panics. */
    method Bget(b: nat) returns (i: nat)
      requires Valid() && b < |disk|
      modifies `buf, `refs
      ensures Valid() && i <= n == |buf| == |old(buf)| && refs == old(refs) + if i < n then 1 else 0
      ensures i == n ==> b !in dirt && n <= |dirt| + refs
      ensures i < n ==> b in dirt || |dirt| < n
      ensures i == n ==> buf == old(buf) && forall k :: 0 <= k < n ==> buf[k].blockno != Some(b) && Busy(buf[k])
      ensures i < n ==>
        && buf[i].blockno == Some(b)
        && buf[i].refcnt == 1 + (if old(buf)[i].blockno == Some(b) then old(buf)[i].refcnt else 0)
        && buf == old(buf)[i := buf[i]]
        && (old(buf)[i].blockno != Some(b) ==> old(buf)[i].refcnt == 0 && !old(buf)[i].dirty && !buf[i].dirty)
        && (old(buf)[i].blockno == Some(b) ==> buf[i] == old(buf)[i].(refcnt := buf[i].refcnt))
      ensures i < n && old(buf)[i].blockno != Some(b) ==> LeastRecentFree(old(buf), order, i)
      ensures i < n && old(buf)[i].blockno != Some(b) ==>
        exists k :: 0 <= k < |order| && order[k] == i && forall j :: k < j < |order| ==> Busy(old(buf)[order[j]])
    {
      ghost var at := 0;
      i := Head();
      while i != n
        invariant 0 <= at <= n && i == Node(order, n, at)
        invariant forall k :: 0 <= k < at ==> buf[order[k]].blockno != Some(b)
        decreases n - at
      {
        if buf[i].blockno == Some(b) {
          Reuse(i, b);
          return;
        }
        assert LinkAt(next, prev, order, n, at);
        i, at := next[i], at + 1;
      }
      Everyone(b);
      at := n;
      assert LinkAt(next, prev, order, n, n - 1);
      i := prev[n];
      while i != n
        invariant 0 <= at <= n && i == Node(order, n, at - 1)
        invariant forall k :: at <= k < n ==> Busy(buf[order[k]])
        decreases at
      {
        if buf[i].refcnt == 0 && !buf[i].dirty {
          Recycle(i, b);
          assert BusyBehind(old(buf), order, at - 1);
          return;
        }
        assert LinkAt(next, prev, order, n, at - 2);
        i, at := prev[i], at - 1;
      }
      AllBusy();
      BusyRoom(buf, disk, flat, b, dirt, refs);
    }

    /** One more reference to a buffer that holds `b`. */
    method Reuse(i: nat, ghost b: nat)
      requires Valid() && i < |buf| && buf[i].blockno == Some(b)
      modifies `buf, `refs
      ensures Valid() && buf == old(buf)[i := old(buf)[i].(refcnt := old(buf)[i].refcnt + 1)] && refs == old(refs) + 1
      ensures b in dirt || |dirt| < n
    {
      TallyKeep(buf, disk, flat, i, buf[i].(refcnt := buf[i].refcnt + 1), dirt, refs);
      HitRoom(buf, disk, flat, i, b, dirt, refs);
      buf, refs := buf[i := buf[i].(refcnt := buf[i].refcnt + 1)], refs + 1;
      SameAgree(old(buf), buf, disk, flat, i);
    }

    /** A free buffer is given to `b`, which no buffer holds. */
    method Recycle(i: nat, b: nat)
      requires Valid() && i < |buf| && !Busy(buf[i]) && b < |disk|
      requires forall k :: 0 <= k < n ==> buf[k].blockno != Some(b)
      modifies `buf, `refs
      ensures Valid() && buf == old(buf)[i := Buf(Some(b), false, false, 1, old(buf)[i].data)] && refs == old(refs) + 1
      ensures |dirt| < n
    {
      TallyKeep(buf, disk, flat, i, Buf(Some(b), false, false, 1, buf[i].data), dirt, refs);
      FreeRoom(buf, disk, flat, i, dirt, refs);
      buf, refs := buf[i := Buf(Some(b), false, false, 1, buf[i].data)], refs + 1;
      RecycleAgree(old(buf), buf, disk, flat, i, b);
    }

    method Head() returns (i: nat)
      requires Valid()
      ensures i == Node(order, n, 0)
    {
      assert LinkAt(next, prev, order, n, -1);
      i := next[n];
    }

    /** The list reaches every buffer. */
    lemma Everyone(b: nat)
      requires Valid() && forall k :: 0 <= k < n ==> buf[order[k]].blockno != Some(b)
      ensures forall i :: 0 <= i < n ==> buf[i].blockno != Some(b)
    {
      forall i | 0 <= i < n ensures buf[i].blockno != Some(b) {
        assert i in order;
      }
    }

    lemma AllBusy()
      requires Valid() && forall k :: 0 <= k < n ==> Busy(buf[order[k]])
      ensures forall i :: 0 <= i < n ==> Busy(buf[i])
    {
      forall i | 0 <= i < n ensures Busy(buf[i]) {
        assert i in order;
      }
    }

    /** bread: the contents of block `b`, from the cache or from the disk. */
    method Bread(b: nat) returns (i: nat)
      requires Valid() && b < |disk|
      modifies `buf, `refs
      ensures Valid() && i <= n == |buf| == |old(buf)| && refs == old(refs) + if i < n then 1 else 0
      ensures i == n ==> (forall k :: 0 <= k < n ==> Busy(buf[k])) && b !in dirt && n <= |dirt| + refs
      ensures i < n ==> b in dirt || |dirt| < n
      ensures i < n ==> buf[i].blockno == Some(b) && buf[i].valid && buf[i].refcnt > 0 && buf[i].data == flat[b]
      ensures buf == if i < n then old(buf)[i := buf[i]] else old(buf)
      ensures i < n ==> buf[i].dirty == (old(buf)[i].dirty && old(buf)[i].blockno == Some(b))
      ensures i < n && old(buf)[i].blockno != Some(b) ==> old(buf)[i].refcnt == 0 && !old(buf)[i].dirty
    {
      i := Bget(b);
      assert i < n ==> BufOk(buf[i], disk, flat);
      if i < n && !buf[i].valid {
        ghost var before := buf;
        OnlyHolder(buf, disk, flat, i, b);
        TallyKeep(buf, disk, flat, i, buf[i].(data := disk[b], valid := true), dirt, refs);
        buf := buf[i := buf[i].(data := disk[b], valid := true)];
        FillAgree(before, buf, disk, flat, i, b);
      }
    }

    /** Change the data of a held buffer and pin it, as every use of log_write does. */
    method Modify(i: nat, data: Block)
      requires Valid() && i < |buf| && buf[i].valid && buf[i].blockno.Some? && buf[i].refcnt > 0
      requires buf[i].blockno.value < |disk| == |flat| && |data| == BLOCKWORDS
      modifies `buf, `flat, `dirt
      ensures Valid() && flat == old(flat)[old(buf)[i].blockno.value := data]
      ensures dirt == old(dirt) + {old(buf)[i].blockno.value}
      ensures buf == old(buf)[i := old(buf)[i].(data := data, dirty := true)]
    {
      assert BufOk(buf[i], disk, flat);
      ghost var b := buf[i].blockno.value;
      TallySet(buf, disk, flat, i, buf[i].(data := data, dirty := true), dirt, refs);
      OwnDirt(buf, disk, flat, i, b, dirt, refs);
      dirt := dirt + {b};
      buf := buf[i := buf[i].(data := data, dirty := true)];
      flat := flat[b := data];
      ModifyAgree(old(buf), buf, disk, old(flat), flat, i, b, data);
    }

    /** Copy `data` into a held buffer and bwrite it. */
    method WriteThrough(i: nat, data: Block)
      requires Valid() && i < |buf| && buf[i].valid && buf[i].blockno.Some? && buf[i].refcnt > 0
      requires buf[i].blockno.value < |disk| == |flat| && |data| == BLOCKWORDS
      modifies `buf, `flat, `disk, `trace, `history, `dirt
      ensures Valid() && dirt == old(dirt) - {old(buf)[i].blockno.value}
      ensures var b := old(buf)[i].blockno.value;
        && flat == old(flat)[b := data] && disk == old(disk)[b := data]
        && trace == old(trace) + [Write(b, data)] && history == old(history) + [disk]
      ensures buf == old(buf)[i := old(buf)[i].(data := data, dirty := false)]
    {
      assert BufOk(buf[i], disk, flat);
      var b := buf[i].blockno.value;
      TallySet(buf, disk, flat, i, buf[i].(data := data, dirty := false), dirt, refs);
      OwnDirt(buf, disk, flat, i, b, dirt, refs);
      dirt := dirt - {b};
      buf := buf[i := buf[i].(data := data, dirty := false)];
      flat := flat[b := data];
      disk := disk[b := data];
      trace, history := trace + [Write(b, data)], history + [disk];
      RecordOne(old(history), old(trace), old(disk), Write(b, data));
      WriteAgree(old(buf), buf, old(disk), disk, old(flat), flat, i, b, data);
    }

    /** brelse: drop a reference; a buffer nobody uses becomes the most recently used. */
    method Brelse(i: nat)
      requires Valid() && i < |buf| && buf[i].refcnt > 0
      modifies `buf, `next, `prev, `order, `refs
      ensures Valid() && refs == old(refs) - 1 && buf == old(buf)[i := old(buf)[i].(refcnt := old(buf)[i].refcnt - 1)]
      ensures buf[i].refcnt > 0 ==> order == old(order)
      ensures buf[i].refcnt == 0 ==>
        && i in old(order)
        && var k := IndexOf(old(order), i); order == [i] + (old(order)[..k] + old(order)[k+1..])
    {
      TallyKeep(buf, disk, flat, i, buf[i].(refcnt := buf[i].refcnt - 1), dirt, refs);
      buf, refs := buf[i := buf[i].(refcnt := buf[i].refcnt - 1)], refs - 1;
      SameAgree(old(buf), buf, disk, flat, i);
      if buf[i].refcnt == 0 {
        FrontSame(order, i);
        MoveToFront(i);
      }
    }
  }

  // --------------------------------------------------------- counting busy buffers

  /** References to the first `m` buffers. */
  ghost function RefsTo(buf: seq<Buf>, m: nat): nat
    requires m <= |buf|
  {
    if m == 0 then 0 else RefsTo(buf, m - 1) + buf[m-1].refcnt
  }

  /** Blocks in dirty buffers among the first `m`. */
  ghost function DirtTo(buf: seq<Buf>, m: nat): set<nat>
    requires m <= |buf|
  {
    if m == 0 then {} else DirtTo(buf, m - 1) + Own(buf[m-1])
  }

  ghost function Own(p: Buf): set<nat> {
    if p.dirty && p.blockno.Some? then {p.blockno.value} else {}
  }

  ghost predicate Tallied(buf: seq<Buf>, dirt: set<nat>, refs: nat) {
    refs == RefsTo(buf, |buf|) && dirt == DirtTo(buf, |buf|)
  }

  lemma {:induction false} NoRefs(buf: seq<Buf>, m: nat)
    requires m <= |buf| && forall i :: 0 <= i < |buf| ==> buf[i].refcnt == 0 && !buf[i].dirty
    ensures RefsTo(buf, m) == 0 && DirtTo(buf, m) == {}
  {
    if m > 0 { NoRefs(buf, m - 1); }
  }

  lemma {:induction false} DirtIs(buf: seq<Buf>, m: nat, b: nat)
    requires m <= |buf|
    ensures b in DirtTo(buf, m) <==> exists k :: k < m && HoldsDirty(buf, k, b)
  {
    if m > 0 {
      DirtIs(buf, m - 1, b);
      if b in Own(buf[m-1]) { assert HoldsDirty(buf, m - 1, b); }
    }
  }

  lemma {:induction false} RefsSet(buf: seq<Buf>, i: nat, p: Buf, m: nat)
    requires i < |buf| && m <= |buf|
    ensures RefsTo(buf[i := p], m) == RefsTo(buf, m) + if i < m then p.refcnt - buf[i].refcnt else 0
  {
    if m > 0 { RefsSet(buf, i, p, m - 1); }
  }

  /** A buffer changes: its own block leaves the dirty ones, and what it holds then joins them. */
  lemma TallySet(buf: seq<Buf>, disk: Disk, flat: Disk, i: nat, p: Buf, dirt: set<nat>, refs: nat)
    requires Agree(buf, disk, flat) && Tallied(buf, dirt, refs) && i < |buf|
    ensures refs >= buf[i].refcnt
    ensures Tallied(buf[i := p], dirt - Own(buf[i]) + Own(p), refs - buf[i].refcnt + p.refcnt)
  {
    var buf' := buf[i := p];
    RefsSet(buf, i, p, |buf|);
    RefsSet(buf, i, buf[i].(refcnt := 0), |buf|);
    var dirt' := dirt - Own(buf[i]) + Own(p);
    forall b: nat ensures b in dirt' <==> b in DirtTo(buf', |buf|) {
      DirtIs(buf, |buf|, b);
      DirtIs(buf', |buf|, b);
      if k :| HoldsDirty(buf, k, b) && k != i { assert HoldsDirty(buf', k, b) && HoldOnce(buf, k, i); }
      if k :| HoldsDirty(buf', k, b) && k != i { assert HoldsDirty(buf, k, b) && HoldOnce(buf, k, i); }
      if b in Own(p) { assert HoldsDirty(buf', i, b); }
      if b in Own(buf[i]) { assert HoldsDirty(buf, i, b); }
    }
  }

  lemma TallyKeep(buf: seq<Buf>, disk: Disk, flat: Disk, i: nat, p: Buf, dirt: set<nat>, refs: nat)
    requires Agree(buf, disk, flat) && Tallied(buf, dirt, refs) && i < |buf| && Own(p) == Own(buf[i])
    ensures refs >= buf[i].refcnt && Tallied(buf[i := p], dirt, refs - buf[i].refcnt + p.refcnt)
  {
    TallySet(buf, disk, flat, i, p, dirt, refs);
    if buf[i].dirty && buf[i].blockno.Some? { OwnDirt(buf, disk, flat, i, buf[i].blockno.value, dirt, refs); }
    assert dirt - Own(buf[i]) + Own(p) == dirt;
  }

  lemma OwnDirt(buf: seq<Buf>, disk: Disk, flat: Disk, i: nat, b: nat, dirt: set<nat>, refs: nat)
    requires Agree(buf, disk, flat) && Tallied(buf, dirt, refs) && i < |buf| && buf[i].blockno == Some(b)
    ensures b in dirt <==> buf[i].dirty
  {
    DirtIs(buf, |buf|, b);
    if buf[i].dirty { assert HoldsDirty(buf, i, b); }
    if k :| HoldsDirty(buf, k, b) { assert HoldOnce(buf, k, i); }
  }

  /** Each dirty buffer has a block of its own. */
  lemma {:induction false} DirtSize(buf: seq<Buf>, disk: Disk, flat: Disk, m: nat)
    requires Agree(buf, disk, flat) && m <= |buf|
    ensures |DirtTo(buf, m)| <= m
    ensures (forall k :: 0 <= k < m ==> Busy(buf[k])) ==> m <= |DirtTo(buf, m)| + RefsTo(buf, m)
    ensures (exists k :: 0 <= k < m && !buf[k].dirty) ==> |DirtTo(buf, m)| < m
  {
    if m > 0 {
      DirtSize(buf, disk, flat, m - 1);
      var p := buf[m-1];
      assert BufOk(p, disk, flat);
      if p.dirty {
        DirtIs(buf, m - 1, p.blockno.value);
        if k :| k < m - 1 && HoldsDirty(buf, k, p.blockno.value) { assert HoldOnce(buf, k, m - 1); }
      }
    }
  }

  lemma BusyRoom(buf: seq<Buf>, disk: Disk, flat: Disk, b: nat, dirt: set<nat>, refs: nat)
    requires Agree(buf, disk, flat) && Tallied(buf, dirt, refs)
    requires forall k :: 0 <= k < |buf| ==> buf[k].blockno != Some(b) && Busy(buf[k])
    ensures b !in dirt && |buf| <= |dirt| + refs
  {
    DirtSize(buf, disk, flat, |buf|);
    DirtIs(buf, |buf|, b);
  }

  lemma FreeRoom(buf: seq<Buf>, disk: Disk, flat: Disk, i: nat, dirt: set<nat>, refs: nat)
    requires Agree(buf, disk, flat) && Tallied(buf, dirt, refs) && i < |buf| && !buf[i].dirty
    ensures |dirt| < |buf|
  {
    DirtSize(buf, disk, flat, |buf|);
  }

  lemma HitRoom(buf: seq<Buf>, disk: Disk, flat: Disk, i: nat, b: nat, dirt: set<nat>, refs: nat)
    requires Agree(buf, disk, flat) && Tallied(buf, dirt, refs) && i < |buf| && buf[i].blockno == Some(b)
    ensures b in dirt || |dirt| < |buf|
  {
    OwnDirt(buf, disk, flat, i, b, dirt, refs);
    if !buf[i].dirty { FreeRoom(buf, disk, flat, i, dirt, refs); }
  }

  // ------------------------------------------------------- how agreement is kept

  lemma SamePinned(buf: seq<Buf>, buf': seq<Buf>, disk: Disk, flat: Disk, i: nat)
    requires Agree(buf, disk, flat) && |buf'| == |buf| && i < |buf|
    requires forall k :: 0 <= k < |buf| && k != i ==> buf'[k] == buf[k]
    requires buf[i].dirty ==> buf'[i].dirty && buf'[i].blockno == buf[i].blockno
    ensures forall b {:trigger Pinned(buf', b)} :: 0 <= b < |flat| && flat[b] != disk[b] ==> Pinned(buf', b)
  {
    forall b | 0 <= b < |flat| && flat[b] != disk[b] ensures Pinned(buf', b) {
      assert Pinned(buf, b);
      var k :| HoldsDirty(buf, k, b);
      assert HoldsDirty(buf', k, b);
    }
  }

  lemma SameAgree(buf: seq<Buf>, buf': seq<Buf>, disk: Disk, flat: Disk, i: nat)
    requires Agree(buf, disk, flat) && i < |buf| == |buf'| && buf' == buf[i := buf[i].(refcnt := buf'[i].refcnt)]
    ensures Agree(buf', disk, flat)
  {
    SamePinned(buf, buf', disk, flat, i);
    forall k | 0 <= k < |buf'| ensures BufOk(buf'[k], disk, flat) { assert BufOk(buf[k], disk, flat); }
    forall j, k | 0 <= j < |buf'| && 0 <= k < |buf'| ensures HoldOnce(buf', j, k) { assert HoldOnce(buf, j, k); }
  }

  lemma RecycleAgree(buf: seq<Buf>, buf': seq<Buf>, disk: Disk, flat: Disk, i: nat, b: nat)
    requires Agree(buf, disk, flat) && i < |buf| && b < |flat| && !buf[i].dirty && |buf'| == |buf|
    requires buf' == buf[i := Buf(Some(b), false, false, 1, buf[i].data)]
    requires forall k :: 0 <= k < |buf| ==> buf[k].blockno != Some(b)
    ensures Agree(buf', disk, flat)
  {
    SamePinned(buf, buf', disk, flat, i);
    forall k | 0 <= k < |buf'| ensures BufOk(buf'[k], disk, flat) { assert BufOk(buf[k], disk, flat); }
    forall j, k | 0 <= j < |buf'| && 0 <= k < |buf'| ensures HoldOnce(buf', j, k) { assert HoldOnce(buf, j, k); }
  }

  /** A buffer that holds `b` and is not valid leaves no one to pin other contents. */
  lemma OnlyHolder(buf: seq<Buf>, disk: Disk, flat: Disk, i: nat, b: nat)
    requires Agree(buf, disk, flat) && i < |buf| && buf[i].blockno == Some(b) && !buf[i].valid && b < |flat|
    ensures flat[b] == disk[b]
  {
    assert !Pinned(buf, b) by {
      forall k | 0 <= k < |buf| ensures !HoldsDirty(buf, k, b) {
        assert HoldOnce(buf, k, i) && BufOk(buf[k], disk, flat);
      }
    }
  }

  lemma FillAgree(buf: seq<Buf>, buf': seq<Buf>, disk: Disk, flat: Disk, i: nat, b: nat)
    requires Agree(buf, disk, flat) && i < |buf| && buf[i].blockno == Some(b) && !buf[i].valid && b < |flat|
    requires flat[b] == disk[b] && |buf'| == |buf| && buf' == buf[i := buf[i].(data := disk[b], valid := true)]
    ensures Agree(buf', disk, flat)
  {
    SamePinned(buf, buf', disk, flat, i);
    forall k | 0 <= k < |buf'| ensures BufOk(buf'[k], disk, flat) { assert BufOk(buf[k], disk, flat); }
    forall j, k | 0 <= j < |buf'| && 0 <= k < |buf'| ensures HoldOnce(buf', j, k) { assert HoldOnce(buf, j, k); }
  }

  lemma ModifyAgree(buf: seq<Buf>, buf': seq<Buf>, disk: Disk, flat: Disk, flat': Disk, i: nat, b: nat, data: Block)
    requires Agree(buf, disk, flat) && i < |buf| && buf[i].valid && buf[i].blockno == Some(b) && b < |flat|
    requires |data| == BLOCKWORDS && flat' == flat[b := data] && |buf'| == |buf|
    requires buf' == buf[i := buf[i].(data := data, dirty := true)]
    ensures Agree(buf', disk, flat')
  {
    forall k | 0 <= k < |buf'|
      ensures BufOk(buf'[k], disk, flat')
    {
      assert BufOk(buf[k], disk, flat) && HoldOnce(buf, k, i);
    }
    forall j, k | 0 <= j < |buf'| && 0 <= k < |buf'| ensures HoldOnce(buf', j, k) { assert HoldOnce(buf, j, k); }
    forall c | 0 <= c < |flat'| && flat'[c] != disk[c] ensures Pinned(buf', c) {
      if c == b {
        assert HoldsDirty(buf', i, b);
      } else {
        assert Pinned(buf, c);
        var k :| HoldsDirty(buf, k, c);
        assert HoldsDirty(buf', k, c);
      }
    }
  }

  lemma WriteAgree(buf: seq<Buf>, buf': seq<Buf>, disk: Disk, disk': Disk, flat: Disk, flat': Disk,
                   i: nat, b: nat, data: Block)
    requires Agree(buf, disk, flat) && i < |buf| && buf[i].valid && buf[i].blockno == Some(b) && b < |flat|
    requires |data| == BLOCKWORDS && flat' == flat[b := data] && disk' == disk[b := data] && |buf'| == |buf|
    requires buf' == buf[i := buf[i].(data := data, dirty := false)]
    ensures Agree(buf', disk', flat')
  {
    forall k | 0 <= k < |buf'|
      ensures BufOk(buf'[k], disk', flat')
    {
      assert BufOk(buf[k], disk, flat) && HoldOnce(buf, k, i);
    }
    forall j, k | 0 <= j < |buf'| && 0 <= k < |buf'| ensures HoldOnce(buf', j, k) { assert HoldOnce(buf, j, k); }
    forall c | 0 <= c < |flat'| && flat'[c] != disk'[c] ensures Pinned(buf', c) {
      assert Pinned(buf, c);
      var k :| HoldsDirty(buf, k, c);
      assert HoldsDirty(buf', k, c);
    }
  }
}
