/** The write-ahead log on disk: which block writes a commit and a recovery make, in
    which order, and that a crash after any of them loses nothing and mixes nothing. */
module LogSpec {
  import opened Common

  /** Words in a block: BSIZE / sizeof(uint). */
  const BLOCKWORDS := 128

  type Block = seq<int>

  /** A disk, by block number. What is not in the log area is home. */
  type Disk = seq<Block>

  datatype Write = Write(b: nat, data: Block)

  /** Where the log lies: `size` blocks from `start` on, the first of them the header. */
  datatype Area = Area(start: nat, size: nat)

  predicate InLog(g: Area, b: int) {
    g.start <= b < g.start + g.size
  }

  /** Block numbers that may be logged: distinct, on the disk, outside the log. */
  ghost predicate Loggable(size: nat, g: Area, bs: seq<nat>) {
    |bs| <= LOGSIZE && |bs| < g.size && Distinct(bs)
    && forall i :: 0 <= i < |bs| ==> bs[i] < size && !InLog(g, bs[i])
  }

  // ------------------------------------------------------------ header block

  /** What write_head makes of the header block: it overwrites the count and that many numbers. */
  function PutHead(h: Block, bs: seq<nat>): Block
    requires |h| == BLOCKWORDS && |bs| <= LOGSIZE
  {
    [|bs|] + bs + h[|bs|+1..]
  }

  /** A header whose count and numbers can be trusted. */
  ghost predicate GoodHead(size: nat, g: Area, h: Block) {
    && |h| == BLOCKWORDS && 0 <= h[0] <= LOGSIZE
    && (forall i :: 1 <= i <= h[0] ==> h[i] >= 0)
    && Loggable(size, g, HeadBlocks(h))
  }

  /** What read_head takes from it. */
  function HeadBlocks(h: Block): (bs: seq<nat>)
    requires |h| == BLOCKWORDS && 0 <= h[0] <= LOGSIZE && forall i :: 1 <= i <= h[0] ==> h[i] >= 0
    ensures |bs| == h[0] && forall i :: 0 <= i < |bs| ==> bs[i] == h[i+1]
  {
    seq(h[0], i requires 0 <= i < h[0] => h[i+1])
  }

  lemma HeadRoundTrip(h: Block, bs: seq<nat>)
    requires |h| == BLOCKWORDS && |bs| <= LOGSIZE
    ensures var h' := PutHead(h, bs);
      && |h'| == BLOCKWORDS && h'[0] == |bs| && (forall i :: 1 <= i <= h'[0] ==> h'[i] >= 0)
      && HeadBlocks(h') == bs
  {
    var h' := PutHead(h, bs);
    forall i | 1 <= i <= |bs| ensures h'[i] == bs[i-1] {}
  }

  ghost predicate DiskOk(d: Disk, g: Area) {
    && 0 < g.size && g.start + g.size <= |d|
    && (forall b :: 0 <= b < |d| ==> |d[b]| == BLOCKWORDS)
    && GoodHead(|d|, g, d[g.start])
  }

  ghost function Logged(d: Disk, g: Area): seq<nat>
    requires DiskOk(d, g)
  {
    HeadBlocks(d[g.start])
  }

  // ------------------------------------------------------------------ writes

  ghost predicate WritesOk(size: nat, ws: seq<Write>) {
    forall i :: 0 <= i < |ws| ==> ws[i].b < size && |ws[i].data| == BLOCKWORDS
  }

  ghost function ApplyWrites(d: Disk, ws: seq<Write>): (r: Disk)
    requires WritesOk(|d|, ws)
    ensures |r| == |d|
  {
    if ws == [] then d
    else ApplyWrites(d, ws[..|ws|-1])[ws[|ws|-1].b := ws[|ws|-1].data]
  }

  /** install_trans, as it reads the log blocks from `d`. */
  ghost function InstallWrites(d: Disk, g: Area, bs: seq<nat>): (ws: seq<Write>)
    requires |bs| < g.size && g.start + g.size <= |d|
    ensures |ws| == |bs| && forall i :: 0 <= i < |bs| ==> ws[i] == Write(bs[i], d[g.start+1+i])
  {
    seq(|bs|, i requires 0 <= i < |bs| => Write(bs[i], d[g.start+1+i]))
  }

  /** write_log: one log block per logged block. */
  ghost function LogWrites(g: Area, data: seq<Block>): (ws: seq<Write>)
    ensures |ws| == |data| && forall i :: 0 <= i < |data| ==> ws[i] == Write(g.start+1+i, data[i])
  {
    seq(|data|, i requires 0 <= i < |data| => Write(g.start + 1 + i, data[i]))
  }

  ghost function HomeWrites(bs: seq<nat>, data: seq<Block>): (ws: seq<Write>)
    requires |bs| == |data|
    ensures |ws| == |bs| && forall i :: 0 <= i < |bs| ==> ws[i] == Write(bs[i], data[i])
  {
    seq(|bs|, i requires 0 <= i < |bs| => Write(bs[i], data[i]))
  }

  /** recover_from_log: install what the header lists, then clear the header. */
  ghost function RecoverWrites(d: Disk, g: Area): seq<Write>
    requires DiskOk(d, g)
  {
    InstallWrites(d, g, Logged(d, g)) + [Write(g.start, PutHead(d[g.start], []))]
  }

  /** commit: log blocks, header, home blocks, cleared header. `h` is the header block before.
      An empty transaction writes nothing. */
  ghost function CommitWrites(h: Block, g: Area, bs: seq<nat>, data: seq<Block>): seq<Write>
    requires |h| == BLOCKWORDS && |bs| == |data| <= LOGSIZE
  {
    if bs == [] then []
    else
      LogWrites(g, data) + [Write(g.start, PutHead(h, bs))]
        + HomeWrites(bs, data) + [Write(g.start, PutHead(PutHead(h, bs), []))]
  }

  /** A block that no write names keeps its contents. */
  lemma {:induction false} Untouched(d: Disk, ws: seq<Write>, b: nat)
    requires WritesOk(|d|, ws) && b < |d| && forall i :: 0 <= i < |ws| ==> ws[i].b != b
    ensures ApplyWrites(d, ws)[b] == d[b]
  {
    if ws != [] { Untouched(d, ws[..|ws|-1], b); }
  }

  /** A block has what the last write to it wrote. */
  lemma {:induction false} WrittenLast(d: Disk, ws: seq<Write>, i: nat)
    requires WritesOk(|d|, ws) && i < |ws| && forall j :: i < j < |ws| ==> ws[j].b != ws[i].b
    ensures ApplyWrites(d, ws)[ws[i].b] == ws[i].data
  {
    if i < |ws| - 1 { WrittenLast(d, ws[..|ws|-1], i); }
  }

  // ---------------------------------------------------------------- recovery

  /** The disk after a completed recovery. */
  ghost function Recovered(d: Disk, g: Area): Disk
    requires DiskOk(d, g)
  {
    RecoverWritesOk(d, g);
    ApplyWrites(d, RecoverWrites(d, g))
  }

  lemma RecoverWritesOk(d: Disk, g: Area)
    requires DiskOk(d, g)
    ensures WritesOk(|d|, RecoverWrites(d, g))
  {
    var bs, ws := Logged(d, g), RecoverWrites(d, g);
    forall i | 0 <= i < |ws| ensures ws[i].b < |d| && |ws[i].data| == BLOCKWORDS {
      assert i < |bs| ==> ws[i] == Write(bs[i], d[g.start+1+i]);
    }
  }

  /** The disk after the first `k` writes of a recovery. */
  ghost function RecoverCrash(d: Disk, g: Area, k: nat): Disk
    requires DiskOk(d, g) && k <= |Logged(d, g)| + 1
  {
    RecoverWritesOk(d, g);
    ApplyWrites(d, RecoverWrites(d, g)[..k])
  }

  lemma RecoverPrefix(d: Disk, g: Area, k: nat) returns (ws: seq<Write>)
    requires DiskOk(d, g) && k <= |Logged(d, g)| + 1
    ensures WritesOk(|d|, ws) && |ws| == k && RecoverCrash(d, g, k) == ApplyWrites(d, ws)
    ensures forall i :: 0 <= i < k && i < |Logged(d, g)| ==> ws[i] == Write(Logged(d, g)[i], d[g.start+1+i])
    ensures k > |Logged(d, g)| ==> ws[k-1] == Write(g.start, PutHead(d[g.start], []))
  {
    RecoverWritesOk(d, g);
    ws := RecoverWrites(d, g)[..k];
  }

  /** What each block holds then. */
  lemma RecoverCrashBlock(d: Disk, g: Area, k: nat, b: nat)
    requires DiskOk(d, g) && k <= |Logged(d, g)| + 1 && b < |d|
    ensures var bs, e := Logged(d, g), RecoverCrash(d, g, k);
      && (b == g.start ==> e[b] == if k > |bs| then PutHead(d[b], []) else d[b])
      && (forall i :: 0 <= i < |bs| && bs[i] == b ==> e[b] == if i < k then d[g.start+1+i] else d[b])
      && (b != g.start && b !in bs ==> e[b] == d[b])
  {
    var bs := Logged(d, g);
    var ws := RecoverPrefix(d, g, k);
    if b == g.start && k > |bs| {
      WrittenLast(d, ws, |bs|);
    } else if i :| 0 <= i < |bs| && bs[i] == b && i < k {
      WrittenLast(d, ws, i);
    } else {
      Untouched(d, ws, b);
    }
  }

  lemma RecoverCrashOk(d: Disk, g: Area, k: nat)
    requires DiskOk(d, g) && k <= |Logged(d, g)| + 1
    ensures var e := RecoverCrash(d, g, k);
      && DiskOk(e, g) && |e| == |d|
      && Logged(e, g) == (if k > |Logged(d, g)| then [] else Logged(d, g))
      && PutHead(e[g.start], []) == PutHead(d[g.start], [])
  {
    var e, bs := RecoverCrash(d, g, k), Logged(d, g);
    forall b | 0 <= b < |d| ensures |e[b]| == BLOCKWORDS {
      RecoverCrashBlock(d, g, k, b);
      if i :| 0 <= i < |bs| && bs[i] == b { assert bs[i] == b; }
    }
    RecoverCrashBlock(d, g, k, g.start);
    HeadRoundTrip(d[g.start], []);
    assert PutHead(PutHead(d[g.start], []), []) == PutHead(d[g.start], []);
  }

  /** A crash anywhere inside recovery does not change what a completed recovery leaves. */
  lemma RecoveryIdempotent(d: Disk, g: Area, k: nat)
    requires DiskOk(d, g) && k <= |Logged(d, g)| + 1
    ensures DiskOk(RecoverCrash(d, g, k), g)
    ensures Recovered(RecoverCrash(d, g, k), g) == Recovered(d, g)
  {
    var e, bs := RecoverCrash(d, g, k), Logged(d, g);
    RecoverCrashOk(d, g, k);
    var r, r' := Recovered(d, g), Recovered(e, g);
    RecoverAll(d, g);
    RecoverAll(e, g);
    forall b | 0 <= b < |d| ensures r'[b] == r[b] {
      RecoverSame(d, g, k, b);
    }
  }

  lemma RecoverAll(d: Disk, g: Area)
    requires DiskOk(d, g)
    ensures Recovered(d, g) == RecoverCrash(d, g, |Logged(d, g)| + 1)
  {
    var ws := RecoverWrites(d, g);
    assert ws[..|Logged(d, g)| + 1] == ws;
  }

  lemma RecoverSame(d: Disk, g: Area, k: nat, b: nat)
    requires DiskOk(d, g) && k <= |Logged(d, g)| + 1 && b < |d|
    requires DiskOk(RecoverCrash(d, g, k), g)
    ensures Recovered(RecoverCrash(d, g, k), g)[b] == Recovered(d, g)[b]
  {
    var e, bs := RecoverCrash(d, g, k), Logged(d, g);
    RecoverCrashOk(d, g, k);
    if i :| 0 <= i < |bs| && bs[i] == b {
      RecoverSameLogged(d, g, k, i);
    } else {
      RecoverCrashBlock(d, g, k, b);
      RecoveredBlock(d, g, b);
      RecoveredBlock(e, g, b);
    }
  }

  /** What a completed recovery leaves in each block. */
  lemma RecoveredBlock(d: Disk, g: Area, b: nat)
    requires DiskOk(d, g) && b < |d|
    ensures b == g.start ==> Recovered(d, g)[b] == PutHead(d[b], [])
    ensures forall i :: 0 <= i < |Logged(d, g)| && Logged(d, g)[i] == b ==> Recovered(d, g)[b] == d[g.start+1+i]
    ensures b != g.start && b !in Logged(d, g) ==> Recovered(d, g)[b] == d[b]
  {
    RecoverAll(d, g);
    RecoverCrashBlock(d, g, |Logged(d, g)| + 1, b);
  }

  lemma RecoverSameLogged(d: Disk, g: Area, k: nat, i: nat)
    requires DiskOk(d, g) && k <= |Logged(d, g)| + 1 && i < |Logged(d, g)|
    requires DiskOk(RecoverCrash(d, g, k), g)
    requires Logged(RecoverCrash(d, g, k), g) == if k > |Logged(d, g)| then [] else Logged(d, g)
    ensures Recovered(RecoverCrash(d, g, k), g)[Logged(d, g)[i]] == Recovered(d, g)[Logged(d, g)[i]]
  {
    var e, b := RecoverCrash(d, g, k), Logged(d, g)[i];
    RecoveredBlock(d, g, b);
    RecoveredBlock(e, g, b);
    RecoverCrashBlock(d, g, k, b);
    RecoverCrashBlock(d, g, k, g.start + 1 + i);
  }
}
