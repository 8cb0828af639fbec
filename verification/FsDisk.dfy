/** The file system on disk: the free map and the inodes as bytes of blocks, and which blocks an
    operation has passed to log_write. */
module FsDisk {
  import opened Common
  import opened Bits
  import opened FsSpec

  /** Bits of a bitmap block, inodes of an inode block, words of an inode. */
  const BPB := 4096
  const IPB := 8
  const INODEWORDS := 16

  // --------------------------------------------------------------- bitmap blocks

  predicate TestBit(b: Block, bi: nat)
    requires |b| == BSIZE && bi < BPB
  {
    HasBit(b[bi / 8], bi % 8)
  }

  function SetBit(b: Block, bi: nat, v: bool): (b': Block)
    requires |b| == BSIZE && bi < BPB
    ensures |b'| == BSIZE
  {
    b[bi / 8 := if v then WithBit(b[bi / 8], bi % 8) else WithoutBit(b[bi / 8], bi % 8)]
  }

  lemma SetTest(b: Block, bi: nat, v: bool, bj: nat)
    requires |b| == BSIZE && bi < BPB && bj < BPB
    ensures TestBit(SetBit(b, bi, v), bj) == if bj == bi then v else TestBit(b, bj)
  {
    ByteBits(b[bi / 8], bi % 8, bj % 8);
  }

  /** Block `bi` of those that a bitmap block covers is bit `bi % 8` of its byte `bi / 8`. */
  lemma BitLayout(b: Block, bi: nat)
    requires |b| == BSIZE && bi < BPB
    ensures TestBit(b, bi) <==> Bit(b[bi / 8], bi % 8)
  {
    AndMask(b[bi / 8], bi % 8);
  }

  // ---------------------------------------------------------------- inode blocks

  /** What a disk inode has room for. */
  ghost predicate Fits(n: Inode) {
    n.size < WORD && |n.addrs| == NDIRECT + 1 && forall k :: 0 <= k <= NDIRECT ==> n.addrs[k] < WORD
  }

  ghost predicate AreWords(ws: seq<nat>) {
    forall k :: 0 <= k < |ws| ==> ws[k] < WORD
  }

  /** The fields of a disk inode in order. */
  function InodeWords(n: Inode): (ws: seq<nat>)
    requires Fits(n)
    ensures |ws| == INODEWORDS && AreWords(ws)
  {
    [n.kind + 0x1_0000 * n.major, n.minor + 0x1_0000 * n.nlink, n.size] + n.addrs
  }

  function FromWords(ws: seq<nat>): Inode
    requires |ws| == INODEWORDS
  {
    Inode(ws[0] % 0x1_0000, ws[0] / 0x1_0000 % 0x1_0000, ws[1] % 0x1_0000, ws[1] / 0x1_0000 % 0x1_0000, ws[2], ws[3..])
  }

  lemma WordsBack(n: Inode)
    requires Fits(n)
    ensures FromWords(InodeWords(n)) == n
  {
  }

  /** `n` words of a block, from word `j` on. */
  function GetWords(b: Block, j: nat, n: nat): (ws: seq<nat>)
    requires |b| == BSIZE && j + n <= NINDIRECT
    ensures |ws| == n && forall x :: 0 <= x < n ==> ws[x] == GetWord(b, j + x)
  {
    seq<nat>(n, x requires 0 <= x < n => GetWord(b, j + x))
  }

  function PutWords(b: Block, j: nat, ws: seq<nat>): (b': Block)
    requires |b| == BSIZE && j + |ws| <= NINDIRECT && AreWords(ws)
    ensures |b'| == BSIZE
    decreases |ws|
  {
    if ws == [] then b else PutWords(PutWord(b, j, ws[0]), j + 1, ws[1..])
  }

  lemma {:induction false} PutWordsGet(b: Block, j: nat, ws: seq<nat>, k: nat)
    requires |b| == BSIZE && j + |ws| <= NINDIRECT && AreWords(ws) && k < NINDIRECT
    ensures GetWord(PutWords(b, j, ws), k) == if j <= k < j + |ws| then ws[k - j] else GetWord(b, k)
    decreases |ws|
  {
    if ws != [] {
      PutWordsGet(PutWord(b, j, ws[0]), j + 1, ws[1..], k);
      PutGet(b, j, ws[0], k);
    }
  }

  lemma GetPutWords(b: Block, j: nat, ws: seq<nat>, k: nat)
    requires |b| == BSIZE && j + |ws| <= NINDIRECT && AreWords(ws) && k + |ws| <= NINDIRECT
    ensures k == j ==> GetWords(PutWords(b, j, ws), k, |ws|) == ws
    ensures k + |ws| <= j || j + |ws| <= k ==> GetWords(PutWords(b, j, ws), k, |ws|) == GetWords(b, k, |ws|)
  {
    var got := GetWords(PutWords(b, j, ws), k, |ws|);
    forall x | 0 <= x < |ws| ensures got[x] == if j <= k + x < j + |ws| then ws[k + x - j] else GetWord(b, k + x) {
      PutWordsGet(b, j, ws, k + x);
    }
  }

  /** Inode `k` of a block: ilock reads it, iupdate writes it. */
  function ReadInode(b: Block, k: nat): Inode
    requires |b| == BSIZE && k < IPB
  {
    FromWords(GetWords(b, INODEWORDS * k, INODEWORDS))
  }

  function WriteInode(b: Block, k: nat, n: Inode): (b': Block)
    requires |b| == BSIZE && k < IPB && Fits(n)
    ensures |b'| == BSIZE
  {
    PutWords(b, INODEWORDS * k, InodeWords(n))
  }

  lemma InodeRoundTrip(b: Block, k: nat, n: Inode, k': nat)
    requires |b| == BSIZE && k < IPB && k' < IPB && Fits(n)
    ensures ReadInode(WriteInode(b, k, n), k') == if k' == k then n else ReadInode(b, k')
  {
    WordsBack(n);
    GetPutWords(b, INODEWORDS * k, InodeWords(n), INODEWORDS * k');
  }

  /** struct dinode: the offsets of its fields in bytes, least significant byte first. */
  lemma InodeLayout(b: Block, k: nat, n: Inode, a: nat)
    requires |b| == BSIZE && k < IPB && Fits(n) && a <= NDIRECT
    ensures var c, o := WriteInode(b, k, n), 64 * k;
      && Join(c[o], c[o+1], 0, 0) == n.kind && Join(c[o+2], c[o+3], 0, 0) == n.major
      && Join(c[o+4], c[o+5], 0, 0) == n.minor && Join(c[o+6], c[o+7], 0, 0) == n.nlink
      && Join(c[o+8], c[o+9], c[o+10], c[o+11]) == n.size
      && var p := o + 12 + 4 * a; Join(c[p], c[p+1], c[p+2], c[p+3]) == n.addrs[a]
  {
    var ws, j := InodeWords(n), INODEWORDS * k;
    var c := PutWords(b, j, ws);
    PutWordsGet(b, j, ws, j);
    PutWordsGet(b, j, ws, j + 1);
    PutWordsGet(b, j, ws, j + 2);
    PutWordsGet(b, j, ws, j + 3 + a);
    Halves(c[4*j], c[4*j+1], c[4*j+2], c[4*j+3], n.kind, n.major);
    Halves(c[4*j+4], c[4*j+5], c[4*j+6], c[4*j+7], n.minor, n.nlink);
  }

  lemma Halves(a: Byte, b: Byte, c: Byte, d: Byte, x: nat, y: nat)
    requires Join(a, b, c, d) == x + 0x1_0000 * y && x < 0x1_0000
    ensures Join(a, b, 0, 0) == x && Join(c, d, 0, 0) == y
  {
  }

  // -------------------------------------------------------------------- the disk

  /** The first log, inode, bitmap and data blocks, and the number of log blocks. */
  datatype Layout = Layout(log: nat, nlog: nat, inodes: nat, bmap: nat, start: nat)

  ghost predicate LayoutOk(lay: Layout, size: nat, ninodes: nat) {
    && lay.log + lay.nlog <= lay.inodes && lay.inodes + (ninodes + IPB - 1) / IPB <= lay.bmap
    && lay.bmap + (size + BPB - 1) / BPB <= lay.start <= size
  }

  function BitBlock(lay: Layout, b: nat): nat { b / BPB + lay.bmap }

  function InodeBlock(lay: Layout, i: nat): nat { i / IPB + lay.inodes }

  ghost predicate Blocks(d: seq<Block>) {
    forall b :: 0 <= b < |d| ==> |d[b]| == BSIZE
  }

  /** The bit of block `b`, and inode `i`. */
  ghost predicate BitAt(lay: Layout, d: seq<Block>, b: nat)
    requires Blocks(d) && BitBlock(lay, b) < |d|
  {
    TestBit(d[BitBlock(lay, b)], b % BPB)
  }

  function InodeAt(lay: Layout, d: seq<Block>, i: nat): Inode
    requires Blocks(d) && InodeBlock(lay, i) < |d|
  {
    ReadInode(d[InodeBlock(lay, i)], i % IPB)
  }

  lemma Places(lay: Layout, size: nat, ninodes: nat)
    requires LayoutOk(lay, size, ninodes)
    ensures forall b {:trigger BitBlock(lay, b)} :: 0 <= b < size ==> lay.bmap <= BitBlock(lay, b) < lay.start
    ensures forall i {:trigger InodeBlock(lay, i)} :: 0 <= i < ninodes ==> lay.inodes <= InodeBlock(lay, i) < lay.bmap
  {
  }

  ghost predicate BitOk(lay: Layout, d: seq<Block>, bits: seq<bool>, b: nat)
    requires Blocks(d) && b < |bits|
  {
    BitBlock(lay, b) < |d| && bits[b] == BitAt(lay, d, b)
  }

  ghost predicate InodeOk(lay: Layout, d: seq<Block>, inodes: seq<Inode>, i: nat)
    requires Blocks(d) && i < |inodes|
  {
    InodeBlock(lay, i) < |d| && inodes[i] == InodeAt(lay, d, i)
  }

  ghost predicate DataOk(d: seq<Block>, blocks: seq<Block>, b: nat)
    requires b < |blocks| == |d|
  {
    blocks[b] == d[b]
  }

  /** The disk says what the file system is, owners aside. */
  ghost predicate Holds(lay: Layout, d: seq<Block>, bits: seq<bool>, blocks: seq<Block>, inodes: seq<Inode>) {
    && LayoutOk(lay, |d|, |inodes|) && |bits| == |blocks| == |d| && Blocks(d)
    && (forall b :: 0 <= b < |d| ==> BitOk(lay, d, bits, b))
    && (forall b :: lay.start <= b < |d| ==> DataOk(d, blocks, b))
    && (forall i :: 0 <= i < |inodes| ==> InodeOk(lay, d, inodes, i))
  }

  ghost predicate LogOk(lay: Layout, base: seq<Block>, d: seq<Block>, logged: set<nat>, b: nat)
    requires b < |base| == |d|
  {
    if b in logged then lay.inodes <= b else d[b] == base[b]
  }

  /** `d` differs from `base` in logged blocks only, and none of them lies in the log. */
  ghost predicate Logs(lay: Layout, base: seq<Block>, d: seq<Block>, logged: set<nat>) {
    && |base| == |d| && (forall b :: b in logged ==> b < |d|)
    && forall b :: 0 <= b < |d| ==> LogOk(lay, base, d, logged, b)
  }

  /** The disk holds the file system `f`, which is in order. */
  ghost predicate Stored(lay: Layout, d: seq<Block>, f: Fs) {
    Inv(f) && f.start == lay.start && Holds(lay, d, f.bits, f.blocks, f.inodes)
  }

  /** The disk `d` as the cache shows it, what it says, and what the open operation, which found
      the disk `base`, has logged. */
  datatype Image =
    Image(d: seq<Block>, bits: seq<bool>, blocks: seq<Block>, inodes: seq<Inode>, base: seq<Block>, logged: set<nat>)

  ghost predicate Rep(lay: Layout, im: Image) {
    match im
    case Image(d, bits, blocks, inodes, base, logged) =>
      Holds(lay, d, bits, blocks, inodes) && Logs(lay, base, d, logged)
  }

  ghost function WithData(im: Image, b: nat, data: Block): Image
    requires b < |im.d| == |im.blocks|
  {
    im.(d := im.d[b := data], blocks := im.blocks[b := data], logged := im.logged + {b})
  }

  lemma DataRep(lay: Layout, im: Image, b: nat, data: Block)
    requires Rep(lay, im) && lay.start <= b < |im.d| == |im.blocks| && |data| == BSIZE
    ensures Rep(lay, WithData(im, b, data))
  {
    Places(lay, |im.d|, |im.inodes|);
    var d := im.d[b := data];
    forall c | 0 <= c < |d| ensures BitOk(lay, d, im.bits, c) { assert BitOk(lay, im.d, im.bits, c); }
    forall i | 0 <= i < |im.inodes| ensures InodeOk(lay, d, im.inodes, i) { assert InodeOk(lay, im.d, im.inodes, i); }
    DataMore(lay, im, b, data);
    LogMore(lay, im, b, data);
  }

  lemma DataMore(lay: Layout, im: Image, b: nat, data: Block)
    requires Rep(lay, im) && lay.start <= b < |im.d| == |im.blocks|
    ensures var d, blocks := im.d[b := data], im.blocks[b := data];
      forall c :: lay.start <= c < |im.d| ==> DataOk(d, blocks, c)
  {
    var d, blocks := im.d[b := data], im.blocks[b := data];
    forall c | lay.start <= c < |im.d| ensures DataOk(d, blocks, c) { assert DataOk(im.d, im.blocks, c); }
  }

  /** Outside the data blocks. */
  lemma DataStays(lay: Layout, im: Image, b: nat, data: Block)
    requires Rep(lay, im) && b < lay.start && b < |im.d| == |im.blocks|
    ensures var d := im.d[b := data]; forall c :: lay.start <= c < |im.d| ==> DataOk(d, im.blocks, c)
  {
    var d := im.d[b := data];
    forall c | lay.start <= c < |im.d| ensures DataOk(d, im.blocks, c) { assert DataOk(im.d, im.blocks, c); }
  }

  /** A block is written and logged. */
  lemma LogMore(lay: Layout, im: Image, b: nat, data: Block)
    requires Rep(lay, im) && lay.inodes <= b < |im.d|
    ensures Logs(lay, im.base, im.d[b := data], im.logged + {b})
  {
    var d, logged := im.d[b := data], im.logged + {b};
    forall c | 0 <= c < |im.d|
      ensures LogOk(lay, im.base, d, logged, c)
    {
      assert LogOk(lay, im.base, im.d, im.logged, c);
    }
  }

  ghost function WithMark(lay: Layout, im: Image, b: nat, v: bool): Image
    requires b < |im.bits| && BitBlock(lay, b) < |im.d| && |im.d[BitBlock(lay, b)]| == BSIZE
  {
    var bb := BitBlock(lay, b);
    im.(d := im.d[bb := SetBit(im.d[bb], b % BPB, v)], bits := im.bits[b := v], logged := im.logged + {bb})
  }

  lemma MarkRep(lay: Layout, im: Image, b: nat, v: bool)
    requires Rep(lay, im) && b < |im.bits| && BitBlock(lay, b) < |im.d| && |im.d[BitBlock(lay, b)]| == BSIZE
    ensures Rep(lay, WithMark(lay, im, b, v))
  {
    Places(lay, |im.d|, |im.inodes|);
    var bb := BitBlock(lay, b);
    var d, bits := im.d[bb := SetBit(im.d[bb], b % BPB, v)], im.bits[b := v];
    forall c | 0 <= c < |d| ensures BitOk(lay, d, bits, c) {
      assert BitOk(lay, im.d, im.bits, c);
      if BitBlock(lay, c) == bb { SetTest(im.d[bb], b % BPB, v, c % BPB); }
    }
    forall i | 0 <= i < |im.inodes| ensures InodeOk(lay, d, im.inodes, i) { assert InodeOk(lay, im.d, im.inodes, i); }
    DataStays(lay, im, bb, d[bb]);
    LogMore(lay, im, bb, d[bb]);
  }

  ghost function WithInode(lay: Layout, im: Image, i: nat, n: Inode): Image
    requires i < |im.inodes| && InodeBlock(lay, i) < |im.d| && |im.d[InodeBlock(lay, i)]| == BSIZE && Fits(n)
  {
    var ib := InodeBlock(lay, i);
    im.(d := im.d[ib := WriteInode(im.d[ib], i % IPB, n)], inodes := im.inodes[i := n], logged := im.logged + {ib})
  }

  lemma InodeRep(lay: Layout, im: Image, i: nat, n: Inode)
    requires Rep(lay, im) && i < |im.inodes| && InodeBlock(lay, i) < |im.d| && |im.d[InodeBlock(lay, i)]| == BSIZE
    requires Fits(n)
    ensures Rep(lay, WithInode(lay, im, i, n))
  {
    Places(lay, |im.d|, |im.inodes|);
    var ib := InodeBlock(lay, i);
    var d, inodes := im.d[ib := WriteInode(im.d[ib], i % IPB, n)], im.inodes[i := n];
    forall j | 0 <= j < |inodes| ensures InodeOk(lay, d, inodes, j) {
      assert InodeOk(lay, im.d, im.inodes, j);
      if InodeBlock(lay, j) == ib { InodeRoundTrip(im.d[ib], i % IPB, n, j % IPB); }
    }
    forall c | 0 <= c < |d| ensures BitOk(lay, d, im.bits, c) { assert BitOk(lay, im.d, im.bits, c); }
    DataStays(lay, im, ib, d[ib]);
    LogMore(lay, im, ib, d[ib]);
  }

  /** A new operation begins. */
  lemma FreshRep(lay: Layout, im: Image)
    requires Rep(lay, im)
    ensures Rep(lay, im.(base := im.d, logged := {}))
  {
  }

  /** What can be read off the disk. */
  lemma RepRead(lay: Layout, im: Image)
    requires Rep(lay, im)
    ensures |im.bits| == |im.blocks| == |im.d| && Blocks(im.d)
    ensures forall b :: 0 <= b < |im.d| ==> BitOk(lay, im.d, im.bits, b)
    ensures forall b {:trigger im.blocks[b]} {:trigger im.d[b]} :: lay.start <= b < |im.d| ==> im.blocks[b] == im.d[b]
  {
    forall b | lay.start <= b < |im.d| ensures im.blocks[b] == im.d[b] { assert DataOk(im.d, im.blocks, b); }
  }

  // ---------------------------------------------------- every file system has a disk

  lemma InodePlace(lay: Layout, im: Image, i: nat)
    requires Rep(lay, im) && i < |im.inodes|
    ensures InodeBlock(lay, i) < |im.d| && |im.d[InodeBlock(lay, i)]| == BSIZE
  {
    assert InodeOk(lay, im.d, im.inodes, i);
  }

  /** A disk of zeros: no bit is set, and all inodes are blank. */
  lemma BlankRep(lay: Layout, size: nat, ninodes: nat) returns (im: Image)
    requires LayoutOk(lay, size, ninodes)
    ensures Rep(lay, im) && |im.d| == size && |im.inodes| == ninodes && |im.bits| == |im.blocks| == size
  {
    Places(lay, size, ninodes);
    var d := seq(size, _ => Zeros());
    var bits, inodes := seq(size, _ => false), seq(ninodes, i requires 0 <= i < ninodes => ReadInode(Zeros(), i % IPB));
    im := Image(d, bits, d, inodes, d, {});
    forall b | 0 <= b < size ensures BitOk(lay, d, bits, b) {}
    forall i | 0 <= i < ninodes ensures InodeOk(lay, d, inodes, i) {}
  }

  lemma {:induction false} BitsRep(lay: Layout, im: Image, bits: seq<bool>, n: nat) returns (im': Image)
    requires Rep(lay, im) && |im.bits| == |im.d| == |bits| && n <= |bits|
    ensures Rep(lay, im') && |im'.d| == |im.d| && im'.blocks == im.blocks && im'.inodes == im.inodes
    ensures |im'.bits| == |bits| && forall b :: 0 <= b < n ==> im'.bits[b] == bits[b]
  {
    im' := im;
    if n > 0 {
      im' := BitsRep(lay, im, bits, n - 1);
      RepRead(lay, im');
      assert BitOk(lay, im'.d, im'.bits, n - 1);
      MarkRep(lay, im', n - 1, bits[n - 1]);
      im' := WithMark(lay, im', n - 1, bits[n - 1]);
    }
  }

  lemma {:induction false} DataBlocksRep(lay: Layout, im: Image, blocks: seq<Block>, n: nat) returns (im': Image)
    requires Rep(lay, im) && |im.blocks| == |im.d| == |blocks| && lay.start <= n <= |blocks| && Blocks(blocks)
    ensures Rep(lay, im') && |im'.d| == |im.d| && im'.bits == im.bits && im'.inodes == im.inodes
    ensures |im'.blocks| == |blocks| && forall b :: lay.start <= b < n ==> im'.blocks[b] == blocks[b]
  {
    im' := im;
    if n > lay.start {
      im' := DataBlocksRep(lay, im, blocks, n - 1);
      DataRep(lay, im', n - 1, blocks[n - 1]);
      im' := WithData(im', n - 1, blocks[n - 1]);
    }
  }

  lemma {:induction false} InodesRep(lay: Layout, im: Image, inodes: seq<Inode>, n: nat) returns (im': Image)
    requires Rep(lay, im) && |im.inodes| == |inodes| && n <= |inodes|
    requires forall i :: 0 <= i < |inodes| ==> Fits(inodes[i])
    ensures Rep(lay, im') && |im'.d| == |im.d| && im'.bits == im.bits && im'.blocks == im.blocks
    ensures |im'.inodes| == |inodes| && forall i :: 0 <= i < n ==> im'.inodes[i] == inodes[i]
  {
    im' := im;
    if n > 0 {
      im' := InodesRep(lay, im, inodes, n - 1);
      InodePlace(lay, im', n - 1);
      InodeRep(lay, im', n - 1, inodes[n - 1]);
      im' := WithInode(lay, im', n - 1, inodes[n - 1]);
    }
  }

  /** Whatever free map, data and inodes there are: some disk holds them. */
  lemma DiskFor(lay: Layout, bits: seq<bool>, blocks: seq<Block>, inodes: seq<Inode>) returns (d: seq<Block>)
    requires LayoutOk(lay, |bits|, |inodes|) && |blocks| == |bits| && Blocks(blocks)
    requires forall i :: 0 <= i < |inodes| ==> Fits(inodes[i])
    ensures Holds(lay, d, bits, blocks, inodes)
  {
    var im := BlankRep(lay, |bits|, |inodes|);
    im := BitsRep(lay, im, bits, |bits|);
    assert im.bits == bits;
    im := DataBlocksRep(lay, im, blocks, |blocks|);
    im := InodesRep(lay, im, inodes, |inodes|);
    assert im.inodes == inodes;
    d := im.d;
    forall b | lay.start <= b < |d| ensures DataOk(d, blocks, b) { assert DataOk(d, im.blocks, b); }
  }
}
