/** A file that cannot be given up within one operation's budget: ten blocks, each under a bitmap
    block of its own. */
module WideInode {
  import opened Common
  import opened FsSpec
  import opened FsDisk
  import opened FileSystem

  /** Ten bitmap blocks, behind a log of 30 blocks and one inode block. */
  const SIZE := 40960
  const LAY := Layout(2, 30, 32, 33, 43)

  function OwnerOf(b: nat): Owner {
    if b < 43 then Other else if b % 4096 == 100 && b < SIZE then Data(0, b / 4096) else Free
  }

  function AddrOf(k: nat): nat { if k < 10 then 4096 * k + 100 else 0 }

  function File(): Inode {
    Inode(2, 0, 0, 0, 10 * BSIZE, seq(NDIRECT + 1, k requires 0 <= k <= NDIRECT => AddrOf(k)))
  }

  /** Block `k` of inode 0 is block 100 among those of bitmap block `k`. */
  ghost function Wide(): Fs {
    Fs(43, seq(SIZE, b requires 0 <= b < SIZE => !OwnerOf(b).Free?), seq(SIZE, _ => Zeros()), [File()],
       seq(SIZE, b requires 0 <= b < SIZE => OwnerOf(b)))
  }

  lemma WideAddr(bn: nat)
    requires bn < MAXFILE
    ensures Shape(Wide()) && Addr(Wide(), 0, bn) == AddrOf(bn)
  {
  }

  lemma WideInv()
    ensures Inv(Wide())
  {
    var s := Wide();
    forall b | 0 <= b < SIZE ensures BlockOk(s, b) {
      if s.owner[b].Data? { WideAddr(b / 4096); }
    }
    forall i, bn | 0 <= i < |s.inodes| && 0 <= bn < MAXFILE
      ensures AddrOk(s, i, bn) && FullAt(s, i, bn)
    {
      WideAddr(bn);
    }
    forall i | 0 <= i < |s.inodes| ensures IndirectOk(s, i) {}
  }

  lemma {:induction false} WideMarks(k: nat)
    requires k <= MAXFILE
    ensures Shape(Wide()) && Marks(LAY, Wide(), 0, k) == Range(33, 33 + if k < 10 then k else 10)
  {
    WideAddr(0);
    if k > 0 {
      WideMarks(k - 1);
      WideAddr(k - 1);
      if k <= 10 { assert BitBlock(LAY, AddrOf(k - 1)) == 32 + k; }
    }
  }

  /** A disk on which iput of an inode without links logs a block more than begin_op reserves. */
  lemma DropOverruns() returns (s: State)
    ensures Stored(LAY, s.d, s.f) && |s.d| == MAXOPBLOCKS * BPB && |s.f.inodes| == 1 && s.f.inodes[0].nlink == 0
    ensures |BitmapBlocks(LAY, s.f, 0)| == MAXOPBLOCKS
    ensures |BitmapBlocks(LAY, s.f, 0) + {InodeBlock(LAY, 0)}| == MAXOPBLOCKS + 1
  {
    WideInv();
    var f := Wide();
    var d := DiskFor(LAY, f.bits, f.blocks, f.inodes);
    s := State(d, f);
    WideMarks(MAXFILE);
    RangeSize(33, 43);
    BitmapBlocksIn(LAY, s, 0);
  }
}
