/** Inodes, their blocks and the free map: which block belongs to whom, and what a file holds. */
module FsSpec {
  import opened Common

  const BSIZE := 512
  const NDIRECT := 12
  const NINDIRECT := 128
  const MAXFILE := 140

  type Block = seq<Byte>

  // ----------------------------------------------------------- words in a block

  function Join(a: int, b: int, c: int, d: int): int {
    a + 0x100 * (b + 0x100 * (c + 0x100 * d))
  }

  function Part(w: nat, k: nat): (x: Byte)
    requires w < WORD && k < 4
  {
    match k
    case 0 => w % 0x100
    case 1 => w / 0x100 % 0x100
    case 2 => w / 0x100 / 0x100 % 0x100
    case 3 => w / 0x100 / 0x100 / 0x100
  }

  lemma JoinParts(w: nat)
    requires w < WORD
    ensures Join(Part(w, 0), Part(w, 1), Part(w, 2), Part(w, 3)) == w
  {
  }

  /** Word `j` of a block, least significant byte first. */
  function GetWord(b: Block, j: nat): (w: nat)
    requires |b| == BSIZE && j < NINDIRECT
    ensures w < WORD
  {
    Join(b[4*j], b[4*j+1], b[4*j+2], b[4*j+3])
  }

  function PutWord(b: Block, j: nat, w: nat): (b': Block)
    requires |b| == BSIZE && j < NINDIRECT && w < WORD
    ensures |b'| == BSIZE
  {
    b[4*j := Part(w, 0)][4*j+1 := Part(w, 1)][4*j+2 := Part(w, 2)][4*j+3 := Part(w, 3)]
  }

  lemma PutGet(b: Block, j: nat, w: nat, k: nat)
    requires |b| == BSIZE && j < NINDIRECT && w < WORD && k < NINDIRECT
    ensures GetWord(PutWord(b, j, w), k) == if k == j then w else GetWord(b, k)
  {
    JoinParts(w);
    assert k != j ==> 4 * k + 3 < 4 * j || 4 * j + 3 < 4 * k;
  }

  ghost predicate IsZero(b: Block) {
    |b| == BSIZE && forall k :: 0 <= k < BSIZE ==> b[k] == 0
  }

  function Zeros(): (b: Block)
    ensures IsZero(b)
  {
    seq(BSIZE, _ => 0)
  }

  /** An indirect block that lists nothing. */
  ghost predicate NoEntries(b: Block) {
    |b| == BSIZE && forall k :: 0 <= k < NINDIRECT ==> GetWord(b, k) == 0
  }

  lemma ZeroWords(b: Block)
    requires IsZero(b)
    ensures NoEntries(b)
  {
  }

  // ------------------------------------------------------------------- ownership

  type Half = x: int | 0 <= x < 0x1_0000

  const T_DEV := 3

  datatype Inode = Inode(kind: Half, major: Half, minor: Half, nlink: Half, size: nat, addrs: seq<nat>) {
    const dev := kind == T_DEV
  }

  /** What a block is: free, in the hands of a running call, block `bn` of inode `i`, its
      indirect block, or something else such as an inode or a bitmap block. */
  datatype Owner = Free | Held | Other | Data(i: nat, bn: nat) | Indirect(i: nat)

  /** `bits` is the free map, `start` the first data block. */
  datatype Fs = Fs(start: nat, bits: seq<bool>, blocks: seq<Block>, inodes: seq<Inode>, owner: seq<Owner>)

  ghost predicate Shape(s: Fs) {
    && 0 < s.start && |s.bits| == |s.blocks| == |s.owner| < WORD
    && (forall b :: 0 <= b < |s.blocks| ==> |s.blocks[b]| == BSIZE)
    && (forall i :: 0 <= i < |s.inodes| ==> |s.inodes[i].addrs| == NDIRECT + 1)
  }

  /** The address of block `bn` of inode `i`; 0 if there is none. */
  ghost function Addr(s: Fs, i: nat, bn: nat): nat
    requires Shape(s) && i < |s.inodes| && bn < MAXFILE
  {
    var a := s.inodes[i].addrs;
    if bn < NDIRECT then a[bn]
    else if 0 < a[NDIRECT] < |s.blocks| then GetWord(s.blocks[a[NDIRECT]], bn - NDIRECT)
    else 0
  }

  ghost predicate BlockOk(s: Fs, b: nat)
    requires Shape(s) && b < |s.blocks|
  {
    match s.owner[b]
    case Free => !s.bits[b] && s.start <= b
    case Held => s.bits[b] && s.start <= b
    case Other => s.bits[b]
    case Data(i, bn) => s.bits[b] && s.start <= b && i < |s.inodes| && bn < MAXFILE && Addr(s, i, bn) == b
    case Indirect(i) => s.bits[b] && s.start <= b && i < |s.inodes| && s.inodes[i].addrs[NDIRECT] == b
  }

  ghost predicate AddrOk(s: Fs, i: nat, bn: nat)
    requires Shape(s) && i < |s.inodes| && bn < MAXFILE
  {
    Addr(s, i, bn) != 0 ==> Addr(s, i, bn) < |s.blocks| && s.owner[Addr(s, i, bn)] == Data(i, bn)
  }

  ghost predicate IndirectOk(s: Fs, i: nat)
    requires Shape(s) && i < |s.inodes|
  {
    var a := s.inodes[i].addrs[NDIRECT];
    a != 0 ==> a < |s.blocks| && s.owner[a] == Indirect(i)
  }

  /** Blocks below the size of a file are allocated. */
  ghost predicate FullAt(s: Fs, i: nat, bn: nat)
    requires Shape(s) && i < |s.inodes| && bn < MAXFILE
  {
    bn * BSIZE < s.inodes[i].size ==> Addr(s, i, bn) != 0
  }

  /** No block is owned twice, and the map has exactly the owned and other used blocks. */
  ghost predicate Owned(s: Fs) {
    && Shape(s)
    && (forall b :: 0 <= b < |s.blocks| ==> BlockOk(s, b))
    && (forall i, bn :: 0 <= i < |s.inodes| && 0 <= bn < MAXFILE ==> AddrOk(s, i, bn))
    && (forall i :: 0 <= i < |s.inodes| ==> IndirectOk(s, i))
  }

  ghost predicate Full(s: Fs) {
    && Shape(s)
    && (forall i :: 0 <= i < |s.inodes| ==> s.inodes[i].size <= MAXFILE * BSIZE)
    && (forall i, bn :: 0 <= i < |s.inodes| && 0 <= bn < MAXFILE ==> FullAt(s, i, bn))
  }

  ghost predicate Inv(s: Fs) { Owned(s) && Full(s) }

  // --------------------------------------------------------- blocks come and go

  /** Block `b` keeps its role and, if it is an indirect block, its contents; or it moves
      between the free map and the hands of a call. */
  ghost predicate Moves(s: Fs, s': Fs, b: nat)
    requires Shape(s) && Shape(s') && b < |s.blocks| == |s'.blocks|
  {
    || (s'.owner[b] == s.owner[b] && s'.bits[b] == s.bits[b] && (s.owner[b].Indirect? ==> s'.blocks[b] == s.blocks[b]))
    || (s.start <= b && (s.owner[b].Free? || s.owner[b].Held?)
        && ((s'.owner[b].Free? && !s'.bits[b]) || (s'.owner[b].Held? && s'.bits[b])))
  }

  ghost predicate OnlyMoves(s: Fs, s': Fs) {
    && Shape(s) && Shape(s') && s'.start == s.start && s'.inodes == s.inodes && |s'.blocks| == |s.blocks|
    && forall b :: 0 <= b < |s.blocks| ==> Moves(s, s', b)
  }

  lemma MovesAddr(s: Fs, s': Fs, i: nat, bn: nat)
    requires Owned(s) && OnlyMoves(s, s') && i < |s.inodes| && bn < MAXFILE
    ensures Addr(s', i, bn) == Addr(s, i, bn)
  {
    assert IndirectOk(s, i);
    var a := s.inodes[i].addrs[NDIRECT];
    if 0 < a < |s.blocks| { assert Moves(s, s', a); }
  }

  lemma MovesOwned(s: Fs, s': Fs)
    requires Owned(s) && OnlyMoves(s, s')
    ensures Owned(s') && (Full(s) ==> Full(s'))
  {
    forall b | 0 <= b < |s'.blocks| ensures BlockOk(s', b) {
      assert BlockOk(s, b) && Moves(s, s', b);
      if s'.owner[b].Data? { MovesAddr(s, s', s.owner[b].i, s.owner[b].bn); }
    }
    forall i, bn | 0 <= i < |s'.inodes| && 0 <= bn < MAXFILE
      ensures AddrOk(s', i, bn) && (Full(s) ==> FullAt(s', i, bn))
    {
      assert AddrOk(s, i, bn) && (Full(s) ==> FullAt(s, i, bn));
      MovesAddr(s, s', i, bn);
      if Addr(s, i, bn) != 0 { assert Moves(s, s', Addr(s, i, bn)); }
    }
    forall i | 0 <= i < |s'.inodes| ensures IndirectOk(s', i) {
      assert IndirectOk(s, i);
      if s.inodes[i].addrs[NDIRECT] != 0 { assert Moves(s, s', s.inodes[i].addrs[NDIRECT]); }
    }
  }

  /** balloc marks a block and clears it. */
  function Took(s: Fs, b: nat): Fs
    requires b < |s.bits| == |s.blocks| == |s.owner|
  {
    s.(bits := s.bits[b := true], blocks := s.blocks[b := Zeros()], owner := s.owner[b := Held])
  }

  lemma TookMoves(s: Fs, b: nat)
    requires Owned(s) && b < |s.blocks| && !s.bits[b]
    ensures OnlyMoves(s, Took(s, b)) && s.owner[b] == Free && s.start <= b
  {
    assert BlockOk(s, b);
  }

  // ------------------------------------------------------- giving blocks to an inode

  function SetAddr(s: Fs, i: nat, k: nat, b: nat, o: Owner): Fs
    requires i < |s.inodes| && k < |s.inodes[i].addrs| && b < |s.owner|
  {
    s.(inodes := s.inodes[i := s.inodes[i].(addrs := s.inodes[i].addrs[k := b])], owner := s.owner[b := o])
  }

  lemma SetDirectAddr(s: Fs, i: nat, k: nat, b: nat, o: Owner, j: nat, bn: nat)
    requires Shape(s) && i < |s.inodes| && k < NDIRECT && b < |s.blocks| && j < |s.inodes| && bn < MAXFILE
    ensures Addr(SetAddr(s, i, k, b, o), j, bn) == if j == i && bn == k then b else Addr(s, j, bn)
  {
  }

  /** A held block becomes a direct block. */
  lemma DirectOwned(s: Fs, i: nat, k: nat, b: nat)
    requires Owned(s) && i < |s.inodes| && k < NDIRECT && b < |s.blocks| && s.owner[b] == Held
    requires s.inodes[i].addrs[k] == 0
    ensures Owned(SetAddr(s, i, k, b, Data(i, k)))
  {
    var s' := SetAddr(s, i, k, b, Data(i, k));
    assert BlockOk(s, b);
    forall c | 0 <= c < |s'.blocks| ensures BlockOk(s', c) {
      assert BlockOk(s, c);
      if s'.owner[c].Data? { SetDirectAddr(s, i, k, b, Data(i, k), s'.owner[c].i, s'.owner[c].bn); }
    }
    forall j, bn | 0 <= j < |s'.inodes| && 0 <= bn < MAXFILE ensures AddrOk(s', j, bn) {
      assert AddrOk(s, j, bn);
      SetDirectAddr(s, i, k, b, Data(i, k), j, bn);
    }
    forall j | 0 <= j < |s'.inodes| ensures IndirectOk(s', j) { assert IndirectOk(s, j); }
  }

  /** A held block of zeros becomes an indirect block; the inode has no more blocks than before. */
  lemma NewIndirectAddr(s: Fs, i: nat, b: nat, j: nat, bn: nat)
    requires Shape(s) && i < |s.inodes| && 0 < b < |s.blocks| && s.inodes[i].addrs[NDIRECT] == 0
    requires NoEntries(s.blocks[b])
    requires j < |s.inodes| && bn < MAXFILE
    ensures Addr(SetAddr(s, i, NDIRECT, b, Indirect(i)), j, bn) == Addr(s, j, bn)
  {
  }

  lemma NewIndirectOwned(s: Fs, i: nat, b: nat)
    requires Owned(s) && i < |s.inodes| && b < |s.blocks| && s.owner[b] == Held
    requires s.inodes[i].addrs[NDIRECT] == 0 && NoEntries(s.blocks[b])
    ensures Owned(SetAddr(s, i, NDIRECT, b, Indirect(i))) && b > 0
  {
    var s' := SetAddr(s, i, NDIRECT, b, Indirect(i));
    assert BlockOk(s, b);
    forall c | 0 <= c < |s'.blocks| ensures BlockOk(s', c) {
      assert BlockOk(s, c);
      if s'.owner[c].Data? { NewIndirectAddr(s, i, b, s'.owner[c].i, s'.owner[c].bn); }
    }
    forall j, bn | 0 <= j < |s'.inodes| && 0 <= bn < MAXFILE ensures AddrOk(s', j, bn) {
      assert AddrOk(s, j, bn);
      NewIndirectAddr(s, i, b, j, bn);
    }
    forall j | 0 <= j < |s'.inodes| ensures IndirectOk(s', j) { assert IndirectOk(s, j); }
  }

  /** Entry `k` of the indirect block of inode `i`. */
  function SetEntry(s: Fs, i: nat, k: nat, b: nat, o: Owner): Fs
    requires Shape(s) && i < |s.inodes| && k < NINDIRECT && b < |s.blocks| && s.inodes[i].addrs[NDIRECT] < |s.blocks|
  {
    var a := s.inodes[i].addrs[NDIRECT];
    s.(blocks := s.blocks[a := PutWord(s.blocks[a], k, b)], owner := s.owner[b := o])
  }

  lemma SetEntryAddr(s: Fs, i: nat, k: nat, b: nat, o: Owner, j: nat, bn: nat)
    requires Owned(s) && i < |s.inodes| && k < NINDIRECT && b < |s.blocks|
    requires 0 < s.inodes[i].addrs[NDIRECT] < |s.blocks|
    requires j < |s.inodes| && bn < MAXFILE
    ensures Addr(SetEntry(s, i, k, b, o), j, bn) == if j == i && bn == NDIRECT + k then b else Addr(s, j, bn)
  {
    assert IndirectOk(s, i) && IndirectOk(s, j);
    if bn >= NDIRECT { PutGet(s.blocks[s.inodes[i].addrs[NDIRECT]], k, b, bn - NDIRECT); }
  }

  /** A held block becomes a block listed in the indirect block. */
  lemma EntryOwned(s: Fs, i: nat, k: nat, b: nat)
    requires Owned(s) && i < |s.inodes| && k < NINDIRECT && b < |s.blocks| && s.owner[b] == Held
    requires 0 < s.inodes[i].addrs[NDIRECT] < |s.blocks| && Addr(s, i, NDIRECT + k) == 0
    ensures Owned(SetEntry(s, i, k, b, Data(i, NDIRECT + k)))
  {
    var s', o := SetEntry(s, i, k, b, Data(i, NDIRECT + k)), Data(i, NDIRECT + k);
    assert BlockOk(s, b) && IndirectOk(s, i);
    forall c | 0 <= c < |s'.blocks| ensures BlockOk(s', c) {
      assert BlockOk(s, c);
      if s'.owner[c].Data? { SetEntryAddr(s, i, k, b, o, s'.owner[c].i, s'.owner[c].bn); }
    }
    forall j, bn | 0 <= j < |s'.inodes| && 0 <= bn < MAXFILE ensures AddrOk(s', j, bn) {
      assert AddrOk(s, j, bn);
      SetEntryAddr(s, i, k, b, o, j, bn);
    }
    forall j | 0 <= j < |s'.inodes| ensures IndirectOk(s', j) { assert IndirectOk(s, j); }
  }

  // --------------------------------------------------------------------- contents

  /** Byte `k` of a file. */
  ghost function ByteAt(s: Fs, i: nat, k: nat): Byte
    requires Owned(s) && i < |s.inodes| && k < MAXFILE * BSIZE && Addr(s, i, k / BSIZE) != 0
  {
    assert AddrOk(s, i, k / BSIZE);
    s.blocks[Addr(s, i, k / BSIZE)][k % BSIZE]
  }

  /** The first `n` bytes of a file. */
  ghost function ContentsTo(s: Fs, i: nat, n: nat): (c: seq<Byte>)
    requires Inv(s) && i < |s.inodes| && n <= s.inodes[i].size
    ensures |c| == n
  {
    if n == 0 then []
    else
      assert FullAt(s, i, (n - 1) / BSIZE);
      ContentsTo(s, i, n - 1) + [ByteAt(s, i, n - 1)]
  }

  /** The contents of a file. */
  ghost function Contents(s: Fs, i: nat): (c: seq<Byte>)
    requires Inv(s) && i < |s.inodes|
    ensures |c| == s.inodes[i].size
  {
    ContentsTo(s, i, s.inodes[i].size)
  }

  lemma {:induction false} ContentsToAt(s: Fs, i: nat, n: nat, k: nat)
    requires Inv(s) && i < |s.inodes| && k < n <= s.inodes[i].size
    ensures Addr(s, i, k / BSIZE) != 0 && ContentsTo(s, i, n)[k] == ByteAt(s, i, k)
  {
    assert FullAt(s, i, k / BSIZE);
    if k < n - 1 { ContentsToAt(s, i, n - 1, k); }
  }

  lemma ContentsAt(s: Fs, i: nat, k: nat)
    requires Inv(s) && i < |s.inodes| && k < s.inodes[i].size
    ensures Addr(s, i, k / BSIZE) != 0 && Contents(s, i)[k] == ByteAt(s, i, k)
  {
    ContentsToAt(s, i, s.inodes[i].size, k);
  }
}
