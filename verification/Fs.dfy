/** balloc, bfree, bmap, itrunc, readi, writei and iupdate on blocks as the buffer cache shows
    them. A call that panics reports it and leaves the state unspecified. */
module FileSystem {
  import opened Common
  import opened FsSpec
  import opened FsDisk

  class FileSys {
    const lay: Layout
    /** The disk as the buffer cache shows it, and the inodes in memory. */
    var disk: seq<Block>
    var inodes: seq<Inode>
    /** What the disk says: the free map, the data blocks and the inodes. */
    ghost var bits: seq<bool>
    ghost var blocks: seq<Block>
    ghost var dinodes: seq<Inode>
    ghost var owner: seq<Owner>
    /** The disk at the start of the open operation, and the blocks passed to log_write since. */
    ghost var base: seq<Block>
    ghost var logged: set<nat>

    ghost function View(): Fs
      reads this
    {
      Fs(lay.start, bits, blocks, inodes, owner)
    }

    ghost function All(): Image
      reads `disk, `bits, `blocks, `dinodes, `base, `logged
    {
      Image(disk, bits, blocks, dinodes, base, logged)
    }

    /** The disk says what the free map, the data and the inodes are, and has changed only where
        the log knows. */
    ghost predicate OnDisk()
      reads `disk, `bits, `blocks, `dinodes, `base, `logged
    {
      Rep(lay, All())
    }

    /** Between calls: everything is in order, and inodes in memory are written through. */
    ghost predicate Valid()
      reads this
    {
      OnDisk() && Inv(View()) && dinodes == inodes
    }

    /** From any disk that holds a file system; the inodes are read off it. */
    constructor (lay: Layout, disk: seq<Block>, ninodes: nat, ghost fs: Fs)
      requires Stored(lay, disk, fs) && ninodes == |fs.inodes|
      ensures Valid() && View() == fs && this.lay == lay && this.disk == disk && logged == {}
    {
      this.lay, this.disk := lay, disk;
      assert fs.inodes[..ninodes] == fs.inodes;
      inodes := ReadInodes(lay, disk, ninodes, fs.inodes);
      bits, blocks, dinodes, owner, base, logged := fs.bits, fs.blocks, fs.inodes, fs.owner, disk, {};
    }

    // ------------------------------------------------------------- blocks written

    /** Data for a data block, and log_write. */
    method PutData(b: nat, data: Block)
      requires OnDisk() && lay.start <= b < |blocks| && |data| == BSIZE
      modifies `disk, `blocks, `logged
      ensures OnDisk() && blocks == old(blocks)[b := data] && logged == old(logged) + {b}
    {
      RepRead(lay, All());
      DataRep(lay, All(), b, data);
      disk := disk[b := data];
      blocks := blocks[b := data];
      logged := logged + {b};
    }

    /** Set or clear the bit of block `b`, and log_write. */
    method PutBit(b: nat, v: bool)
      requires OnDisk() && b < |bits|
      modifies `disk, `bits, `logged
      ensures OnDisk() && bits == old(bits)[b := v] && logged == old(logged) + {BitBlock(lay, b)}
    {
      RepRead(lay, All());
      var bb := BitBlock(lay, b);
      assert BitOk(lay, disk, bits, b);
      MarkRep(lay, All(), b, v);
      disk := disk[bb := SetBit(disk[bb], b % BPB, v)];
      bits := bits[b := v];
      logged := logged + {bb};
    }

    /** balloc: the first free block, marked and cleared; 0 if there is none and it panics. */
    method Balloc() returns (a: nat)
      requires OnDisk() && Owned(View())
      modifies `disk, `bits, `blocks, `owner, `logged
      ensures OnDisk()
      ensures a == 0 ==> View() == old(View()) && logged == old(logged)
      ensures if a == 0 then FreeBlocks(old(View())) == 0 else Uses(old(View()), 1, View())
      ensures a != 0 ==> a < |old(bits)| && !old(bits)[a] && forall c :: 0 <= c < a ==> old(bits)[c]
      ensures a != 0 ==>
        View() == Took(old(View()), a) && Owned(View()) && logged == old(logged) + {BitBlock(lay, a), a}
    {
      RepRead(lay, All());
      var b := 0;
      while b < |disk|
        invariant 0 <= b && b % BPB == 0 && OnDisk() && View() == old(View()) && logged == old(logged)
        invariant forall c :: 0 <= c < b && c < |bits| ==> bits[c]
      {
        var bi := FirstClear(b);
        if bi < BPB && b + bi < |disk| {
          a := b + bi;
          Mark(a);
          return;
        }
        b := b + BPB;
      }
      AllUsed(bits, |bits|);
      a := 0;
    }

    /** The inner loop of balloc: the first clear bit among those of block `b` and on. */
    method FirstClear(b: nat) returns (bi: nat)
      requires OnDisk() && b < |disk| && b % BPB == 0
      ensures |bits| == |disk| && forall c :: b <= c < b + bi && c < |bits| ==> bits[c]
      ensures if bi < BPB && b + bi < |disk| then !bits[b + bi] else b + bi >= |disk| || bi == BPB
    {
      RepRead(lay, All());
      assert BitOk(lay, disk, bits, b);
      var bp := disk[BitBlock(lay, b)];
      bi := 0;
      while bi < BPB && b + bi < |disk|
        invariant bi <= BPB && forall c :: b <= c < b + bi && c < |bits| ==> bits[c]
      {
        assert (b + bi) / BPB == b / BPB && (b + bi) % BPB == bi;
        assert BitOk(lay, disk, bits, b + bi);
        if !TestBit(bp, bi) { return; }
        bi := bi + 1;
      }
    }

    /** Mark a free block and clear it. */
    method Mark(a: nat)
      requires OnDisk() && Owned(View()) && a < |bits| && !bits[a]
      modifies `disk, `bits, `blocks, `owner, `logged
      ensures OnDisk() && View() == Took(old(View()), a) && Owned(View())
      ensures logged == old(logged) + {BitBlock(lay, a), a}
      ensures 0 < a && Uses(old(View()), 1, View())
    {
      FreeMark(bits, a, |bits|);
      TookMoves(View(), a);
      MovesOwned(View(), Took(View(), a));
      PutBit(a, true);
      owner := owner[a := Held];
      Bzero(a);
    }

    /** bzero. */
    method Bzero(b: nat)
      requires OnDisk() && lay.start <= b < |blocks|
      modifies `disk, `blocks, `logged
      ensures OnDisk() && blocks == old(blocks)[b := Zeros()] && logged == old(logged) + {b}
    {
      PutData(b, Zeros());
    }

    /** bfree. Freeing a free block would panic; no caller here ever does. */
    method Bfree(b: nat)
      requires OnDisk() && b < |bits| && bits[b] && |owner| == |bits|
      modifies `disk, `bits, `owner, `logged
      ensures OnDisk() && bits == old(bits)[b := false] && owner == old(owner)[b := Free]
      ensures logged == old(logged) + {BitBlock(lay, b)}
    {
      PutBit(b, false);
      owner := owner[b := Free];
    }

    /** bmap: the address of block `bn`, allocated if need be; 0 if balloc panics. `al` are the
        bitmap blocks that allocation logs. */
    method Bmap(i: nat, bn: nat) returns (a: nat, ghost al: seq<nat>)
      requires OnDisk() && Owned(View()) && i < |inodes| && bn < MAXFILE
      modifies `disk, `bits, `blocks, `inodes, `owner, `logged
      ensures OnDisk()
      ensures if a == 0 then FreeBlocks(old(View())) < Needs(old(View()), i, bn)
              else Uses(old(View()), Needs(old(View()), i, bn), View())
      ensures a != 0 ==> Mapped(old(View()), i, bn, a, View())
      ensures a != 0 ==> Adds(old(logged), logged, [a] + Ind(View(), i, bn) + al) && |al| <= Needs(old(View()), i, bn)
      ensures Needs(old(View()), i, bn) == 0 ==> logged == old(logged) && disk == old(disk)
    {
      if bn < NDIRECT {
        a, al := DirectBlock(i, bn);
      } else {
        var ok;
        ghost var s, log := View(), logged;
        ok, al := LoadIndirect(i, bn);
        if !ok { return 0, al; }
        ghost var al1;
        a, al1 := ListedBlock(i, bn, s);
        al := al + al1;
      }
    }

    method DirectBlock(i: nat, bn: nat) returns (a: nat, ghost al: seq<nat>)
      requires OnDisk() && Owned(View()) && i < |inodes| && bn < NDIRECT
      modifies `disk, `bits, `blocks, `inodes, `owner, `logged
      ensures OnDisk()
      ensures if a == 0 then FreeBlocks(old(View())) < Needs(old(View()), i, bn)
              else Uses(old(View()), Needs(old(View()), i, bn), View())
      ensures a != 0 ==> Mapped(old(View()), i, bn, a, View())
      ensures a != 0 ==> Adds(old(logged), logged, [a] + Ind(View(), i, bn) + al) && |al| <= Needs(old(View()), i, bn)
      ensures Needs(old(View()), i, bn) == 0 ==> logged == old(logged) && disk == old(disk)
    {
      ghost var s := View();
      al := [];
      a := inodes[i].addrs[bn];
      if a == 0 {
        a := Balloc();
        if a != 0 {
          al := [BitBlock(lay, a)];
          DirectOwned(View(), i, bn, a);
          inodes := inodes[i := inodes[i].(addrs := inodes[i].addrs[bn := a])];
          owner := owner[a := Data(i, bn)];
          DirectMapped(s, i, bn, a);
        }
      } else {
        AlreadyMapped(s, i, bn);
      }
    }

    /** The second half of bmap's indirect branch: the block that the indirect block lists. */
    method ListedBlock(i: nat, bn: nat, ghost s: Fs) returns (a: nat, ghost al: seq<nat>)
      requires OnDisk() && NDIRECT <= bn < MAXFILE && HasIndirect(s, i, View())
      requires s.inodes[i].addrs[NDIRECT] != 0 ==> View() == s
      modifies `disk, `bits, `blocks, `owner, `logged
      ensures OnDisk()
      ensures if a == 0 then Addr(s, i, bn) == 0 && FreeBlocks(old(View())) == 0
              else Uses(old(View()), if Addr(s, i, bn) == 0 then 1 else 0, View())
      ensures a != 0 ==> Mapped(s, i, bn, a, View())
      ensures a != 0 ==> Adds(old(logged), logged, [a] + Ind(View(), i, bn) + al)
      ensures |al| <= if Addr(s, i, bn) == 0 then 1 else 0
      ensures Addr(s, i, bn) != 0 ==> logged == old(logged) && disk == old(disk)
    {
      ghost var s1 := View();
      var ind, k := inodes[i].addrs[NDIRECT], bn - NDIRECT;
      al := [];
      assert IndirectOk(s1, i) && Addr(s1, i, bn) == Addr(s, i, bn);
      IndirectData(s1, i);
      RepRead(lay, All());
      a := GetWord(disk[ind], k);
      if a == 0 {
        a, al := NewEntry(i, bn, s);
      } else {
        KeptMapped(s, s1, i, bn);
      }
    }

    /** A block for an empty entry of the indirect block. */
    method NewEntry(i: nat, bn: nat, ghost s: Fs) returns (a: nat, ghost al: seq<nat>)
      requires OnDisk() && NDIRECT <= bn < MAXFILE && HasIndirect(s, i, View()) && Addr(View(), i, bn) == 0
      modifies `disk, `bits, `blocks, `owner, `logged
      ensures OnDisk() && |al| <= 1
      ensures if a == 0 then FreeBlocks(old(View())) == 0 else Uses(old(View()), 1, View())
      ensures a != 0 ==> Mapped(s, i, bn, a, View()) && Adds(old(logged), logged, [a] + Ind(View(), i, bn) + al)
    {
      ghost var s1 := View();
      var ind, k := inodes[i].addrs[NDIRECT], bn - NDIRECT;
      al := [];
      IndirectData(s1, i);
      a := Balloc();
      if a != 0 {
        al := [BitBlock(lay, a)];
        RepRead(lay, All());
        PutData(ind, PutWord(disk[ind], k, a));
        owner := owner[a := Data(i, bn)];
        EntryTaken(s, s1, i, bn, a);
      }
    }

    /** The first half of bmap's indirect branch: make sure that there is an indirect block. */
    method LoadIndirect(i: nat, ghost bn: nat) returns (ok: bool, ghost al: seq<nat>)
      requires OnDisk() && Owned(View()) && i < |inodes| && NDIRECT <= bn < MAXFILE
      modifies `disk, `bits, `blocks, `inodes, `owner, `logged
      ensures OnDisk()
      ensures if !ok then Addr(old(View()), i, bn) == 0 && FreeBlocks(old(View())) == 0
              else Uses(old(View()), if old(inodes)[i].addrs[NDIRECT] == 0 then 1 else 0, View())
      ensures ok ==> HasIndirect(old(View()), i, View())
      ensures ok ==> Adds(old(logged), logged, [inodes[i].addrs[NDIRECT]] + al)
      ensures ok ==> |al| <= if old(inodes)[i].addrs[NDIRECT] == 0 then 1 else 0
      ensures old(inodes)[i].addrs[NDIRECT] != 0 ==>
        ok && View() == old(View()) && logged == old(logged) && disk == old(disk)
    {
      ghost var s := View();
      al := [];
      ok := true;
      assert IndirectOk(s, i);
      if inodes[i].addrs[NDIRECT] == 0 {
        var a := Balloc();
        if a == 0 { return false, al; }
        al := [BitBlock(lay, a)];
        ghost var s1 := View();
        ZeroWords(blocks[a]);
        NewIndirectOwned(s1, i, a);
        inodes := inodes[i := inodes[i].(addrs := inodes[i].addrs[NDIRECT := a])];
        owner := owner[a := Indirect(i)];
        NewHasIndirect(s, i, a);
      }
    }

    /** readi: a slice of the file. Nothing is allocated, for all blocks below the size are there. */
    method Readi(i: nat, off: nat, n: nat) returns (r: Ret, dst: seq<Byte>)
      requires Valid() && i < |inodes| && off < WORD && n < WORD
      modifies `disk, `bits, `blocks, `inodes, `owner, `logged
      ensures Valid() && View() == old(View()) && logged == old(logged) && disk == old(disk)
      ensures r == if inodes[i].dev then Device
                   else if off > inodes[i].size || off + n >= WORD then Failed
                   else Count(|dst|)
      ensures r.Count? ==> |dst| == if n <= inodes[i].size - off then n else inodes[i].size - off
      ensures if r.Count? then dst == Contents(View(), i)[off..off + |dst|] else dst == []
    {
      dst := [];
      if inodes[i].dev { return Device, dst; }
      if off > inodes[i].size || (off + n) % WORD < off { return Failed, dst; }
      var want := if off + n > inodes[i].size then inodes[i].size - off else n;
      dst := ReadLoop(i, off, want, Contents(View(), i));
      r := Count(want);
    }

    /** fileread of an inode: what was read moves f->off, which is `off` before and `off'` after. */
    method Fileread(i: nat, off: nat, n: nat) returns (r: Ret, dst: seq<Byte>, off': nat)
      requires Valid() && i < |inodes| && off < WORD && n < WORD
      modifies `disk, `bits, `blocks, `inodes, `owner, `logged
      ensures Valid() && View() == old(View()) && logged == old(logged) && disk == old(disk) && off' == off + |dst|
      ensures r == if inodes[i].dev then Device
                   else if off > inodes[i].size || off + n >= WORD then Failed
                   else Count(|dst|)
      ensures r.Count? ==> |dst| == if n <= inodes[i].size - off then n else inodes[i].size - off
      ensures if r.Count? then dst == Contents(View(), i)[off..off'] else dst == []
    {
      r, dst := Readi(i, off, n);
      off' := off;
      if r.Count? && r.n > 0 { off' := off + r.n; }
    }

    /** cat: reading from the start in pieces of any size, until a read gives nothing, gives
        exactly the contents of the file. */
    method Cat(i: nat, k: nat) returns (r: Ret, out: seq<Byte>)
      requires Valid() && i < |inodes| && 1 <= k < WORD / 2
      modifies `disk, `bits, `blocks, `inodes, `owner, `logged
      ensures Valid() && View() == old(View()) && logged == old(logged) && disk == old(disk)
      ensures if inodes[i].dev then r == Device && out == [] else r == Count(0) && out == Contents(View(), i)
    {
      ghost var c := Contents(View(), i);
      SizeBound(View(), i);
      var off, buf;
      out := [];
      r, buf, off := Fileread(i, 0, k);
      while r.Count? && r.n > 0
        invariant Valid() && View() == old(View()) && logged == old(logged) && disk == old(disk)
        invariant CatSoFar(c, inodes[i].dev, r, out, buf, off)
        decreases |c| - |out|
      {
        out := out + buf;
        ghost var had := off;
        r, buf, off := Fileread(i, off, k);
        CatMore(c, had, out, buf, off);
      }
    }

    /** The loop of readi. */
    method ReadLoop(i: nat, off: nat, want: nat, ghost c: seq<Byte>) returns (dst: seq<Byte>)
      requires OnDisk() && Inv(View()) && i < |inodes| && off + want <= inodes[i].size && c == Contents(View(), i)
      modifies `disk, `bits, `blocks, `inodes, `owner, `logged
      ensures OnDisk() && View() == old(View()) && logged == old(logged) && disk == old(disk) && dst == c[off..off+want]
    {
      dst := [];
      var tot := 0;
      while tot < want
        invariant 0 <= tot <= want && OnDisk() && View() == old(View()) && logged == old(logged) && disk == old(disk)
        invariant dst == c[off..off+tot]
      {
        var o := off + tot;
        var m := PieceLength(o, want - tot);
        var piece := ReadBlock(i, o, m, c);
        JoinSlices(c, off, o, o + m);
        dst := dst + piece;
        tot := tot + m;
      }
    }

    /** One round of readi. */
    method ReadBlock(i: nat, o: nat, m: nat, ghost c: seq<Byte>) returns (piece: seq<Byte>)
      requires OnDisk() && Inv(View()) && i < |inodes| && o + m <= inodes[i].size && 1 <= m <= BSIZE - o % BSIZE
      requires c == Contents(View(), i)
      modifies `disk, `bits, `blocks, `inodes, `owner, `logged
      ensures OnDisk() && View() == old(View()) && logged == old(logged) && disk == old(disk) && piece == c[o..o+m]
    {
      assert FullAt(View(), i, o / BSIZE);
      var a;
      ghost var al;
      a, al := Bmap(i, o / BSIZE);
      SliceOfBlock(View(), i, o, m);
      BlockData(View(), i, o / BSIZE);
      RepRead(lay, All());
      piece := disk[a][o % BSIZE..o % BSIZE + m];
    }

    /** One round of writei: bmap, copy into the block, log_write. */
    method WriteBlock(i: nat, off: nat, data: seq<Byte>) returns (ok: bool, ghost a: nat, ghost al: seq<nat>)
      requires OnDisk() && Owned(View()) && i < |inodes|
      requires off + |data| <= MAXFILE * BSIZE && 1 <= |data| <= BSIZE - off % BSIZE
      modifies `disk, `bits, `blocks, `inodes, `owner, `logged
      ensures OnDisk()
      ensures if ok then PieceDone(old(View()), i, off, data, a, al, old(logged), View(), logged)
              else Short(old(View()), i, off)
    {
      ghost var s := View();
      var b;
      b, al := Bmap(i, off / BSIZE);
      a := b;
      ok := b != 0;
      if ok {
        ghost var s1 := View();
        BlockData(s1, i, off / BSIZE);
        RepRead(lay, All());
        PutData(b, Patch(disk[b], off % BSIZE, data));
        PatchDone(s, s1, i, off, data, b, al, old(logged), logged);
      }
    }

    /** The loop of writei. */
    method WriteLoop(i: nat, off: nat, src: seq<Byte>) returns (ok: bool)
      requires OnDisk() && Inv(View()) && i < |inodes| && off + |src| <= MAXFILE * BSIZE && off <= inodes[i].size
      modifies `disk, `bits, `blocks, `inodes, `owner, `logged
      ensures OnDisk()
      ensures ok <==> !NoRoom(old(View()), i, off, |src|)
      ensures ok ==> Wrote(old(View()), i, off, src, View())
      ensures ok && off + |src| <= old(inodes)[i].size ==> inodes == old(inodes)
      ensures ok && old(logged) == {} && |src| <= CHUNK ==> |logged| <= MAXOPBLOCKS - 1
    {
      ghost var s, log, t := View(), logged, Tally([], [], 0);
      var tot := 0;
      LoopStart(s, i, off, src, log, t);
      while tot < |src|
        invariant 0 <= tot <= |src| && OnDisk() && SoFar(s, i, off, src, tot, log, t, View(), logged)
      {
        ghost var tot1, t1, s1, log1 := tot, t, View(), logged;
        ok, tot, t := WritePiece(i, off, src, tot, s, log, t);
        if !ok {
          RoundShort(s, i, off, src, tot1, log, t1, s1, log1);
          return;
        }
      }
      ok := true;
      LoopEnd(s, i, off, src, log, t, View(), logged);
    }

    /** A round of the loop: the rest of a block, or the rest of the data. */
    method WritePiece(i: nat, off: nat, src: seq<Byte>, tot: nat, ghost s: Fs, ghost log: set<nat>, ghost t: Tally)
      returns (ok: bool, tot': nat, ghost t': Tally)
      requires OnDisk() && tot < |src| && SoFar(s, i, off, src, tot, log, t, View(), logged)
      modifies `disk, `bits, `blocks, `inodes, `owner, `logged
      ensures OnDisk()
      ensures tot < tot' <= |src|
      ensures if ok then SoFar(s, i, off, src, tot', log, t', View(), logged) else Short(old(View()), i, off + tot)
    {
      var m := PieceLength(off + tot, |src| - tot);
      ghost var a, al;
      RoundStart(s, i, off, src, tot, View());
      ok, a, al := WriteBlock(i, off + tot, src[tot..tot+m]);
      tot', t' := tot + m, NextTally(t, a, al);
      if ok { RoundDone(s, i, off, src, tot, log, t, old(View()), old(logged), m, a, al, View(), logged); }
    }

    /** iupdate: write the inode in memory to disk. */
    method Iupdate(i: nat)
      requires OnDisk() && i < |inodes| == |dinodes| && Fits(inodes[i])
      modifies `disk, `dinodes, `logged
      ensures OnDisk() && dinodes == old(dinodes)[i := inodes[i]] && logged == old(logged) + {InodeBlock(lay, i)}
    {
      RepRead(lay, All());
      assert InodeOk(lay, disk, dinodes, i);
      InodeRep(lay, All(), i, inodes[i]);
      var ib := InodeBlock(lay, i);
      disk := disk[ib := WriteInode(disk[ib], i % IPB, inodes[i])];
      dinodes := dinodes[i := inodes[i]];
      logged := logged + {ib};
    }

    /** writei: overwrite and extend. One call of at most CHUNK bytes logs at most MAXOPBLOCKS
        distinct blocks, wherever the file ends and however large the disk is. */
    method Writei(i: nat, off: nat, src: seq<Byte>) returns (r: Ret)
      requires Valid() && i < |inodes| && off < WORD && |src| < WORD
      modifies `disk, `bits, `blocks, `inodes, `dinodes, `owner, `logged
      ensures r.Device? <==> old(inodes)[i].dev
      ensures r.Failed? <==> !old(inodes)[i].dev && (off > old(inodes)[i].size || off + |src| > MAXFILE * BSIZE)
      ensures r.Device? || r.Failed? ==> Valid() && View() == old(View()) && logged == old(logged) && disk == old(disk)
      ensures r.Panicked? <==>
        !old(inodes)[i].dev && !Refused(old(View()), i, off, |src|) && NoRoom(old(View()), i, off, |src|)
      ensures r.Count? ==> r.n == |src| && Valid() && Written(old(View()), i, off, src, View())
      ensures r.Count? && old(logged) == {} && |src| <= CHUNK ==> |logged| <= MAXOPBLOCKS
    {
      if inodes[i].dev { return Device; }
      if off > inodes[i].size || (off + |src|) % WORD < off { return Failed; }
      if (off + |src|) % WORD > MAXFILE * BSIZE { return Failed; }
      ghost var s := View();
      var ok := WriteLoop(i, off, src);
      if !ok { return Panicked; }
      Extend(i, off, src, s);
      r := Count(|src|);
    }

    /** The end of writei: a file that has grown gets its new size, in memory and on disk. */
    method Extend(i: nat, off: nat, src: seq<Byte>, ghost s: Fs)
      requires OnDisk() && Inv(s) && dinodes == s.inodes && i < |s.inodes| && off <= s.inodes[i].size
      requires Wrote(s, i, off, src, View()) && (off + |src| <= s.inodes[i].size ==> inodes == s.inodes)
      modifies `disk, `inodes, `dinodes, `logged
      ensures Valid() && Written(s, i, off, src, View()) && |logged| <= |old(logged)| + 1
    {
      ghost var s1 := View();
      WroteFull(s, i, off, src, s1);
      if |src| > 0 && off + |src| > inodes[i].size {
        OwnedFits(s1, i);
        inodes := inodes[i := inodes[i].(size := off + |src|)];
        Iupdate(i);
        UnionSize(old(logged), {InodeBlock(lay, i)});
      }
      WroteContents(s, i, off, src, s1, View());
    }

    /** itrunc: the blocks of the inode, and no others, become free; none is freed twice. It logs
        their bitmap blocks and the inode's block. */
    method Itrunc(i: nat)
      requires Valid() && i < |inodes|
      modifies `disk, `bits, `inodes, `dinodes, `owner, `logged
      ensures Valid() && Truncated(old(View()), i, View())
      ensures inodes == old(inodes)[i := old(inodes)[i].(size := 0, addrs := ZeroTo(old(inodes)[i].addrs, NDIRECT + 1))]
      ensures logged == old(logged) + BitmapBlocks(lay, old(View()), i) + {InodeBlock(lay, i)}
    {
      ghost var s := View();
      CutBlocks(i);
      ghost var s1 := View();
      inodes := inodes[i := inodes[i].(size := 0)];
      Iupdate(i);
      GoneStill(s, i, s1, View());
      TruncatedInv(s, i, View());
    }

    /** iput, as the transaction that fileclose makes of it, with `ref` references in memory and
        `valid` if the inode was read from disk. A valid inode without links whose last reference
        goes is truncated and freed; that keeps to the log's budget if and only if its blocks lie
        under fewer than MAXOPBLOCKS bitmap blocks. */
    method Iput(i: nat, valid: bool, ref: nat, ghost s: State) returns (freed: bool, ghost s': State)
      requires Valid() && i < |inodes| && s == State(disk, View())
      modifies `disk, `bits, `inodes, `dinodes, `owner, `base, `logged
      ensures Valid() && s' == State(disk, View()) && (freed <==> valid && s.f.inodes[i].nlink == 0 && ref == 1)
      ensures !freed ==> s' == s && logged == {}
      ensures freed ==> logged == BitmapBlocks(lay, s.f, i) + {InodeBlock(lay, i)} && Saved(lay, s, Drop(i), logged, s')
      ensures freed ==> inodes == old(inodes)[i := inodes[i]] && inodes[i].kind == 0
      ensures freed ==> (Trans(lay, s, Drop(i), logged, s') <==> |BitmapBlocks(lay, s.f, i)| < MAXOPBLOCKS)
    {
      FreshRep(lay, All());
      RepStored(lay, All(), View());
      base, logged := disk, {};
      freed := valid && inodes[i].nlink == 0 && ref == 1;
      if freed {
        Itrunc(i);
        FreeInode(i, s.f);
        RepStored(lay, All(), View());
        DropBudget(lay, s, i);
      }
      s' := State(disk, View());
    }

    /** The end of iput: the type of a truncated inode becomes 0. */
    method FreeInode(i: nat, ghost s: Fs)
      requires Valid() && i < |inodes| && Truncated(s, i, View())
      modifies `disk, `inodes, `dinodes, `logged
      ensures Valid() && Truncated(s, i, View()) && inodes == old(inodes)[i := old(inodes)[i].(kind := 0)]
      ensures logged == old(logged) + {InodeBlock(lay, i)}
    {
      ghost var s1 := View();
      OwnedFits(s1, i);
      OthersSame(s, i, s1);
      inodes := inodes[i := inodes[i].(kind := 0)];
      Iupdate(i);
      GoneStill(s, i, s1, View());
      TruncatedInv(s, i, View());
    }

    /** itrunc up to where the size is set. */
    method CutBlocks(i: nat)
      requires OnDisk() && Inv(View()) && i < |inodes|
      modifies `disk, `bits, `inodes, `owner, `logged
      ensures OnDisk() && Gone(old(View()), i, View()) && logged == old(logged) + BitmapBlocks(lay, old(View()), i)
      ensures inodes == old(inodes)[i := old(inodes)[i].(addrs := ZeroTo(old(inodes)[i].addrs, NDIRECT + 1))]
    {
      ghost var s := View();
      CutDirect(i);
      if inodes[i].addrs[NDIRECT] != 0 {
        CutListed(i, s, old(logged));
      } else {
        NoMarks(lay, s, i, MAXFILE);
        NoneListed(s, i, View());
      }
    }

    /** The first loop of itrunc. */
    method CutDirect(i: nat)
      requires OnDisk() && Inv(View()) && i < |inodes|
      modifies `disk, `bits, `inodes, `owner, `logged
      ensures OnDisk()
      ensures Cut(old(View()), i, NDIRECT, View()) && logged == old(logged) + Marks(lay, old(View()), i, NDIRECT)
      ensures inodes == old(inodes)[i := old(inodes)[i].(addrs := ZeroTo(old(inodes)[i].addrs, NDIRECT))]
    {
      ghost var s := View();
      var k := 0;
      assert ZeroTo(inodes[i].addrs, 0) == inodes[i].addrs;
      while k < NDIRECT
        invariant 0 <= k <= NDIRECT && OnDisk() && Cut(s, i, k, View()) && logged == old(logged) + Marks(lay, s, i, k)
        invariant inodes == s.inodes[i := s.inodes[i].(addrs := ZeroTo(s.inodes[i].addrs, k))]
      {
        CutBit(s, i, k, View());
        ghost var s1 := View();
        if inodes[i].addrs[k] != 0 {
          Bfree(inodes[i].addrs[k]);
          inodes := inodes[i := inodes[i].(addrs := inodes[i].addrs[k := 0])];
        }
        ZeroMore(s.inodes[i].addrs, k);
        CutMore(s, i, k, s1, View());
        k := k + 1;
      }
    }

    /** itrunc of an inode with an indirect block: free what it lists, then the block itself. */
    method CutListed(i: nat, ghost s: Fs, ghost log: set<nat>)
      requires OnDisk() && Inv(s) && i < |s.inodes| && Cut(s, i, NDIRECT, View()) && s.inodes[i].addrs[NDIRECT] != 0
      requires inodes == s.inodes[i := s.inodes[i].(addrs := ZeroTo(s.inodes[i].addrs, NDIRECT))]
      requires logged == log + Marks(lay, s, i, NDIRECT)
      modifies `disk, `bits, `inodes, `owner, `logged
      ensures OnDisk() && Gone(s, i, View()) && logged == log + BitmapBlocks(lay, s, i)
      ensures inodes == s.inodes[i := s.inodes[i].(addrs := ZeroTo(s.inodes[i].addrs, NDIRECT + 1))]
    {
      var ind := inodes[i].addrs[NDIRECT];
      CutEntries(i, ind, s, log);
      ghost var s1 := View();
      CutIndirect(s, i, s1);
      Bfree(ind);
      ZeroMore(s.inodes[i].addrs, NDIRECT);
      inodes := inodes[i := inodes[i].(addrs := inodes[i].addrs[NDIRECT := 0])];
      CutGone(s, i, s1, View());
    }

    /** The second loop of itrunc: free what the indirect block `ind` lists. */
    method CutEntries(i: nat, ind: nat, ghost s: Fs, ghost log: set<nat>)
      requires OnDisk() && Inv(s) && i < |s.inodes| && Cut(s, i, NDIRECT, View())
      requires s.inodes[i].addrs[NDIRECT] == ind != 0
      requires logged == log + Marks(lay, s, i, NDIRECT)
      modifies `disk, `bits, `owner, `logged
      ensures OnDisk() && Cut(s, i, MAXFILE, View()) && logged == log + Marks(lay, s, i, MAXFILE)
    {
      IndirectData(s, i);
      var j := 0;
      while j < NINDIRECT
        invariant 0 <= j <= NINDIRECT && OnDisk() && Cut(s, i, NDIRECT + j, View())
        invariant logged == log + Marks(lay, s, i, NDIRECT + j)
      {
        CutBit(s, i, NDIRECT + j, View());
        ghost var s1 := View();
        RepRead(lay, All());
        var a := GetWord(disk[ind], j);
        if a != 0 { Bfree(a); }
        CutMore(s, i, NDIRECT + j, s1, View());
        j := j + 1;
      }
    }

    /** One transaction of filewrite, the operation `op`. */
    method Chunk(i: nat, off: nat, data: seq<Byte>, ghost op: Op, ghost s: State) returns (w: Ret, ghost s': State)
      requires Valid() && i < |inodes| && !inodes[i].dev && off + |data| < WORD && 0 < |data| <= CHUNK
      requires op == Op(i, off, data) && s == State(disk, View())
      modifies `disk, `bits, `blocks, `inodes, `dinodes, `owner, `base, `logged
      ensures !w.Device? && (w.Panicked? <==> !Refused(s.f, i, off, |data|) && NoRoom(s.f, i, off, |data|))
      ensures w.Failed? <==> Refused(s.f, i, off, |data|)
      ensures !w.Panicked? ==> Valid() && i < |inodes| && !inodes[i].dev && s' == State(disk, View())
      ensures !w.Count? ==> s' == s
      ensures w.Count? ==> w.n == |data| && Trans(lay, s, op, logged, s')
    {
      FreshRep(lay, All());
      RepStored(lay, All(), View());
      base, logged := disk, {};
      w := Writei(i, off, data);
      s' := s;
      if w.Count? {
        RepStored(lay, All(), View());
        s' := State(disk, View());
      }
    }

    /** The transaction for the chunk of `addr` at `n`. */
    method NextChunk(i: nat, off: nat, addr: seq<Byte>, n: nat, ghost t: Trace, ghost s: State, ghost s1: State)
      returns (w: Ret, ghost t': Trace, ghost s': State)
      requires Valid() && i < |inodes| && !inodes[i].dev && off + |addr| < WORD && n == Chunked(addr, |t.ops|) < |addr|
      requires Progress(lay, t, i, off, addr, s, s1) && s1 == State(disk, View())
      modifies `disk, `bits, `blocks, `inodes, `dinodes, `owner, `base, `logged
      ensures !w.Panicked? ==> Valid() && i < |inodes| && !inodes[i].dev && s' == State(disk, View())
      ensures ChunkOutcome(w, lay, i, off, addr, n, t, s, s1, t', s')
    {
      w, s' := Chunk(i, off + n, addr[n..n + MinChunk(|addr| - n)], ChunkOp(i, off, addr, n), s1);
      t' := t;
      if w.Count? { t' := ProgressMore(lay, t, i, off, addr, s, s1, n, logged, s'); }
    }

    /** filewrite to an inode: a transaction for every chunk. `off` is f->off. All chunks are
        written unless writei refuses one; `t` is the run of transactions. */
    method Filewrite(i: nat, off: nat, addr: seq<Byte>)
      returns (r: int, off': nat, panicked: bool, ghost t: Trace, ghost s': State)
      requires Valid() && i < |inodes| && !inodes[i].dev && off + |addr| < WORD
      modifies `disk, `bits, `blocks, `inodes, `dinodes, `owner, `base, `logged
      ensures Progress(lay, t, i, off, addr, State(old(disk), old(View())), s')
      ensures !panicked ==> Valid() && s' == State(disk, View()) && off' == off + Chunked(addr, |t.ops|)
      ensures !panicked ==> Appended(old(View()), i, off, addr, off' - off, View())
      ensures !panicked ==> r == if off' == off + |addr| then |addr| else -1
      ensures !panicked && r < 0 ==> Refused(View(), i, off', MinChunk(off + |addr| - off'))
      ensures panicked ==> r == -1 && off' == off + Chunked(addr, |t.ops|) < off + |addr|
      ensures panicked ==> NoRoom(s'.f, i, off', MinChunk(off + |addr| - off'))
    {
      var n;
      n, panicked, t, s' := WriteChunks(i, off, addr);
      off' := off + n;
      r := if n == |addr| then |addr| else -1;
      ProgressWritten(lay, t, i, off, addr, State(old(disk), old(View())), s');
    }

    /** The loop of filewrite, which writes `n` bytes. */
    method WriteChunks(i: nat, off: nat, addr: seq<Byte>)
      returns (n: nat, panicked: bool, ghost t: Trace, ghost s': State)
      requires Valid() && i < |inodes| && !inodes[i].dev && off + |addr| < WORD
      modifies `disk, `bits, `blocks, `inodes, `dinodes, `owner, `base, `logged
      ensures Progress(lay, t, i, off, addr, State(old(disk), old(View())), s') && n == Chunked(addr, |t.ops|)
      ensures !panicked ==> Valid() && s' == State(disk, View())
      ensures !panicked && n < |addr| ==> Refused(View(), i, off + n, MinChunk(|addr| - n))
      ensures panicked ==> n < |addr| && NoRoom(s'.f, i, off + n, MinChunk(|addr| - n))
    {
      ghost var s := State(disk, View());
      RepStored(lay, All(), View());
      n, panicked, t, s' := 0, false, Trace([s], [], []), s;
      while n < |addr|
        invariant 0 <= n <= |addr| && Valid() && i < |inodes| && !inodes[i].dev && !panicked
        invariant Progress(lay, t, i, off, addr, s, s') && s' == State(disk, View()) && n == Chunked(addr, |t.ops|)
      {
        var w;
        w, t, s' := NextChunk(i, off, addr, n, t, s, s');
        if w.Panicked? { return n, true, t, s'; }
        if w.Failed? { break; }
        n := n + w.n;
      }
    }
  }

  // ------------------------------------------------------------------ transactions

  /** A disk and the file system that it holds. */
  datatype State = State(d: seq<Block>, f: Fs)

  /** Write `data` at `off` of inode `i`, or give up inode `i`. */
  datatype Op = Op(i: nat, off: nat, data: seq<Byte>) | Drop(i: nat)

  /** What an operation does to the files. */
  ghost predicate Effect(f: Fs, op: Op, f': Fs) {
    match op
    case Op(i, off, data) => Written(f, i, off, data, f')
    case Drop(i) => Truncated(f, i, f')
  }

  /** An operation changes logged blocks only, and the disk then holds the file system after it. */
  ghost predicate Saved(lay: Layout, s: State, op: Op, logged: set<nat>, s': State) {
    match s'
    case State(d, f) => Stored(lay, s.d, s.f) && Stored(lay, d, f) && Effect(s.f, op, f) && Logs(lay, s.d, d, logged)
  }

  /** It also keeps to the budget that begin_op has reserved. */
  ghost predicate Trans(lay: Layout, s: State, op: Op, logged: set<nat>, s': State) {
    Saved(lay, s, op, logged, s') && |logged| <= MAXOPBLOCKS
  }

  lemma RepStored(lay: Layout, im: Image, f: Fs)
    requires Rep(lay, im) && Inv(f) && f.start == lay.start && f.bits == im.bits && f.blocks == im.blocks
    requires f.inodes == im.inodes
    ensures Stored(lay, im.d, f) && Logs(lay, im.base, im.d, im.logged)
  {
  }

  /** A run of transactions: the states between them, the operations and what each logged. */
  datatype Trace = Trace(sts: seq<State>, ops: seq<Op>, logs: seq<set<nat>>)

  ghost predicate StepOk(lay: Layout, t: Trace, k: nat)
    requires k < |t.ops| == |t.logs| && |t.sts| == |t.ops| + 1
  {
    Trans(lay, t.sts[k], t.ops[k], t.logs[k], t.sts[k + 1])
  }

  ghost predicate TraceOk(lay: Layout, t: Trace) {
    match t
    case Trace(sts, ops, logs) =>
      && |ops| == |logs| && |sts| == |ops| + 1 && Stored(lay, sts[0].d, sts[0].f)
      && forall k :: 0 <= k < |ops| ==> StepOk(lay, t, k)
  }

  ghost predicate EffectAt(t: Trace, k: nat)
    requires k < |t.ops| && |t.sts| == |t.ops| + 1
  {
    Effect(t.sts[k].f, t.ops[k], t.sts[k + 1].f)
  }

  /** What the operations do to the files. */
  ghost predicate Effects(t: Trace) {
    |t.sts| == |t.ops| + 1 && forall k :: 0 <= k < |t.ops| ==> EffectAt(t, k)
  }

  lemma TraceEffects(lay: Layout, t: Trace)
    requires TraceOk(lay, t)
    ensures Effects(t)
  {
    forall k | 0 <= k < |t.ops| ensures EffectAt(t, k) { assert StepOk(lay, t, k); }
  }

  /** The bytes of the first `k` chunks. */
  function Chunked(addr: seq<Byte>, k: nat): (n: nat)
    ensures n <= |addr|
  {
    if k == 0 then 0 else Chunked(addr, k - 1) + MinChunk(|addr| - Chunked(addr, k - 1))
  }

  lemma {:induction false} ChunkedIs(addr: seq<Byte>, k: nat)
    ensures Chunked(addr, k) == if k * CHUNK < |addr| then k * CHUNK else |addr|
  {
    if k > 0 { ChunkedIs(addr, k - 1); }
  }

  /** The operation for the chunk at `n`. */
  ghost function ChunkOp(i: nat, off: nat, addr: seq<Byte>, n: nat): Op
    requires n <= |addr|
  {
    Op(i, off + n, addr[n..n + MinChunk(|addr| - n)])
  }

  ghost predicate ChunkIs(i: nat, off: nat, addr: seq<Byte>, op: Op, n: nat) {
    n < |addr| && op == ChunkOp(i, off, addr, n)
  }

  /** `ops` are the first chunks of `addr`, written from `off` on. */
  ghost predicate ChunksOf(i: nat, off: nat, addr: seq<Byte>, ops: seq<Op>) {
    forall k {:trigger ops[k]} :: 0 <= k < |ops| ==> ChunkIs(i, off, addr, ops[k], Chunked(addr, k))
  }

  /** The first `n` inodes, as ilock reads them. */
  function ReadInodes(lay: Layout, d: seq<Block>, n: nat, ghost inodes: seq<Inode>): (r: seq<Inode>)
    requires Blocks(d) && n <= |inodes| && forall i :: 0 <= i < |inodes| ==> InodeOk(lay, d, inodes, i)
    ensures r == inodes[..n]
  {
    if n == 0 then []
    else
      assert InodeOk(lay, d, inodes, n - 1);
      ReadInodes(lay, d, n - 1, inodes) + [InodeAt(lay, d, n - 1)]
  }

  /** The blocks of a file are data blocks of the disk. */
  lemma BlockData(s: Fs, i: nat, bn: nat)
    requires Owned(s) && i < |s.inodes| && bn < MAXFILE && Addr(s, i, bn) != 0
    ensures s.start <= Addr(s, i, bn) < |s.blocks|
  {
    assert AddrOk(s, i, bn) && BlockOk(s, Addr(s, i, bn));
  }

  lemma IndirectData(s: Fs, i: nat)
    requires Owned(s) && i < |s.inodes| && s.inodes[i].addrs[NDIRECT] != 0
    ensures s.start <= s.inodes[i].addrs[NDIRECT] < |s.blocks|
  {
    assert IndirectOk(s, i) && BlockOk(s, s.inodes[i].addrs[NDIRECT]);
  }

  lemma OwnedFits(s: Fs, i: nat)
    requires Owned(s) && i < |s.inodes|
    ensures |s.inodes[i].addrs| == NDIRECT + 1 && forall k :: 0 <= k <= NDIRECT ==> s.inodes[i].addrs[k] < WORD
  {
    assert IndirectOk(s, i);
    forall k | 0 <= k < NDIRECT ensures s.inodes[i].addrs[k] < WORD { assert AddrOk(s, i, k); }
  }

  /** cat has written `out` and holds `buf`, the bytes of the file up to `off`. */
  ghost predicate CatSoFar(c: seq<Byte>, dev: bool, r: Ret, out: seq<Byte>, buf: seq<Byte>, off: nat) {
    if dev then r == Device && out == buf == [] && off == 0
    else r == Count(|buf|) && off <= |c| && out + buf == c[..off] && (buf == [] ==> off == |c|)
  }

  lemma CatMore(c: seq<Byte>, had: nat, out: seq<Byte>, buf: seq<Byte>, off: nat)
    requires had <= off <= |c| && out == c[..had] && buf == c[had..off]
    ensures out + buf == c[..off]
  {
  }

  lemma SizeBound(s: Fs, i: nat)
    requires Inv(s) && i < |s.inodes|
    ensures s.inodes[i].size <= MAXFILE * BSIZE
  {
    assert FullAt(s, i, 0);
  }

  datatype Ret = Failed | Device | Panicked | Count(n: nat)

  function Patch(b: Block, o: nat, data: seq<Byte>): (b': Block)
    requires o + |data| <= |b|
    ensures |b'| == |b|
    ensures forall k :: 0 <= k < |b| ==> b'[k] == if o <= k < o + |data| then data[k - o] else b[k]
  {
    b[..o] + data + b[o+|data|..]
  }

  lemma JoinSlices(c: seq<Byte>, a: nat, b: nat, d: nat)
    requires a <= b <= d <= |c|
    ensures c[a..b] + c[b..d] == c[a..d]
  {
  }

  lemma SliceOfBlock(s: Fs, i: nat, o: nat, m: nat)
    requires Inv(s) && i < |s.inodes| && o + m <= s.inodes[i].size && 1 <= m <= BSIZE - o % BSIZE
    ensures Addr(s, i, o / BSIZE) < |s.blocks|
    ensures Contents(s, i)[o..o+m] == s.blocks[Addr(s, i, o / BSIZE)][o % BSIZE..o % BSIZE + m]
  {
    assert FullAt(s, i, o / BSIZE) && AddrOk(s, i, o / BSIZE);
    var c, p := Contents(s, i)[o..o+m], s.blocks[Addr(s, i, o / BSIZE)][o % BSIZE..o % BSIZE + m];
    forall k | 0 <= k < m ensures c[k] == p[k] {
      SameBlock(o, k);
      ContentsAt(s, i, o + k);
    }
  }

  lemma SameBlock(o: nat, k: nat)
    requires o % BSIZE + k < BSIZE
    ensures (o + k) / BSIZE == o / BSIZE && (o + k) % BSIZE == o % BSIZE + k
  {
  }

  // --------------------------------------------------------------- room on the disk

  /** How many of the first `n` bits of the free map are clear. */
  ghost function FreeTo(bits: seq<bool>, n: nat): nat
    requires n <= |bits|
  {
    if n == 0 then 0 else FreeTo(bits, n - 1) + if bits[n-1] then 0 else 1
  }

  ghost function FreeBlocks(s: Fs): nat { FreeTo(s.bits, |s.bits|) }

  lemma {:induction false} FreeMark(bits: seq<bool>, b: nat, n: nat)
    requires b < |bits| && !bits[b] && n <= |bits|
    ensures FreeTo(bits, n) == FreeTo(bits[b := true], n) + if b < n then 1 else 0
  {
    if n > 0 { FreeMark(bits, b, n - 1); }
  }

  lemma {:induction false} AllUsed(bits: seq<bool>, n: nat)
    requires n <= |bits| && forall c :: 0 <= c < |bits| ==> bits[c]
    ensures FreeTo(bits, n) == 0
  {
    if n > 0 { AllUsed(bits, n - 1); }
  }

  /** `k` free blocks have been taken. */
  ghost predicate Uses(s: Fs, k: nat, s': Fs) {
    match s'
    case Fs(_, bits, _, _, _) => FreeTo(bits, |bits|) + k == FreeBlocks(s)
  }

  /** How many of the blocks `lo` up to `hi` inode `i` does not have. */
  ghost function Lacks(s: Fs, i: nat, lo: nat, hi: nat): nat
    requires Shape(s) && i < |s.inodes| && hi <= MAXFILE
    decreases hi
  {
    if hi <= lo then 0 else Lacks(s, i, lo, hi - 1) + if Addr(s, i, hi - 1) == 0 then 1 else 0
  }

  /** How many blocks allocating these takes: the indirect block comes on top. */
  ghost function NeedsTo(s: Fs, i: nat, lo: nat, hi: nat): nat
    requires Shape(s) && i < |s.inodes| && hi <= MAXFILE
  {
    Lacks(s, i, lo, hi) + if hi > lo && hi > NDIRECT && s.inodes[i].addrs[NDIRECT] == 0 then 1 else 0
  }

  /** The block behind those of `n` bytes at `off`. */
  ghost function BlocksEnd(off: nat, n: nat): nat {
    if n == 0 then off / BSIZE else (off + n - 1) / BSIZE + 1
  }

  /** There are too few free blocks for the block of byte `off`. */
  ghost predicate Short(s: Fs, i: nat, off: nat) {
    Shape(s) && i < |s.inodes| && off / BSIZE < MAXFILE && FreeBlocks(s) < Needs(s, i, off / BSIZE)
  }

  /** There are too few free blocks for `n` bytes at `off` of inode `i`. */
  ghost predicate NoRoom(s: Fs, i: nat, off: nat, n: nat) {
    && Shape(s) && i < |s.inodes| && off + n <= MAXFILE * BSIZE
    && FreeBlocks(s) < NeedsTo(s, i, off / BSIZE, BlocksEnd(off, n))
  }

  /** The blocks of `n` bytes at `off` that inode `i` does not have. */
  ghost function Wanting(s: Fs, i: nat, off: nat, n: nat): set<nat>
    requires Shape(s) && i < |s.inodes|
  {
    set bn: nat | bn < MAXFILE && off < (bn + 1) * BSIZE && bn * BSIZE < off + n && 0 < n && Addr(s, i, bn) == 0
  }

  /** There is no room exactly if fewer bits of the map are clear than blocks are wanting, the
      indirect block among them. */
  lemma NoRoomIs(s: Fs, i: nat, off: nat, n: nat)
    requires Shape(s) && i < |s.inodes| && off + n <= MAXFILE * BSIZE
    ensures NoRoom(s, i, off, n) <==>
      |set b: nat | b < |s.bits| && !s.bits[b]| < |Wanting(s, i, off, n)| +
        if 0 < n && off + n > NDIRECT * BSIZE && s.inodes[i].addrs[NDIRECT] == 0 then 1 else 0
  {
    var lo, hi := off / BSIZE, BlocksEnd(off, n);
    FreeSet(s.bits, |s.bits|);
    LacksSet(s, i, lo, hi);
    forall bn: nat | bn < MAXFILE ensures bn in Wanting(s, i, off, n) <==> lo <= bn < hi && Addr(s, i, bn) == 0 {
      assert off < (bn + 1) * BSIZE <==> lo <= bn;
      if 0 < n { assert bn * BSIZE < off + n <==> bn < hi; }
    }
    assert Wanting(s, i, off, n) == LackSet(s, i, lo, hi);
  }

  lemma {:induction false} FreeSet(bits: seq<bool>, n: nat)
    requires n <= |bits|
    ensures FreeTo(bits, n) == |set b: nat | b < n && !bits[b]|
  {
    var all := set b: nat | b < n && !bits[b];
    if n == 0 {
      assert all == {};
    } else {
      FreeSet(bits, n - 1);
      var rest := set b: nat | b < n - 1 && !bits[b];
      assert all == if bits[n-1] then rest else rest + {n - 1};
    }
  }

  ghost function LackSet(s: Fs, i: nat, lo: nat, hi: nat): set<nat>
    requires Shape(s) && i < |s.inodes| && hi <= MAXFILE
  {
    set bn: nat | bn < hi && lo <= bn && Addr(s, i, bn) == 0
  }

  lemma LackStep(s: Fs, i: nat, lo: nat, hi: nat)
    requires Shape(s) && i < |s.inodes| && lo <= hi < MAXFILE
    ensures |LackSet(s, i, lo, hi + 1)| == |LackSet(s, i, lo, hi)| + if Addr(s, i, hi) == 0 then 1 else 0
  {
    var rest := LackSet(s, i, lo, hi);
    assert LackSet(s, i, lo, hi + 1) == if Addr(s, i, hi) == 0 then rest + {hi} else rest;
  }

  lemma {:induction false} LacksSet(s: Fs, i: nat, lo: nat, hi: nat)
    requires Shape(s) && i < |s.inodes| && hi <= MAXFILE
    ensures Lacks(s, i, lo, hi) == |LackSet(s, i, lo, hi)|
    decreases hi
  {
    if hi <= lo {
      assert LackSet(s, i, lo, hi) == {};
    } else {
      LacksSet(s, i, lo, hi - 1);
      LackStep(s, i, lo, hi - 1);
    }
  }

  /** writei does not take `n` bytes at `off`. */
  ghost predicate Refused(s: Fs, i: nat, off: nat, n: nat) {
    i < |s.inodes| && (off > s.inodes[i].size || off + n > MAXFILE * BSIZE)
  }

  /** Block `bn` of inode `i` is there, and no other block of it came or went. */
  ghost predicate OneMore(s: Fs, i: nat, bn: nat, s': Fs) {
    match s'
    case Fs(_, _, _, inodes, _) =>
      && Shape(s) && Shape(s') && i < |s.inodes| == |inodes|
      && (forall c {:trigger Addr(s', i, c)} :: 0 <= c < MAXFILE && c != bn ==> Addr(s', i, c) == Addr(s, i, c))
  }

  /** The blocks of the first `tot` bytes have been taken. */
  ghost predicate SpaceSoFar(s: Fs, i: nat, off: nat, tot: nat, s': Fs) {
    match s'
    case Fs(_, _, _, inodes, _) =>
      var lo, bn := off / BSIZE, BlocksEnd(off, tot);
      && Shape(s) && Shape(s') && i < |s.inodes| == |inodes| && bn <= MAXFILE
      && Uses(s, NeedsTo(s, i, lo, bn), s')
      && (inodes[i].addrs[NDIRECT] != 0 <==> s.inodes[i].addrs[NDIRECT] != 0 || (lo < bn && bn > NDIRECT))
  }

  // ------------------------------------------------------------------- writing

  /** Byte `k` of inode `i` after `data` was written at `off`. */
  ghost predicate WroteAt(s: Fs, i: nat, off: nat, data: seq<Byte>, s': Fs, k: nat)
    requires Owned(s) && Owned(s') && i < |s.inodes| == |s'.inodes| && k < MAXFILE * BSIZE
  {
    if off <= k < off + |data| then Addr(s', i, k / BSIZE) != 0 && ByteAt(s', i, k) == data[k - off]
    else Addr(s, i, k / BSIZE) != 0 ==> Addr(s', i, k / BSIZE) != 0 && ByteAt(s', i, k) == ByteAt(s, i, k)
  }

  /** Blocks of other inodes keep their place and contents. */
  ghost predicate OtherKept(s: Fs, i: nat, s': Fs, b: nat)
    requires Shape(s) && Shape(s') && b < |s.blocks| == |s'.blocks|
  {
    s.owner[b].Data? && s.owner[b].i != i ==> s'.owner[b] == s.owner[b] && s'.blocks[b] == s.blocks[b]
  }

  /** `data` was written at `off` of inode `i`, and nothing else. */
  ghost predicate Wrote(s: Fs, i: nat, off: nat, data: seq<Byte>, s': Fs) {
    match s'
    case Fs(_, _, _, _, _) =>
      && Owned(s) && Owned(s') && s'.start == s.start && |s'.blocks| == |s.blocks| && AddrsOnly(s, i, s')
      && off + |data| <= MAXFILE * BSIZE
      && (forall k :: 0 <= k < MAXFILE * BSIZE ==> WroteAt(s, i, off, data, s', k))
      && (forall b :: 0 <= b < |s.blocks| ==> OtherKept(s, i, s', b))
      && (forall c {:trigger Addr(s', i, c)} :: 0 <= c < MAXFILE && Addr(s, i, c) != 0 ==>
            Addr(s', i, c) == Addr(s, i, c))
      && (forall j, c {:trigger Addr(s', j, c)} :: 0 <= j < |s.inodes| && j != i && 0 <= c < MAXFILE ==>
            Addr(s', j, c) == Addr(s, j, c))
  }

  ghost predicate IndKept(s: Fs, i: nat, bn: nat, s': Fs)
    requires Shape(s) && Shape(s') && i < |s.inodes| == |s'.inodes|
  {
    var a, a' := s.inodes[i].addrs[NDIRECT], s'.inodes[i].addrs[NDIRECT];
    if a != 0 || bn < NDIRECT then a' == a else a' != 0
  }

  /** Writing into a data block changes bytes of that block of that file only. */
  lemma PatchOwned(s: Fs, i: nat, bn: nat, b: nat, page: Block)
    requires Owned(s) && i < |s.inodes| && bn < MAXFILE && 0 < b < |s.blocks| && Addr(s, i, bn) == b && |page| == BSIZE
    ensures var s' := s.(blocks := s.blocks[b := page]);
      && s.owner[b] == Data(i, bn) && Owned(s')
      && forall j, c :: 0 <= j < |s.inodes| && 0 <= c < MAXFILE ==> Addr(s', j, c) == Addr(s, j, c)
  {
    var s' := s.(blocks := s.blocks[b := page]);
    assert AddrOk(s, i, bn);
    assert OnlyMoves(s, s');
    MovesOwned(s, s');
    forall j, c | 0 <= j < |s.inodes| && 0 <= c < MAXFILE
      ensures Addr(s', j, c) == Addr(s, j, c)
    {
      MovesAddr(s, s', j, c);
    }
  }

  lemma PatchWrote(s: Fs, s1: Fs, i: nat, off: nat, data: seq<Byte>, b: nat)
    requires i < |s.inodes| && off + |data| <= MAXFILE * BSIZE && 1 <= |data| <= BSIZE - off % BSIZE
    requires Mapped(s, i, off / BSIZE, b, s1)
    ensures var s2 := s1.(blocks := s1.blocks[b := Patch(s1.blocks[b], off % BSIZE, data)]);
      Wrote(s, i, off, data, s2) && OneMore(s, i, off / BSIZE, s2)
  {
    var page := Patch(s1.blocks[b], off % BSIZE, data);
    var s2 := s1.(blocks := s1.blocks[b := page]);
    assert Addr(s1, i, off / BSIZE) == b;
    PatchOwned(s1, i, off / BSIZE, b, page);
    forall k | 0 <= k < MAXFILE * BSIZE ensures WroteAt(s, i, off, data, s2, k) {
      PatchWroteAt(s, s1, i, off, data, b, s2, k);
    }
    forall c | 0 <= c < |s.blocks| ensures OtherKept(s, i, s2, c) {}
  }

  /** bmap and a patch of the block are a round of writei. */
  lemma PatchDone(s: Fs, s1: Fs, i: nat, off: nat, data: seq<Byte>, b: nat, al: seq<nat>, log: set<nat>, log': set<nat>)
    requires i < |s.inodes| && off + |data| <= MAXFILE * BSIZE && 1 <= |data| <= BSIZE - off % BSIZE
    requires Mapped(s, i, off / BSIZE, b, s1) && Uses(s, Needs(s, i, off / BSIZE), s1)
    requires |al| <= Needs(s, i, off / BSIZE)
    requires Adds(log, log', [b] + Ind(s1, i, off / BSIZE) + al)
    ensures PieceDone(s, i, off, data, b, al, log, Patched(s1, b, off, data), log')
  {
    PatchWrote(s, s1, i, off, data, b);
  }

  ghost function Patched(s: Fs, b: nat, off: nat, data: seq<Byte>): Fs
    requires b < |s.blocks| && off % BSIZE + |data| <= |s.blocks[b]|
  {
    s.(blocks := s.blocks[b := Patch(s.blocks[b], off % BSIZE, data)])
  }

  lemma PatchWroteAt(s: Fs, s1: Fs, i: nat, off: nat, data: seq<Byte>, b: nat, s2: Fs, k: nat)
    requires i < |s.inodes| && off + |data| <= MAXFILE * BSIZE && 1 <= |data| <= BSIZE - off % BSIZE
    requires k < MAXFILE * BSIZE
    requires Mapped(s, i, off / BSIZE, b, s1) && Owned(s2) && s1.owner[b] == Data(i, off / BSIZE)
    requires s2 == s1.(blocks := s1.blocks[b := Patch(s1.blocks[b], off % BSIZE, data)])
    requires forall j, c :: 0 <= j < |s1.inodes| && 0 <= c < MAXFILE ==> Addr(s2, j, c) == Addr(s1, j, c)
    ensures WroteAt(s, i, off, data, s2, k)
  {
    var bn := k / BSIZE;
    assert Addr(s2, i, bn) == Addr(s1, i, bn) && AddrOk(s, i, bn) && AddrOk(s1, i, bn) && AddrOk(s2, i, bn);
    if off <= k < off + |data| {
      SameBlock(off, k - off);
    }
  }

  /** How many blocks bmap has to allocate. */
  ghost function Needs(s: Fs, i: nat, bn: nat): nat
    requires Shape(s) && i < |s.inodes| && bn < MAXFILE
  {
    if Addr(s, i, bn) != 0 then 0 else if bn >= NDIRECT && s.inodes[i].addrs[NDIRECT] == 0 then 2 else 1
  }

  /** The indirect block, if block `bn` is listed there. */
  ghost function Ind(s: Fs, i: nat, bn: nat): seq<nat>
    requires Shape(s) && i < |s.inodes|
  {
    if bn < NDIRECT then [] else [s.inodes[i].addrs[NDIRECT]]
  }

  /** `log'` has at most the blocks `q` more. */
  ghost predicate Adds(log: set<nat>, log': set<nat>, q: seq<nat>) {
    forall x :: x in log' ==> x in log || x in q
  }

  /** Data blocks keep their owner and their contents. */
  ghost predicate DataKept(s: Fs, s': Fs) {
    && Shape(s) && Shape(s') && |s'.blocks| == |s.blocks|
    && forall b {:trigger s.owner[b]} :: 0 <= b < |s.blocks| && s.owner[b].Data? ==>
         s'.owner[b] == s.owner[b] && s'.blocks[b] == s.blocks[b]
  }

  /** Inode `i` may have other addresses; nothing else about inodes changes. */
  ghost predicate AddrsOnly(s: Fs, i: nat, s': Fs) {
    && Shape(s) && Shape(s') && i < |s.inodes| && |s'.inodes| == |s.inodes|
    && s'.inodes == s.inodes[i := s.inodes[i].(addrs := s'.inodes[i].addrs)]
  }

  ghost predicate SameAddrs(s: Fs, s': Fs) {
    && Shape(s) && Shape(s') && |s'.inodes| == |s.inodes|
    && forall j, c :: 0 <= j < |s.inodes| && 0 <= c < MAXFILE ==> Addr(s', j, c) == Addr(s, j, c)
  }

  /** Block `bn` of inode `i` is at `a`, and if it was not before it is new and zero; all other
      blocks are where they were, with what they held. */
  ghost predicate Mapped(s: Fs, i: nat, bn: nat, a: nat, s': Fs) {
    && Owned(s) && Owned(s') && s'.start == s.start && AddrsOnly(s, i, s') && DataKept(s, s') && bn < MAXFILE
    && 0 < a < |s'.blocks|
    && (forall j, c {:trigger Addr(s', j, c)} :: 0 <= j < |s.inodes| && 0 <= c < MAXFILE ==>
          Addr(s', j, c) == if j == i && c == bn then a else Addr(s, j, c))
    && (s.inodes[i].addrs[NDIRECT] != 0 ==> s'.inodes[i].addrs[NDIRECT] == s.inodes[i].addrs[NDIRECT])
    && (bn < NDIRECT ==> s'.inodes[i].addrs[NDIRECT] == s.inodes[i].addrs[NDIRECT])
    && (bn >= NDIRECT ==> s'.inodes[i].addrs[NDIRECT] != 0)
    && (Addr(s, i, bn) != 0 ==> s' == s && a == Addr(s, i, bn))
    && (Addr(s, i, bn) == 0 ==> s.owner[a] == Free && IsZero(s'.blocks[a]))
  }

  /** Inode `i` has an indirect block, and the same blocks as before. */
  ghost predicate HasIndirect(s: Fs, i: nat, s': Fs) {
    && Owned(s) && Owned(s') && s'.start == s.start && AddrsOnly(s, i, s') && DataKept(s, s') && SameAddrs(s, s')
    && 0 < s'.inodes[i].addrs[NDIRECT] < |s'.blocks|
    && (s.inodes[i].addrs[NDIRECT] != 0 ==> s'.inodes[i].addrs[NDIRECT] == s.inodes[i].addrs[NDIRECT])
    && (forall b {:trigger s'.owner[b]} :: 0 <= b < |s.blocks| && s'.owner[b].Free? ==> s.owner[b].Free?)
  }

  lemma AlreadyMapped(s: Fs, i: nat, bn: nat)
    requires Owned(s) && i < |s.inodes| && bn < MAXFILE && Addr(s, i, bn) != 0
    ensures Mapped(s, i, bn, Addr(s, i, bn), s)
  {
    assert AddrOk(s, i, bn);
  }

  lemma DirectMapped(s: Fs, i: nat, bn: nat, a: nat)
    requires Owned(s) && i < |s.inodes| && bn < NDIRECT && a < |s.blocks| && !s.bits[a] && Addr(s, i, bn) == 0
    requires Owned(SetAddr(Took(s, a), i, bn, a, Data(i, bn)))
    ensures Mapped(s, i, bn, a, SetAddr(Took(s, a), i, bn, a, Data(i, bn)))
  {
    var s1 := Took(s, a);
    TookMoves(s, a);
    forall j, c | 0 <= j < |s.inodes| && 0 <= c < MAXFILE
      ensures Addr(SetAddr(s1, i, bn, a, Data(i, bn)), j, c) == if j == i && c == bn then a else Addr(s, j, c)
    {
      MovesAddr(s, s1, j, c);
      SetDirectAddr(s1, i, bn, a, Data(i, bn), j, c);
    }
  }

  lemma NewHasIndirect(s: Fs, i: nat, a: nat)
    requires Owned(s) && i < |s.inodes| && a < |s.blocks| && !s.bits[a] && s.inodes[i].addrs[NDIRECT] == 0
    requires NoEntries(Took(s, a).blocks[a]) && Owned(SetAddr(Took(s, a), i, NDIRECT, a, Indirect(i)))
    ensures HasIndirect(s, i, SetAddr(Took(s, a), i, NDIRECT, a, Indirect(i)))
  {
    var s1 := Took(s, a);
    TookMoves(s, a);
    forall j, c | 0 <= j < |s.inodes| && 0 <= c < MAXFILE
      ensures Addr(SetAddr(s1, i, NDIRECT, a, Indirect(i)), j, c) == Addr(s, j, c)
    {
      MovesAddr(s, s1, j, c);
      NewIndirectAddr(s1, i, a, j, c);
    }
  }

  lemma EntryTaken(s: Fs, s1: Fs, i: nat, bn: nat, a: nat)
    requires HasIndirect(s, i, s1) && NDIRECT <= bn < MAXFILE && a < |s1.blocks| && !s1.bits[a] && Addr(s1, i, bn) == 0
    requires Owned(Took(s1, a))
    ensures Mapped(s, i, bn, a, SetEntry(Took(s1, a), i, bn - NDIRECT, a, Data(i, bn)))
  {
    TookMoves(s1, a);
    MovesAddr(s1, Took(s1, a), i, bn);
    EntryOwned(Took(s1, a), i, bn - NDIRECT, a);
    EntryMapped(s, s1, i, bn, a);
  }

  lemma EntryMapped(s: Fs, s1: Fs, i: nat, bn: nat, a: nat)
    requires HasIndirect(s, i, s1) && NDIRECT <= bn < MAXFILE && a < |s1.blocks| && !s1.bits[a] && Addr(s1, i, bn) == 0
    requires Owned(Took(s1, a)) && Owned(SetEntry(Took(s1, a), i, bn - NDIRECT, a, Data(i, bn)))
    ensures Mapped(s, i, bn, a, SetEntry(Took(s1, a), i, bn - NDIRECT, a, Data(i, bn)))
  {
    var s2 := Took(s1, a);
    var s3 := SetEntry(s2, i, bn - NDIRECT, a, Data(i, bn));
    TookMoves(s1, a);
    assert IndirectOk(s1, i);
    forall j, c | 0 <= j < |s.inodes| && 0 <= c < MAXFILE
      ensures Addr(s3, j, c) == if j == i && c == bn then a else Addr(s, j, c)
    {
      assert Addr(s1, j, c) == Addr(s, j, c);
      MovesAddr(s1, s2, j, c);
      SetEntryAddr(s2, i, bn - NDIRECT, a, Data(i, bn), j, c);
    }
  }

  lemma KeptMapped(s: Fs, s1: Fs, i: nat, bn: nat)
    requires HasIndirect(s, i, s1) && NDIRECT <= bn < MAXFILE && Addr(s1, i, bn) != 0
    requires s.inodes[i].addrs[NDIRECT] != 0 ==> s1 == s
    ensures Mapped(s, i, bn, Addr(s1, i, bn), s1)
  {
    assert Addr(s1, i, bn) == Addr(s, i, bn);
    AlreadyMapped(s, i, bn);
  }

  /** What filewrite writes in one transaction: (MAXOPBLOCKS - 1 - 1 - 2) / 2 blocks. */
  const CHUNK := 1536

  lemma WroteNothing(s: Fs, i: nat, off: nat)
    requires Owned(s) && i < |s.inodes| && off <= MAXFILE * BSIZE
    ensures Wrote(s, i, off, [], s)
  {
    forall k | 0 <= k < MAXFILE * BSIZE ensures WroteAt(s, i, off, [], s, k) {}
  }

  lemma WroteMore(s: Fs, s1: Fs, s2: Fs, i: nat, off: nat, d1: seq<Byte>, d2: seq<Byte>)
    requires Wrote(s, i, off, d1, s1) && Wrote(s1, i, off + |d1|, d2, s2)
    ensures Wrote(s, i, off, d1 + d2, s2)
  {
    var d := d1 + d2;
    forall k | 0 <= k < MAXFILE * BSIZE ensures WroteAt(s, i, off, d, s2, k) {
      assert WroteAt(s, i, off, d1, s1, k) && WroteAt(s1, i, off + |d1|, d2, s2, k);
    }
    forall b | 0 <= b < |s.blocks| ensures OtherKept(s, i, s2, b) {
      assert OtherKept(s, i, s1, b) && OtherKept(s1, i, s2, b);
    }
    forall c | 0 <= c < MAXFILE && Addr(s, i, c) != 0
      ensures Addr(s2, i, c) == Addr(s, i, c)
    {
      assert Addr(s1, i, c) == Addr(s, i, c);
    }
    forall j, c | 0 <= j < |s.inodes| && j != i && 0 <= c < MAXFILE ensures Addr(s2, j, c) == Addr(s, j, c) {
      assert Addr(s1, j, c) == Addr(s, j, c);
    }
  }

  /** Blocks only ever come in. */
  lemma WroteFull(s: Fs, i: nat, off: nat, data: seq<Byte>, s': Fs)
    requires Inv(s) && Wrote(s, i, off, data, s')
    ensures Full(s')
  {
    forall j, c | 0 <= j < |s'.inodes| && 0 <= c < MAXFILE ensures FullAt(s', j, c) {
      assert FullAt(s, j, c);
      if j == i && Addr(s, i, c) != 0 { assert Addr(s', i, c) == Addr(s, i, c); }
      if j != i { assert Addr(s', j, c) == Addr(s, j, c); }
    }
  }

  lemma StillThere(s: Fs, i: nat, off: nat, data: seq<Byte>, s': Fs, bn: nat)
    requires Inv(s) && Wrote(s, i, off, data, s') && bn < MAXFILE
    ensures bn * BSIZE < s.inodes[i].size ==> Addr(s', i, bn) != 0
  {
    assert FullAt(s, i, bn) && (Addr(s, i, bn) != 0 ==> Addr(s', i, bn) == Addr(s, i, bn));
  }

  // ---------------------------------------------------------- what a file holds then

  /** The first `n` bytes of `data`, one after the other, at `off` and on; at the end of the
      file each makes it longer. */
  ghost function OverwriteTo(c: seq<Byte>, off: nat, data: seq<Byte>, n: nat): (r: seq<Byte>)
    requires off <= |c| && n <= |data|
    ensures |r| == if off + n > |c| then off + n else |c|
  {
    if n == 0 then c
    else
      var r := OverwriteTo(c, off, data, n - 1);
      if off + n - 1 < |r| then r[off + n - 1 := data[n - 1]] else r + [data[n - 1]]
  }

  ghost function Overwrite(c: seq<Byte>, off: nat, data: seq<Byte>): seq<Byte>
    requires off <= |c|
  {
    OverwriteTo(c, off, data, |data|)
  }

  lemma {:induction false} OverwriteAt(c: seq<Byte>, off: nat, data: seq<Byte>, n: nat, k: nat)
    requires off <= |c| && n <= |data| && k < |OverwriteTo(c, off, data, n)|
    ensures OverwriteTo(c, off, data, n)[k] == if off <= k < off + n then data[k - off] else c[k]
  {
    if n > 0 && k < |OverwriteTo(c, off, data, n - 1)| { OverwriteAt(c, off, data, n - 1, k); }
  }

  lemma OverwriteIs(c: seq<Byte>, off: nat, data: seq<Byte>)
    requires off <= |c|
    ensures Overwrite(c, off, data) == c[..off] + data + (if off + |data| < |c| then c[off+|data|..] else [])
  {
    var r, want := Overwrite(c, off, data), c[..off] + data + (if off + |data| < |c| then c[off+|data|..] else []);
    forall k | 0 <= k < |r| ensures r[k] == want[k] { OverwriteAt(c, off, data, |data|, k); }
  }

  /** What was written is read back, and the bytes around it are as before. */
  lemma ReadBack(c: seq<Byte>, off: nat, data: seq<Byte>, o: nat, n: nat)
    requires off <= |c| && o + n <= |c|
    ensures var r := Overwrite(c, off, data);
      && |c| <= |r| && off + |data| <= |r| && r[off..off+|data|] == data
      && (o + n <= off || off + |data| <= o ==> r[o..o+n] == c[o..o+n])
  {
    OverwriteIs(c, off, data);
  }

  /** The file is overwritten and extended; every other file is as before. */
  ghost predicate Written(s: Fs, i: nat, off: nat, data: seq<Byte>, s': Fs) {
    match s'
    case Fs(_, _, _, inodes, _) =>
      && Inv(s) && Inv(s') && |inodes| == |s.inodes| && i < |s.inodes| && off <= s.inodes[i].size
      && Contents(s', i) == Overwrite(Contents(s, i), off, data) && inodes[i].dev == s.inodes[i].dev
      && forall j :: 0 <= j < |s.inodes| && j != i ==> FileKept(s, s', j)
  }

  ghost predicate FileKept(s: Fs, s': Fs, j: nat)
    requires Inv(s) && Inv(s') && j < |s.inodes| == |s'.inodes|
  {
    s'.inodes[j] == s.inodes[j] && Contents(s', j) == Contents(s, j)
  }

  /** `f` is `s'` with the size of inode `i` brought up to date. */
  ghost predicate Resized(s: Fs, i: nat, off: nat, data: seq<Byte>, s': Fs, f: Fs) {
    && Shape(s) && Shape(s') && i < |s.inodes| == |s'.inodes| == |f.inodes|
    && f == s'.(inodes := s'.inodes[i := s'.inodes[i].(size := f.inodes[i].size)])
    && f.inodes[i].size == if off + |data| > s.inodes[i].size then off + |data| else s.inodes[i].size
  }

  lemma ResizedAddr(s: Fs, i: nat, off: nat, data: seq<Byte>, s': Fs, f: Fs, j: nat, c: nat)
    requires Resized(s, i, off, data, s', f) && j < |s'.inodes| && c < MAXFILE
    ensures Shape(f) && Addr(f, j, c) == Addr(s', j, c)
  {
  }

  lemma ResizedOwned(s: Fs, i: nat, off: nat, data: seq<Byte>, s': Fs, f: Fs)
    requires Owned(s') && Resized(s, i, off, data, s', f)
    ensures Owned(f)
  {
    forall b | 0 <= b < |f.blocks| ensures BlockOk(f, b) {
      assert BlockOk(s', b);
      if f.owner[b].Data? { ResizedAddr(s, i, off, data, s', f, f.owner[b].i, f.owner[b].bn); }
    }
    forall j, c | 0 <= j < |f.inodes| && 0 <= c < MAXFILE ensures AddrOk(f, j, c) {
      assert AddrOk(s', j, c);
      ResizedAddr(s, i, off, data, s', f, j, c);
    }
    forall j | 0 <= j < |f.inodes| ensures IndirectOk(f, j) { assert IndirectOk(s', j); }
  }

  lemma ResizedFull(s: Fs, i: nat, off: nat, data: seq<Byte>, s': Fs, f: Fs)
    requires Inv(s) && Wrote(s, i, off, data, s') && off <= s.inodes[i].size && Full(s')
    requires Resized(s, i, off, data, s', f)
    ensures Full(f)
  {
    forall j, c | 0 <= j < |f.inodes| && 0 <= c < MAXFILE ensures FullAt(f, j, c) {
      assert FullAt(s', j, c);
      ResizedAddr(s, i, off, data, s', f, j, c);
      if j == i && s.inodes[i].size <= c * BSIZE < off + |data| {
        assert WroteAt(s, i, off, data, s', c * BSIZE);
        assert c * BSIZE / BSIZE == c;
      }
    }
  }

  lemma ResizedByte(s: Fs, i: nat, off: nat, data: seq<Byte>, s': Fs, f: Fs, j: nat, k: nat)
    requires Owned(s') && Owned(f) && Resized(s, i, off, data, s', f) && j < |s'.inodes| && k < MAXFILE * BSIZE
    ensures Addr(f, j, k / BSIZE) == Addr(s', j, k / BSIZE)
    ensures Addr(s', j, k / BSIZE) != 0 ==> ByteAt(f, j, k) == ByteAt(s', j, k)
  {
    ResizedAddr(s, i, off, data, s', f, j, k / BSIZE);
  }

  lemma WroteContents(s: Fs, i: nat, off: nat, data: seq<Byte>, s': Fs, f: Fs)
    requires Inv(s) && Wrote(s, i, off, data, s') && off <= s.inodes[i].size && Full(s')
    requires Resized(s, i, off, data, s', f)
    ensures Written(s, i, off, data, f)
  {
    ResizedOwned(s, i, off, data, s', f);
    ResizedFull(s, i, off, data, s', f);
    var c, c', want := Contents(s, i), Contents(f, i), Overwrite(Contents(s, i), off, data);
    forall k | 0 <= k < |want| ensures c'[k] == want[k] {
      assert WroteAt(s, i, off, data, s', k);
      OverwriteAt(c, off, data, |data|, k);
      ContentsAt(f, i, k);
      if k < |c| { ContentsAt(s, i, k); }
      ResizedByte(s, i, off, data, s', f, i, k);
    }
    forall j | 0 <= j < |s.inodes| && j != i ensures FileKept(s, f, j) {
      OtherContents(s, i, off, data, s', f, j);
    }
  }

  lemma OtherContents(s: Fs, i: nat, off: nat, data: seq<Byte>, s': Fs, f: Fs, j: nat)
    requires Inv(s) && Inv(f) && Wrote(s, i, off, data, s') && Resized(s, i, off, data, s', f) && j < |s.inodes|
    requires j != i
    ensures Contents(f, j) == Contents(s, j)
  {
    var c, c' := Contents(s, j), Contents(f, j);
    forall k | 0 <= k < |c| ensures c'[k] == c[k] {
      ContentsAt(s, j, k);
      ContentsAt(f, j, k);
      assert AddrOk(s, j, k / BSIZE);
      assert Addr(s', j, k / BSIZE) == Addr(s, j, k / BSIZE);
      assert OtherKept(s, i, s', Addr(s, j, k / BSIZE));
      ResizedByte(s, i, off, data, s', f, j, k);
    }
  }

  // ------------------------------------------------------------------- the log budget

  /** Data blocks written, bitmap blocks written, and rounds of the loop. */
  datatype Tally = Tally(d: seq<nat>, b: seq<nat>, p: nat)

  ghost function NextTally(t: Tally, a: nat, al: seq<nat>): Tally { Tally(t.d + [a], t.b + al, t.p + 1) }

  /** What fits into the block of byte `o`. */
  function PieceLength(o: nat, left: nat): (m: nat)
    requires left > 0
    ensures 1 <= m <= left && m <= BSIZE - o % BSIZE && (m < left ==> (o + m) % BSIZE == 0)
  {
    if left < BSIZE - o % BSIZE then left else BSIZE - o % BSIZE
  }

  /** The loop of writei has written `tot` bytes, and stops at a block boundary in between. */
  ghost predicate DataSoFar(s: Fs, i: nat, off: nat, src: seq<Byte>, tot: nat, s': Fs) {
    match s'
    case Fs(_, _, _, inodes, _) =>
      && Inv(s) && i < |s.inodes| && off + |src| <= MAXFILE * BSIZE && off <= s.inodes[i].size && tot <= |src|
      && Wrote(s, i, off, src[..tot], s') && (off + |src| <= s.inodes[i].size ==> inodes == s.inodes)
      && (0 < tot < |src| ==> (off + tot) % BSIZE == 0)
  }

  /** The blocks logged so far are in the tally. */
  ghost predicate LogSoFar(s: Fs, i: nat, off: nat, tot: nat, log: set<nat>, t: Tally, s': Fs, logged: set<nat>) {
    match s'
    case Fs(_, _, _, inodes, _) =>
      && Counted(s, i, off, t, s') && t.p == Pieces(off, tot) && (tot == 0 ==> s' == s)
      && Adds(log, logged, t.d + t.b + Indirects(s', i))
  }

  /** All of that; behind the blocks written inode `i` has what it had. */
  ghost predicate SoFar(s: Fs, i: nat, off: nat, src: seq<Byte>, tot: nat,
                        log: set<nat>, t: Tally, s': Fs, logged: set<nat>)
  {
    && DataSoFar(s, i, off, src, tot, s') && SpaceSoFar(s, i, off, tot, s')
    && LogSoFar(s, i, off, tot, log, t, s', logged)
    && forall c {:trigger Addr(s', i, c)} :: BlocksEnd(off, tot) <= c < MAXFILE ==> Addr(s', i, c) == Addr(s, i, c)
  }

  lemma LoopStart(s: Fs, i: nat, off: nat, src: seq<Byte>, log: set<nat>, t: Tally)
    requires Inv(s) && i < |s.inodes| && off + |src| <= MAXFILE * BSIZE && off <= s.inodes[i].size
    requires t == Tally([], [], 0)
    ensures SoFar(s, i, off, src, 0, log, t, s, log)
  {
    WroteNothing(s, i, off);
    assert src[..0] == [];
  }

  lemma LoopEnd(s: Fs, i: nat, off: nat, src: seq<Byte>, log: set<nat>, t: Tally, s': Fs, logged: set<nat>)
    requires SoFar(s, i, off, src, |src|, log, t, s', logged)
    ensures Wrote(s, i, off, src, s') && (off + |src| <= s.inodes[i].size ==> s'.inodes == s.inodes)
    ensures log == {} && |src| <= CHUNK ==> |logged| <= MAXOPBLOCKS - 1
    ensures !NoRoom(s, i, off, |src|)
  {
    assert src[..|src|] == src;
    if log == {} && |src| <= CHUNK { Spent(s, i, off, |src|, t, s', logged); }
  }

  lemma RoundStart(s: Fs, i: nat, off: nat, src: seq<Byte>, tot: nat, s1: Fs)
    requires DataSoFar(s, i, off, src, tot, s1) && tot < |src|
    ensures Owned(s1) && i < |s1.inodes| && off + |src| <= MAXFILE * BSIZE
    ensures off + tot < s.inodes[i].size ==> Addr(s1, i, (off + tot) / BSIZE) != 0
  {
    StillThere(s, i, off, src[..tot], s1, (off + tot) / BSIZE);
  }

  lemma RoundData(s: Fs, i: nat, off: nat, src: seq<Byte>, tot: nat, s1: Fs, m: nat, s2: Fs)
    requires DataSoFar(s, i, off, src, tot, s1) && tot < |src| && m == PieceLength(off + tot, |src| - tot)
    requires Wrote(s1, i, off + tot, src[tot..tot+m], s2)
    requires Addr(s1, i, (off + tot) / BSIZE) != 0 ==> s2.inodes == s1.inodes
    ensures DataSoFar(s, i, off, src, tot + m, s2)
  {
    RoundStart(s, i, off, src, tot, s1);
    WroteMore(s, s1, s2, i, off, src[..tot], src[tot..tot+m]);
    assert src[..tot+m] == src[..tot] + src[tot..tot+m];
  }

  /** The next round is about the block behind those taken. */
  lemma NextBlock(s: Fs, i: nat, off: nat, src: seq<Byte>, tot: nat, s1: Fs)
    requires DataSoFar(s, i, off, src, tot, s1) && tot < |src|
    ensures (off + tot) / BSIZE == BlocksEnd(off, tot) < MAXFILE && BlocksEnd(off, |src|) <= MAXFILE
    ensures var m := PieceLength(off + tot, |src| - tot);
      BlocksEnd(off, tot + m) == BlocksEnd(off, tot) + 1 <= BlocksEnd(off, |src|)
  {
  }

  /** What the next block needs, seen from the start. */
  lemma NeedsNext(s: Fs, i: nat, lo: nat, bn: nat, s1: Fs)
    requires Shape(s) && Shape(s1) && i < |s.inodes| == |s1.inodes| && lo <= bn < MAXFILE
    requires Addr(s1, i, bn) == Addr(s, i, bn)
    requires s1.inodes[i].addrs[NDIRECT] != 0 <==> s.inodes[i].addrs[NDIRECT] != 0 || (lo < bn && bn > NDIRECT)
    ensures NeedsTo(s, i, lo, bn + 1) == NeedsTo(s, i, lo, bn) + Needs(s1, i, bn)
  {
  }

  lemma {:induction false} NeedsGrow(s: Fs, i: nat, lo: nat, mid: nat, hi: nat)
    requires Shape(s) && i < |s.inodes| && lo <= mid <= hi <= MAXFILE
    ensures NeedsTo(s, i, lo, mid) <= NeedsTo(s, i, lo, hi)
  {
    if mid < hi { NeedsGrow(s, i, lo, mid, hi - 1); }
  }

  lemma RoundSpace(s: Fs, i: nat, off: nat, src: seq<Byte>, tot: nat, s1: Fs, m: nat, s2: Fs)
    requires DataSoFar(s, i, off, src, tot, s1) && tot < |src| && m == PieceLength(off + tot, |src| - tot)
    requires SpaceSoFar(s, i, off, tot, s1) && Uses(s1, Needs(s1, i, (off + tot) / BSIZE), s2)
    requires OneMore(s1, i, (off + tot) / BSIZE, s2) && IndKept(s1, i, (off + tot) / BSIZE, s2)
    requires forall c {:trigger Addr(s1, i, c)} :: BlocksEnd(off, tot) <= c < MAXFILE ==>
      Addr(s1, i, c) == Addr(s, i, c)
    ensures SpaceSoFar(s, i, off, tot + m, s2)
    ensures forall c {:trigger Addr(s2, i, c)} :: BlocksEnd(off, tot + m) <= c < MAXFILE ==>
      Addr(s2, i, c) == Addr(s, i, c)
  {
    var bn := (off + tot) / BSIZE;
    NextBlock(s, i, off, src, tot, s1);
    assert Addr(s1, i, bn) == Addr(s, i, bn);
    NeedsNext(s, i, off / BSIZE, bn, s1);
    forall c | bn + 1 <= c < MAXFILE ensures Addr(s2, i, c) == Addr(s, i, c) { assert Addr(s1, i, c) == Addr(s, i, c); }
  }

  lemma RoundShort(s: Fs, i: nat, off: nat, src: seq<Byte>, tot: nat, log: set<nat>, t: Tally, s1: Fs, log1: set<nat>)
    requires SoFar(s, i, off, src, tot, log, t, s1, log1) && tot < |src| && Short(s1, i, off + tot)
    ensures NoRoom(s, i, off, |src|)
  {
    var bn := (off + tot) / BSIZE;
    NextBlock(s, i, off, src, tot, s1);
    assert Addr(s1, i, bn) == Addr(s, i, bn);
    NeedsNext(s, i, off / BSIZE, bn, s1);
    NeedsGrow(s, i, off / BSIZE, bn + 1, BlocksEnd(off, |src|));
  }

  lemma RoundLog(s: Fs, i: nat, off: nat, src: seq<Byte>, tot: nat, log: set<nat>, t: Tally, s1: Fs, log1: set<nat>,
                 m: nat, a: nat, al: seq<nat>, s2: Fs, log2: set<nat>)
    requires DataSoFar(s, i, off, src, tot, s1) && tot < |src| && m == PieceLength(off + tot, |src| - tot)
    requires LogSoFar(s, i, off, tot, log, t, s1, log1) && Shape(s2) && |s2.inodes| == |s.inodes| && i < |s1.inodes|
    requires IndKept(s1, i, (off + tot) / BSIZE, s2) && Adds(log1, log2, [a] + Ind(s2, i, (off + tot) / BSIZE) + al)
    requires |al| <= Needs(s1, i, (off + tot) / BSIZE)
    ensures LogSoFar(s, i, off, tot + m, log, NextTally(t, a, al), s2, log2)
  {
    PiecesMore(off, tot, m);
    CountMore(s, s1, s2, i, off, src[..tot], off + tot, t, a, al);
    TallyMore(log, log1, log2, s1, s2, i, (off + tot) / BSIZE, t, a, al);
  }

  /** A round of writei: the bytes, the blocks that came in, what was taken and what was logged. */
  ghost predicate PieceDone(s: Fs, i: nat, off: nat, data: seq<Byte>, a: nat, al: seq<nat>,
                            log: set<nat>, s': Fs, log': set<nat>)
  {
    match s'
    case Fs(_, _, _, inodes, _) =>
      var bn := off / BSIZE;
      && bn < MAXFILE && Wrote(s, i, off, data, s') && IndKept(s, i, bn, s')
      && (forall c {:trigger Addr(s', i, c)} :: 0 <= c < MAXFILE && c != bn ==> Addr(s', i, c) == Addr(s, i, c))
      && (Addr(s, i, bn) != 0 ==> inodes == s.inodes)
      && Uses(s, Needs(s, i, bn), s') && |al| <= Needs(s, i, bn) && Adds(log, log', [a] + Ind(s', i, bn) + al)
  }

  lemma RoundDone(s: Fs, i: nat, off: nat, src: seq<Byte>, tot: nat, log: set<nat>, t: Tally, s1: Fs, log1: set<nat>,
                  m: nat, a: nat, al: seq<nat>, s2: Fs, log2: set<nat>)
    requires SoFar(s, i, off, src, tot, log, t, s1, log1) && tot < |src| && m == PieceLength(off + tot, |src| - tot)
    requires PieceDone(s1, i, off + tot, src[tot..tot+m], a, al, log1, s2, log2)
    ensures SoFar(s, i, off, src, tot + m, log, NextTally(t, a, al), s2, log2)
  {
    RoundData(s, i, off, src, tot, s1, m, s2);
    RoundSpace(s, i, off, src, tot, s1, m, s2);
    RoundLog(s, i, off, src, tot, log, t, s1, log1, m, a, al, s2, log2);
  }

  function Pieces(off: nat, tot: nat): nat {
    if tot == 0 then 0 else (off % BSIZE + tot + BSIZE - 1) / BSIZE
  }

  lemma PiecesMore(off: nat, tot: nat, m: nat)
    requires 1 <= m <= BSIZE - (off + tot) % BSIZE && (tot > 0 ==> (off + tot) % BSIZE == 0)
    ensures Pieces(off, tot + m) == Pieces(off, tot) + 1
    ensures m == BSIZE - (off + tot) % BSIZE ==> (off + tot + m) % BSIZE == 0
  {
    var q := off % BSIZE + tot;
    if tot > 0 {
      assert q % BSIZE == 0;
      var x := q / BSIZE;
      assert q == BSIZE * x;
      assert Pieces(off, tot) == x && Pieces(off, tot + m) == x + 1;
    }
  }

  ghost function Indirects(s: Fs, i: nat): seq<nat>
    requires Shape(s) && i < |s.inodes|
  {
    var a := s.inodes[i].addrs[NDIRECT];
    if a == 0 then [] else [a]
  }

  /** Every round writes one data block. Every round but one into a block that was there may
      allocate one, and one of them an indirect block too. */
  ghost predicate Counted(s: Fs, i: nat, off: nat, t: Tally, s': Fs) {
    && Shape(s) && Shape(s') && i < |s.inodes| == |s'.inodes| && off / BSIZE < MAXFILE + 1
    && |t.d| <= t.p
    && (s.inodes[i].addrs[NDIRECT] != 0 ==> s'.inodes[i].addrs[NDIRECT] != 0)
    && |t.b| <= t.p - (if t.p > 0 && off / BSIZE < MAXFILE && Addr(s, i, off / BSIZE) != 0 then 1 else 0)
                + (if s.inodes[i].addrs[NDIRECT] == 0 && s'.inodes[i].addrs[NDIRECT] != 0 then 1 else 0)
  }

  lemma CountMore(s: Fs, s1: Fs, s2: Fs, i: nat, off: nat, data: seq<Byte>, o: nat, t: Tally, a: nat, al: seq<nat>)
    requires Wrote(s, i, off, data, s1) && Counted(s, i, off, t, s1) && o / BSIZE < MAXFILE && (t.p == 0 ==> o == off)
    requires Shape(s2) && |s2.inodes| == |s.inodes| && IndKept(s1, i, o / BSIZE, s2) && |al| <= Needs(s1, i, o / BSIZE)
    requires t.p == 0 ==> s1 == s
    ensures Counted(s, i, off, NextTally(t, a, al), s2)
  {
  }

  lemma TallyMore(log: set<nat>, log1: set<nat>, log2: set<nat>, s1: Fs, s2: Fs, i: nat, bn: nat,
                  t: Tally, a: nat, al: seq<nat>)
    requires Shape(s1) && Shape(s2) && i < |s1.inodes| == |s2.inodes| && IndKept(s1, i, bn, s2)
    requires Adds(log, log1, t.d + t.b + Indirects(s1, i)) && Adds(log1, log2, [a] + Ind(s2, i, bn) + al)
    ensures Adds(log, log2, (t.d + [a]) + (t.b + al) + Indirects(s2, i))
  {
  }

  /** A chunk that starts inside a block starts in one that is there. */
  lemma Spent(s: Fs, i: nat, off: nat, n: nat, t: Tally, s': Fs, logged: set<nat>)
    requires Inv(s) && i < |s.inodes| && off <= s.inodes[i].size && Counted(s, i, off, t, s') && t.p == Pieces(off, n)
    requires n <= CHUNK
    requires Adds({}, logged, t.d + t.b + Indirects(s', i)) && off + n <= MAXFILE * BSIZE
    ensures |logged| <= MAXOPBLOCKS - 1
  {
    assert CHUNK == (MAXOPBLOCKS - 1 - 1 - 2) / 2 * 512;
    var q := t.d + t.b + Indirects(s', i);
    SetSmall(q);
    assert logged <= SetOf(q);
    SubsetSize(logged, SetOf(q));
    if off % BSIZE != 0 && n > 0 { assert FullAt(s, i, off / BSIZE); }
  }

  // -------------------------------------------------------------------- truncation

  function ZeroTo(a: seq<nat>, k: nat): (z: seq<nat>)
    ensures |z| == |a| && forall x :: 0 <= x < |a| ==> z[x] == if x < k then 0 else a[x]
  {
    seq(|a|, x requires 0 <= x < |a| => if x < k then 0 else a[x])
  }

  lemma ZeroMore(a: seq<nat>, k: nat)
    requires k < |a|
    ensures ZeroTo(a, k + 1) == ZeroTo(a, k)[k := 0] && (a[k] == 0 ==> ZeroTo(a, k + 1) == ZeroTo(a, k))
  {
    assert ZeroTo(a, k + 1) == ZeroTo(a, k)[k := 0];
    assert a[k] == 0 ==> ZeroTo(a, k + 1) == ZeroTo(a, k);
  }

  /** The bitmap blocks of the first `k` data blocks of inode `i`. */
  ghost function Marks(lay: Layout, s: Fs, i: nat, k: nat): set<nat>
    requires Shape(s) && i < |s.inodes| && k <= MAXFILE
  {
    if k == 0 then {} else Marks(lay, s, i, k - 1) + Mark(lay, Addr(s, i, k - 1))
  }

  ghost function Mark(lay: Layout, a: nat): set<nat> { if a == 0 then {} else {BitBlock(lay, a)} }

  /** The bitmap blocks under which the blocks of inode `i` lie. */
  ghost function BitmapBlocks(lay: Layout, s: Fs, i: nat): set<nat>
    requires Shape(s) && i < |s.inodes|
  {
    Marks(lay, s, i, MAXFILE) + Mark(lay, s.inodes[i].addrs[NDIRECT])
  }

  lemma {:induction false} NoMarks(lay: Layout, s: Fs, i: nat, k: nat)
    requires Shape(s) && i < |s.inodes| && NDIRECT <= k <= MAXFILE && s.inodes[i].addrs[NDIRECT] == 0
    ensures Marks(lay, s, i, k) == Marks(lay, s, i, NDIRECT)
  {
    if k > NDIRECT { NoMarks(lay, s, i, k - 1); }
  }

  /** These are the blocks that hold the bits of the inode's data blocks and its indirect block. */
  lemma BitmapBlocksAre(lay: Layout, s: Fs, i: nat, c: nat)
    requires Shape(s) && i < |s.inodes|
    ensures c in BitmapBlocks(lay, s, i) <==>
      || (s.inodes[i].addrs[NDIRECT] != 0 && c == BitBlock(lay, s.inodes[i].addrs[NDIRECT]))
      || exists bn :: 0 <= bn < MAXFILE && Addr(s, i, bn) != 0 && c == BitBlock(lay, Addr(s, i, bn))
  {
    MarksAre(lay, s, i, MAXFILE, c);
  }

  lemma {:induction false} MarksAre(lay: Layout, s: Fs, i: nat, k: nat, c: nat)
    requires Shape(s) && i < |s.inodes| && k <= MAXFILE
    ensures c in Marks(lay, s, i, k) <==>
      exists bn :: 0 <= bn < k && Addr(s, i, bn) != 0 && c == BitBlock(lay, Addr(s, i, bn))
  {
    if k > 0 { MarksAre(lay, s, i, k - 1, c); }
  }

  /** The bitmap blocks lie between the inode blocks and the data. */
  lemma {:induction false} MarksIn(lay: Layout, s: State, i: nat, k: nat)
    requires Stored(lay, s.d, s.f) && i < |s.f.inodes| && k <= MAXFILE
    ensures Marks(lay, s.f, i, k) <= Range(lay.bmap, lay.bmap + (|s.d| + BPB - 1) / BPB)
  {
    if k > 0 {
      MarksIn(lay, s, i, k - 1);
      assert AddrOk(s.f, i, k - 1);
      MarkIn(lay, |s.d|, Addr(s.f, i, k - 1));
    }
  }

  lemma MarkIn(lay: Layout, size: nat, a: nat)
    requires a == 0 || a < size
    ensures Mark(lay, a) <= Range(lay.bmap, lay.bmap + (size + BPB - 1) / BPB)
  {
    if a != 0 { assert Between(lay.bmap, BitBlock(lay, a), lay.bmap + (size + BPB - 1) / BPB); }
  }

  lemma BitmapBlocksIn(lay: Layout, s: State, i: nat)
    requires Stored(lay, s.d, s.f) && i < |s.f.inodes|
    ensures BitmapBlocks(lay, s.f, i) <= Range(lay.bmap, lay.bmap + (|s.d| + BPB - 1) / BPB)
    ensures InodeBlock(lay, i) !in BitmapBlocks(lay, s.f, i)
  {
    MarksIn(lay, s, i, MAXFILE);
    assert IndirectOk(s.f, i);
    MarkIn(lay, |s.d|, s.f.inodes[i].addrs[NDIRECT]);
    Places(lay, |s.d|, |s.f.inodes|);
    assert InodeBlock(lay, i) !in Range(lay.bmap, lay.bmap + (|s.d| + BPB - 1) / BPB);
  }

  /** The budget is kept exactly if the blocks of the inode lie under fewer than MAXOPBLOCKS
      bitmap blocks. */
  lemma DropBudget(lay: Layout, s: State, i: nat)
    requires Stored(lay, s.d, s.f) && i < |s.f.inodes|
    ensures |BitmapBlocks(lay, s.f, i) + {InodeBlock(lay, i)}| <= MAXOPBLOCKS <==>
      |BitmapBlocks(lay, s.f, i)| < MAXOPBLOCKS
  {
    BitmapBlocksIn(lay, s, i);
  }

  /** So it is for every inode on a disk with fewer than MAXOPBLOCKS bitmap blocks. */
  lemma SmallDisk(lay: Layout, s: State, i: nat)
    requires Stored(lay, s.d, s.f) && i < |s.f.inodes| && |s.d| <= (MAXOPBLOCKS - 1) * BPB
    ensures |BitmapBlocks(lay, s.f, i)| < MAXOPBLOCKS
  {
    BitmapBlocksIn(lay, s, i);
    RangeSize(lay.bmap, lay.bmap + (|s.d| + BPB - 1) / BPB);
    SubsetSize(BitmapBlocks(lay, s.f, i), Range(lay.bmap, lay.bmap + (|s.d| + BPB - 1) / BPB));
  }

  /** Of the data blocks of inode `i` the first `k` are free; every other block is as it was. */
  ghost predicate CutAt(s: Fs, i: nat, k: nat, s': Fs, b: nat)
    requires Shape(s) && Shape(s') && b < |s.blocks| == |s'.blocks|
  {
    if s.owner[b].Data? && s.owner[b].i == i && s.owner[b].bn < k then s'.owner[b] == Free && !s'.bits[b]
    else s'.owner[b] == s.owner[b] && s'.bits[b] == s.bits[b]
  }

  ghost predicate Cut(s: Fs, i: nat, k: nat, s': Fs) {
    && Shape(s) && Shape(s') && s'.start == s.start && s'.blocks == s.blocks
    && forall b :: 0 <= b < |s.blocks| ==> CutAt(s, i, k, s', b)
  }

  /** The next block is in use, so bfree does not panic. */
  lemma CutBit(s: Fs, i: nat, k: nat, s1: Fs)
    requires Inv(s) && i < |s.inodes| && k < MAXFILE && Cut(s, i, k, s1)
    ensures Addr(s, i, k) != 0 ==> Addr(s, i, k) < |s1.bits| && s1.bits[Addr(s, i, k)]
  {
    assert AddrOk(s, i, k);
    if Addr(s, i, k) != 0 { assert CutAt(s, i, k, s1, Addr(s, i, k)) && BlockOk(s, Addr(s, i, k)); }
  }

  lemma CutMore(s: Fs, i: nat, k: nat, s1: Fs, s2: Fs)
    requires Inv(s) && i < |s.inodes| && k < MAXFILE && Cut(s, i, k, s1) && Shape(s2)
    requires var a := Addr(s, i, k);
      if a == 0 then s2.(inodes := s1.inodes) == s1
      else a < |s1.bits| && s2.(inodes := s1.inodes) == s1.(bits := s1.bits[a := false], owner := s1.owner[a := Free])
    ensures Cut(s, i, k + 1, s2)
  {
    var k' := k + 1;
    assert AddrOk(s, i, k);
    forall b | 0 <= b < |s.blocks| ensures CutAt(s, i, k', s2, b) {
      assert CutAt(s, i, k, s1, b) && BlockOk(s, b);
    }
  }

  ghost predicate OfInode(o: Owner, i: nat) { (o.Data? || o.Indirect?) && o.i == i }

  ghost predicate GoneAt(s: Fs, i: nat, s': Fs, b: nat)
    requires Shape(s) && Shape(s') && b < |s.blocks| == |s'.blocks|
  {
    if OfInode(s.owner[b], i) then s'.owner[b] == Free && !s'.bits[b]
    else s'.owner[b] == s.owner[b] && s'.bits[b] == s.bits[b]
  }

  ghost predicate Gone(s: Fs, i: nat, s': Fs) {
    && Shape(s) && Shape(s') && s'.start == s.start && s'.blocks == s.blocks
    && forall b :: 0 <= b < |s.blocks| ==> GoneAt(s, i, s', b)
  }

  lemma GoneStill(s: Fs, i: nat, s1: Fs, s2: Fs)
    requires Gone(s, i, s1) && Shape(s2) && s2.(inodes := s1.inodes) == s1
    ensures Gone(s, i, s2)
  {
    forall b | 0 <= b < |s.blocks| ensures GoneAt(s, i, s2, b) { assert GoneAt(s, i, s1, b); }
  }

  lemma CutIndirect(s: Fs, i: nat, s1: Fs)
    requires Inv(s) && i < |s.inodes| && Cut(s, i, MAXFILE, s1) && s.inodes[i].addrs[NDIRECT] != 0
    ensures var a := s.inodes[i].addrs[NDIRECT]; a < |s1.bits| && s1.bits[a]
  {
    assert IndirectOk(s, i);
    var a := s.inodes[i].addrs[NDIRECT];
    assert CutAt(s, i, MAXFILE, s1, a) && BlockOk(s, a);
  }

  lemma CutGone(s: Fs, i: nat, s1: Fs, s2: Fs)
    requires Inv(s) && i < |s.inodes| && Cut(s, i, MAXFILE, s1) && s.inodes[i].addrs[NDIRECT] != 0 && Shape(s2)
    requires var a := s.inodes[i].addrs[NDIRECT];
      a < |s1.bits| && s2.(inodes := s1.inodes) == s1.(bits := s1.bits[a := false], owner := s1.owner[a := Free])
    ensures Gone(s, i, s2)
  {
    assert IndirectOk(s, i);
    forall b | 0 <= b < |s.blocks| ensures GoneAt(s, i, s2, b) {
      assert CutAt(s, i, MAXFILE, s1, b) && BlockOk(s, b);
    }
  }

  lemma NoneListed(s: Fs, i: nat, s1: Fs)
    requires Inv(s) && i < |s.inodes| && Cut(s, i, NDIRECT, s1) && s.inodes[i].addrs[NDIRECT] == 0
    requires s1.inodes == s.inodes[i := s.inodes[i].(addrs := ZeroTo(s.inodes[i].addrs, NDIRECT))]
    ensures Gone(s, i, s1) && s1.inodes == s.inodes[i := s.inodes[i].(addrs := ZeroTo(s.inodes[i].addrs, NDIRECT + 1))]
  {
    forall b | 0 <= b < |s.blocks| ensures GoneAt(s, i, s1, b) {
      assert CutAt(s, i, NDIRECT, s1, b) && BlockOk(s, b);
    }
    assert ZeroTo(s.inodes[i].addrs, NDIRECT) == ZeroTo(s.inodes[i].addrs, NDIRECT + 1);
  }

  /** Inode `i` is empty, its blocks are free, and all other files are as before. */
  ghost predicate Truncated(s: Fs, i: nat, s': Fs) {
    && Inv(s) && Inv(s') && i < |s.inodes| == |s'.inodes| && Gone(s, i, s')
    && s'.inodes[i].size == 0 && (forall k :: 0 <= k <= NDIRECT ==> s'.inodes[i].addrs[k] == 0)
    && forall j :: 0 <= j < |s.inodes| && j != i ==> FileKept(s, s', j)
  }

  lemma GoneAddr(s: Fs, i: nat, s': Fs, j: nat, c: nat)
    requires Inv(s) && i < |s.inodes| && Gone(s, i, s') && j < |s.inodes| && c < MAXFILE
    requires |s'.inodes| == |s.inodes| && forall k :: 0 <= k < |s.inodes| && k != i ==> s'.inodes[k] == s.inodes[k]
    requires forall k :: 0 <= k <= NDIRECT ==> s'.inodes[i].addrs[k] == 0
    ensures Addr(s', j, c) == if j == i then 0 else Addr(s, j, c)
  {
  }

  lemma TruncatedInv(s: Fs, i: nat, s': Fs)
    requires Inv(s) && i < |s.inodes| && Gone(s, i, s')
    requires |s'.inodes| == |s.inodes| && s'.inodes == s.inodes[i := s'.inodes[i]]
    requires s'.inodes[i].size == 0 && forall k :: 0 <= k <= NDIRECT ==> s'.inodes[i].addrs[k] == 0
    ensures Truncated(s, i, s')
  {
    forall b | 0 <= b < |s'.blocks| ensures BlockOk(s', b) {
      assert BlockOk(s, b) && GoneAt(s, i, s', b);
      if s'.owner[b].Data? { GoneAddr(s, i, s', s'.owner[b].i, s'.owner[b].bn); }
    }
    forall j, c | 0 <= j < |s'.inodes| && 0 <= c < MAXFILE ensures AddrOk(s', j, c) && FullAt(s', j, c) {
      assert AddrOk(s, j, c) && FullAt(s, j, c);
      GoneAddr(s, i, s', j, c);
      if Addr(s, j, c) != 0 { assert GoneAt(s, i, s', Addr(s, j, c)); }
    }
    forall j | 0 <= j < |s'.inodes| ensures IndirectOk(s', j) {
      assert IndirectOk(s, j);
      if s.inodes[j].addrs[NDIRECT] != 0 { assert GoneAt(s, i, s', s.inodes[j].addrs[NDIRECT]); }
    }
    forall j | 0 <= j < |s.inodes| && j != i ensures FileKept(s, s', j) {
      forall k | 0 <= k < s.inodes[j].size ensures Contents(s', j)[k] == Contents(s, j)[k] {
        GoneAddr(s, i, s', j, k / BSIZE);
        ContentsAt(s, j, k);
        ContentsAt(s', j, k);
      }
    }
  }

  lemma OthersSame(s: Fs, i: nat, s': Fs)
    requires Truncated(s, i, s')
    ensures s'.inodes == s.inodes[i := s'.inodes[i]]
  {
    forall j | 0 <= j < |s.inodes| && j != i ensures s'.inodes[j] == s.inodes[j] { assert FileKept(s, s', j); }
  }

  // ------------------------------------------------------------------------ chunks

  function MinChunk(n: nat): nat { if n > CHUNK then CHUNK else n }

  /** Writing goes on where it stopped. */
  lemma {:induction false} OverwriteOn(c: seq<Byte>, off: nat, addr: seq<Byte>, n: nat, data: seq<Byte>, m: nat)
    requires off <= |c| && n + m <= |addr| && m <= |data| && forall k :: 0 <= k < m ==> data[k] == addr[n + k]
    ensures OverwriteTo(OverwriteTo(c, off, addr, n), off + n, data, m) == OverwriteTo(c, off, addr, n + m)
  {
    if m > 0 { OverwriteOn(c, off, addr, n, data, m - 1); }
  }

  /** The first `n` bytes of `addr` were written at `off`, and nothing else. */
  ghost predicate Appended(s: Fs, i: nat, off: nat, addr: seq<Byte>, n: nat, s': Fs)
    requires n <= |addr|
  {
    match s'
    case Fs(_, _, _, inodes, _) =>
      if n == 0 then s' == s
      else
        && Inv(s) && Inv(s') && |inodes| == |s.inodes| && i < |s.inodes| && off <= s.inodes[i].size
        && Contents(s', i) == OverwriteTo(Contents(s, i), off, addr, n) && inodes[i].dev == s.inodes[i].dev
        && forall j :: 0 <= j < |s.inodes| && j != i ==> FileKept(s, s', j)
  }

  lemma AppendMore(s: Fs, s1: Fs, s2: Fs, i: nat, off: nat, addr: seq<Byte>, n: nat, data: seq<Byte>)
    requires 0 < |data| && n + |data| <= |addr| && Appended(s, i, off, addr, n, s1) && Written(s1, i, off + n, data, s2)
    requires forall k :: 0 <= k < |data| ==> data[k] == addr[n + k]
    ensures Appended(s, i, off, addr, n + |data|, s2)
  {
    OverwriteOn(Contents(s, i), off, addr, n, data, |data|);
    if n > 0 {
      forall j | 0 <= j < |s.inodes| && j != i
        ensures FileKept(s, s2, j)
      {
        assert FileKept(s, s1, j) && FileKept(s1, s2, j);
      }
    }
  }

  /** The transactions so far write the first chunks of `addr`, and lead from `s` to `s'`. */
  ghost predicate Progress(lay: Layout, t: Trace, i: nat, off: nat, addr: seq<Byte>, s: State, s': State) {
    match t
    case Trace(sts, ops, logs) =>
      TraceOk(lay, t) && ChunksOf(i, off, addr, ops) && |sts| == |ops| + 1 && sts[0] == s && sts[|ops|] == s'
  }

  /** A chunk is written, refused, or has no room on the disk. */
  ghost predicate ChunkOutcome(w: Ret, lay: Layout, i: nat, off: nat, addr: seq<Byte>, n: nat,
                               t: Trace, s: State, s1: State, t': Trace, s': State)
    requires n <= |addr|
  {
    match w
    case Count(m) => Progress(lay, t', i, off, addr, s, s') && n < n + m == Chunked(addr, |t'.ops|)
    case Failed => t' == t && s' == s1 && Refused(s1.f, i, off + n, MinChunk(|addr| - n))
    case Panicked => t' == t && s' == s1 && NoRoom(s1.f, i, off + n, MinChunk(|addr| - n))
    case Device => false
  }

  ghost function Longer(t: Trace, op: Op, logged: set<nat>, s: State): Trace {
    Trace(t.sts + [s], t.ops + [op], t.logs + [logged])
  }

  lemma LastStep(lay: Layout, t: Trace, op: Op, logged: set<nat>, s: State)
    requires |t.ops| == |t.logs| && |t.sts| == |t.ops| + 1 && Trans(lay, t.sts[|t.ops|], op, logged, s)
    ensures StepOk(lay, Longer(t, op, logged, s), |t.ops|)
  {
    var t' := Longer(t, op, logged, s);
    assert t'.sts[|t.ops|] == t.sts[|t.ops|] && t'.sts[|t.ops| + 1] == s;
  }

  /** One more. */
  lemma ProgressMore(lay: Layout, t: Trace, i: nat, off: nat, addr: seq<Byte>, s: State, s1: State,
                     n: nat, logged: set<nat>, s2: State) returns (t': Trace)
    requires Progress(lay, t, i, off, addr, s, s1) && n == Chunked(addr, |t.ops|) < |addr|
    requires Trans(lay, s1, ChunkOp(i, off, addr, n), logged, s2)
    ensures Progress(lay, t', i, off, addr, s, s2) && Chunked(addr, |t'.ops|) == n + MinChunk(|addr| - n)
  {
    t' := Longer(t, ChunkOp(i, off, addr, n), logged, s2);
    LastStep(lay, t, ChunkOp(i, off, addr, n), logged, s2);
    StepsMore(lay, t, t');
    ChunksMore(i, off, addr, t.ops, n);
  }

  lemma StepsMore(lay: Layout, t: Trace, t': Trace)
    requires TraceOk(lay, t) && |t'.ops| == |t'.logs| == |t.ops| + 1 && |t'.sts| == |t.sts| + 1
    requires t'.sts[..|t.sts|] == t.sts && t'.ops[..|t.ops|] == t.ops && t'.logs[..|t.logs|] == t.logs
    requires StepOk(lay, t', |t.ops|)
    ensures TraceOk(lay, t')
  {
    forall k | 0 <= k < |t'.ops| ensures StepOk(lay, t', k) {
      if k < |t.ops| {
        assert StepOk(lay, t, k);
        assert t'.sts[k] == t.sts[k] && t'.sts[k + 1] == t.sts[k + 1];
        assert t'.ops[k] == t.ops[k] && t'.logs[k] == t.logs[k];
      }
    }
  }

  lemma ChunksMore(i: nat, off: nat, addr: seq<Byte>, ops: seq<Op>, n: nat)
    requires ChunksOf(i, off, addr, ops) && n == Chunked(addr, |ops|) < |addr|
    ensures ChunksOf(i, off, addr, ops + [ChunkOp(i, off, addr, n)])
  {
    var ops' := ops + [ChunkOp(i, off, addr, n)];
    forall k | 0 <= k < |ops'| ensures ChunkIs(i, off, addr, ops'[k], Chunked(addr, k)) {
      if k < |ops| { assert ops'[k] == ops[k]; } else { assert k == |ops|; }
    }
  }

  /** After `k` transactions the first `k` chunks are in the file. */
  lemma {:induction false} ChunksWritten(t: Trace, i: nat, off: nat, addr: seq<Byte>, k: nat)
    requires Effects(t) && ChunksOf(i, off, addr, t.ops) && k <= |t.ops|
    ensures Appended(t.sts[0].f, i, off, addr, Chunked(addr, k), t.sts[k].f)
  {
    if k > 0 {
      ChunksWritten(t, i, off, addr, k - 1);
      assert EffectAt(t, k - 1) && ChunkIs(i, off, addr, t.ops[k - 1], Chunked(addr, k - 1));
      ChunkAppended(t.sts[0].f, t.sts[k - 1].f, t.sts[k].f, i, off, addr, t.ops[k - 1],
                    Chunked(addr, k - 1), Chunked(addr, k));
    }
  }

  lemma ChunkAppended(s: Fs, s1: Fs, s2: Fs, i: nat, off: nat, addr: seq<Byte>, op: Op, n: nat, n': nat)
    requires ChunkIs(i, off, addr, op, n) && Appended(s, i, off, addr, n, s1) && Written(s1, op.i, op.off, op.data, s2)
    requires n' == n + MinChunk(|addr| - n)
    ensures Appended(s, i, off, addr, n', s2)
  {
    AppendMore(s, s1, s2, i, off, addr, n, op.data);
  }

  lemma ProgressWritten(lay: Layout, t: Trace, i: nat, off: nat, addr: seq<Byte>, s: State, s': State)
    requires Progress(lay, t, i, off, addr, s, s')
    ensures Appended(s.f, i, off, addr, Chunked(addr, |t.ops|), s'.f)
  {
    TraceEffects(lay, t);
    ChunksWritten(t, i, off, addr, |t.ops|);
  }
}
