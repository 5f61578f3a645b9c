/** The transaction budget is not too generous: a volume on which one chunk of filewrite logs exactly MAXOPBLOCKS
    blocks, four of data, four of bitmap, the indirect block and the inode's. */
module FullChunk {
  import opened Bytes
  import opened Volume
  import opened Space
  import opened FileSystem
  import opened VolumeLayout
  import FileLayer
  import LogDisk

  const SB: Superblock := Superblock(16384, 8, 32, 34)

  /** One free block for each bitmap block. */
  const FREE: set<nat> := {100, 4196, 8292, 12388}

  /** A file of twelve direct blocks. */
  function Twelve(k: nat): Word { if k < NDIRECT then 50 + k else 0 }

  function FullInode(i: nat): (di: Dinode)
    ensures |di.addrs| == NDIRECT + 1 && forall k :: 0 <= k <= NDIRECT ==>
      di.addrs[k] == if i == 1 then Twelve(k) else 0
  {
    if i == 1 then Dinode(T_FILE, 0, 0, 1, NDIRECT * BSIZE, seq(NDIRECT + 1, (k: nat) => Twelve(k)))
    else Dinode(0, 0, 0, 0, 0, Zeros())
  }

  function FullTable(): (t: Table)
    ensures |t| == 8 && forall i :: 0 <= i < 8 ==> t[i] == FullInode(i)
  {
    seq(8, (i: nat) => FullInode(i))
  }

  /** Where the file's blocks are, and what is free. */
  ghost predicate FullBlocks(d: Disk, t: Table) {
    && Shaped(SB, d, t) && |t| == 8 && (forall c :: 0 <= c < SB.size ==> (Used(SB, d, c) <==> c !in FREE))
    && forall k :: 0 <= k < NSLOTS ==> Addr(SB, d, t, 1, k) == if k < NDIRECT then 50 + k else 0
  }

  lemma FullWf(d: Disk, t: Table)
    requires Shaped(SB, d, t) && |t| == 8 && (forall c :: 0 <= c < SB.size ==> (Used(SB, d, c) <==> c !in FREE))
    requires forall i, k {:trigger t[i].addrs[k]} :: 0 <= i < 8 && 0 <= k <= NDIRECT ==>
      t[i].addrs[k] == if i == 1 then Twelve(k) else 0
    requires forall i :: 0 <= i < 8 ==> t[i].size == if i == 1 then NDIRECT * BSIZE else 0
    ensures Wf(SB, d, t) && NoHoles(SB, d, t) && FullBlocks(d, t)
  {
    DirectVolume(SB, d, t, FREE);
    forall i, bn | 0 <= i < 8 && 0 <= bn < MAXFILE && bn * BSIZE < t[i].size
      ensures Addr(SB, d, t, i, DataSlot(bn)) != 0
    {
      assert i == 1 && bn < NDIRECT;
    }
  }

  /** The volume is in order, and its free blocks are FREE. */
  lemma FullVolume(d: Disk, t: Table)
    requires SB.Ok(ZeroDisk(SB.size)) && t == FullTable() && d == Laid(SB, ZeroDisk(SB.size), t, FREE)
    ensures Wf(SB, d, t) && NoHoles(SB, d, t) && (forall i :: 0 <= i < 8 ==> OnDisk(SB, d, i) == t[i])
    ensures FullBlocks(d, t)
  {
    LaidOut(SB, ZeroDisk(SB.size), t, FREE);
    forall i | 0 <= i < 8
      ensures t[i].size == (if i == 1 then NDIRECT * BSIZE else 0)
      ensures forall k :: 0 <= k <= NDIRECT ==> t[i].addrs[k] == if i == 1 then Twelve(k) else 0
    {
      assert t[i] == FullInode(i);
    }
    FullWf(d, t);
  }

  /** Blocks 12 .. 15 of the file and its indirect block are missing, as many as there are free blocks. */
  lemma FourMissing(d: Disk, t: Table)
    requires FullBlocks(d, t)
    ensures Missing(SB, d, t, 1, 11, 15) == 4 == NFree(SB, d)
  {
    assert FreeBlocks(SB, d) == FREE;
    assert DataMissing(SB, d, t, 1, 11, 11) == 0;
    assert DataMissing(SB, d, t, 1, 11, 12) == 0;
    assert DataMissing(SB, d, t, 1, 11, 13) == 1;
    assert DataMissing(SB, d, t, 1, 11, 14) == 2;
    assert DataMissing(SB, d, t, 1, 11, 15) == 3;
  }

  /** The address that slot k of the file has got. */
  lemma NewAddr(d: Disk, t: Table, d': Disk, t': Table, k: nat)
    requires Shaped(SB, d, t) && Wf(SB, d', t') && |t| == |t'| == 8 && 12 <= k <= 15
    requires forall c :: 0 <= c < SB.size ==> (Used(SB, d, c) <==> c !in FREE)
    requires Addr(SB, d, t, 1, k) == 0 != Addr(SB, d', t', 1, k) && NewWereFree(SB, d, t, d', t', 1)
    ensures Addr(SB, d', t', 1, k) in FREE
  {
  }

  lemma Apart(d: Disk, t: Table, k: nat, l: nat)
    requires Wf(SB, d, t) && |t| == 8 && k < l < NSLOTS && Addr(SB, d, t, 1, k) != 0
    ensures Addr(SB, d, t, 1, k) != Addr(SB, d, t, 1, l)
  {
    assert Pair(1, k, 1, l);
  }

  /** Ten blocks: a data block and four new ones, which are all of FREE, a bitmap block for each of these, and the block
      of the inode. */
  lemma TenBlocks(x0: nat, x1: nat, x2: nat, x3: nat, log: set<nat>)
    requires x0 in FREE && x1 in FREE && x2 in FREE && x3 in FREE
    requires x0 != x1 && x0 != x2 && x0 != x3 && x1 != x2 && x1 != x3 && x2 != x3
    requires {61, x0, x1, x2, x3} <= log && SB.IBlock(1) in log
    requires {SB.BBlock(x0), SB.BBlock(x1), SB.BBlock(x2), SB.BBlock(x3)} <= log
    ensures |log| >= 10
  {
    assert {x0, x1, x2, x3} == FREE;
    var ten := {61, 100, 4196, 8292, 12388, 34, 35, 36, 37, 32};
    assert SB.BBlock(100) == 34 && SB.BBlock(4196) == 35 && SB.BBlock(8292) == 36 && SB.BBlock(12388) == 37;
    assert {SB.BBlock(x0), SB.BBlock(x1), SB.BBlock(x2), SB.BBlock(x3)} == {34, 35, 36, 37};
    assert SB.IBlock(1) == 32;
    assert ten <= log;
    Subset(ten, log);
  }

  /** What the write has logged. */
  lemma AllLogged(d: Disk, t: Table, d': Disk, t': Table, log: set<nat>)
    requires FullBlocks(d, t) && Wf(SB, d', t') && |t'| == 8
    requires Filled(SB, d, t, d', t', 1, 11, 15) && Touched(SB, d, t, d', t', 1, 11, 15, log) && SB.IBlock(1) in log
    ensures |log| >= 10
  {
    forall bn | 11 <= bn < 15 ensures BlockTouched(SB, d, t, d', t', 1, bn, log) { }
    assert Addr(SB, d', t', 1, DataSlot(12)) != 0 && Addr(SB, d', t', 1, DataSlot(13)) != 0;
    assert Addr(SB, d', t', 1, DataSlot(14)) != 0;
    assert Addr(SB, d', t', 1, DataSlot(11)) == 61;
    NewAddr(d, t, d', t', 12);
    NewAddr(d, t, d', t', 13);
    NewAddr(d, t, d', t', 14);
    NewAddr(d, t, d', t', 15);
    Apart(d', t', 12, 13);
    Apart(d', t', 12, 14);
    Apart(d', t', 12, 15);
    Apart(d', t', 13, 14);
    Apart(d', t', 13, 15);
    Apart(d', t', 14, 15);
    assert BlockTouched(SB, d, t, d', t', 1, 11, log) && BlockTouched(SB, d, t, d', t', 1, 12, log);
    assert BlockTouched(SB, d, t, d', t', 1, 13, log) && BlockTouched(SB, d, t, d', t', 1, 14, log);
    TenBlocks(Addr(SB, d', t', 1, 12), Addr(SB, d', t', 1, 13), Addr(SB, d', t', 1, 14), Addr(SB, d', t', 1, 15), log);
  }

  lemma FullSpan(off: nat)
    requires off == 11 * BSIZE + 1
    ensures off / BSIZE == 11 && Top(off, FileLayer.CHUNK) == 15 && LogCost(off, FileLayer.CHUNK) == LogDisk.MAXOPBLOCKS
    ensures (off + FileLayer.CHUNK) % 0x1_0000_0000 >= off && off + FileLayer.CHUNK <= MAXBYTES
  {
  }

  method WriteFull(fs: Fs, ip: Inode, bytes: seq<Byte>, off: Word) returns (r: IoResult)
    requires |bytes| == FileLayer.CHUNK && off == 11 * BSIZE + 1 && fs.logged == {} && fs.sb == SB && ip.inum == 1
    requires fs.Valid() && fs.Loaded(ip) && NoHoles(fs.sb, fs.disk, fs.table) && fs.Synced()
    requires FullBlocks(fs.disk, fs.table) && ip.kind == T_FILE && ip.size == NDIRECT * BSIZE
    modifies fs`disk, fs`logged, fs`table, ip`addrs, ip`size
    ensures r == Count(FileLayer.CHUNK) && |fs.logged| == LogDisk.MAXOPBLOCKS
  {
    FourMissing(fs.disk, fs.table);
    FullSpan(off);
    r := fs.WriteI(ip, bytes, off);
    assert fs.logged - {} == fs.logged;
    AllLogged(old(fs.disk), old(fs.table), fs.disk, fs.table, fs.logged);
  }

  /** A chunk that starts inside block 11 of the file goes through and logs MAXOPBLOCKS blocks, no more and no fewer. */
  method FullTransaction(bytes: seq<Byte>) returns (fs: Fs, r: IoResult)
    requires |bytes| == FileLayer.CHUNK
    ensures r == Count(FileLayer.CHUNK) && |fs.logged| == LogDisk.MAXOPBLOCKS
  {
    var t := FullTable();
    var d := Laid(SB, ZeroDisk(SB.size), t, FREE);
    fs := new Fs(SB, d, t);
    assert t[1] == FullInode(1);
    var ip := new Inode(1, t[1]);
    FullVolume(d, t);
    r := WriteFull(fs, ip, bytes, 11 * BSIZE + 1);
  }
}
