/** mkfs.c: building the image of a volume, file by file, with a counter for an allocator. */
module Mkfs {
  import opened Bytes
  import opened Volume
  import opened Space
  import opened FileSystem
  import opened Directory
  import opened LinkCount
  import opened Sysfile
  import opened VolumeLayout

  // ---------------------------------------------------------------- an image in the making

  predicate InBitmap(sb: Superblock, b: nat) { sb.bmapstart <= b < sb.DataStart() }

  /** The image is `disk`, its inodes t, and the blocks below fb are taken. With the bitmap that balloc will write in
      the end it is g, a well-formed volume; blocks from fb on are zero, and so is the bitmap until then. */
  ghost predicate Draft(sb: Superblock, disk: Disk, g: Disk, t: Table, fb: nat) {
    && Wf(sb, g, t) && |disk| == |g| && sb.DataStart() <= fb <= sb.size
    && (forall c {:trigger Used(sb, g, c)} :: 0 <= c < sb.size ==> (Used(sb, g, c) <==> c < fb))
    && (forall b {:trigger disk[b]} :: 0 <= b < sb.size ==> disk[b] == if InBitmap(sb, b) then ZeroBlock() else g[b])
    && (forall b {:trigger g[b]} :: fb <= b < sb.size ==> g[b] == ZeroBlock())
  }

  /** freeblock++: the next block is nobody's. */
  lemma Bumped(sb: Superblock, disk: Disk, g: Disk, t: Table, fb: nat, g': Disk, fb': nat)
    requires Draft(sb, disk, g, t, fb) && fb < sb.size && fb' == fb + 1 && g' == Allocated(sb, g, fb)
    ensures Draft(sb, disk, g', t, fb') && Unowned(sb, g', t, fb) && Used(sb, g', fb) && g'[fb] == ZeroBlock()
    ensures SameAddrs(sb, g, t, g', t) && SameFiles(sb, g, t, g', t)
  {
    AllocateKeeps(sb, g, t, fb);
    forall c | 0 <= c < sb.size ensures Used(sb, g', c) <==> c < fb' {
      AllocatedBits(sb, g, fb, c);
    }
    assert InBitmap(sb, sb.BBlock(fb));
  }

  /** A fresh block becomes address k of inode i. */
  lemma AddrGiven(sb: Superblock, disk: Disk, g: Disk, t: Table, fb: nat, i: nat, k: nat, b: nat, t': Table)
    requires Draft(sb, disk, g, t, fb) && i < |t| && k <= NDIRECT && Addr(sb, g, t, i, k) == 0
    requires sb.DataStart() <= b < sb.size && Unowned(sb, g, t, b) && Used(sb, g, b) && g[b] == ZeroBlock()
    requires t' == WithAddr(t, i, k, b)
    ensures Draft(sb, disk, g, t', fb) && SameFiles(sb, g, t, g, t') && SameAddrsBut(sb, g, t, g, t', i, k)
    ensures Addr(sb, g, t', i, k) == b
  {
    SetAddr(sb, g, t, i, k, b);
  }

  /** A fresh block becomes entry e of the indirect block of inode i. */
  lemma EntryGiven(sb: Superblock, disk: Disk, g: Disk, t: Table, fb: nat, i: nat, e: nat, k: nat, b: nat, a: nat,
                   disk': Disk, g': Disk)
    requires Draft(sb, disk, g, t, fb) && i < |t| && e < NINDIRECT && a == t[i].addrs[NDIRECT] != 0
    requires k == NDIRECT + 1 + e && Addr(sb, g, t, i, k) == 0
    requires sb.DataStart() <= b < sb.size && Unowned(sb, g, t, b) && Used(sb, g, b) && g[b] == ZeroBlock()
    requires a < |disk| && disk' == disk[a := PutWord(disk[a], e, b)] && g' == g[a := PutWord(g[a], e, b)]
    ensures Draft(sb, disk', g', t, fb) && SameFiles(sb, g, t, g', t)
    ensures SameAddrsBut(sb, g, t, g', t, i, k) && Addr(sb, g', t, i, k) == b
    ensures SameInodeBlocks(sb, disk, disk')
  {
    assert Addr(sb, g, t, i, NDIRECT) == a;
    SetEntry(sb, g, t, i, e, b);
    forall c | 0 <= c < sb.size ensures Used(sb, g', c) == Used(sb, g, c) { }
  }

  /** A block of a file is written. */
  lemma DataGiven(sb: Superblock, disk: Disk, g: Disk, t: Table, fb: nat, i: nat, bn: nat, a: nat, data: Block,
                  disk': Disk, g': Disk)
    requires Draft(sb, disk, g, t, fb) && i < |t| && bn < MAXFILE && a == Addr(sb, g, t, i, DataSlot(bn)) != 0
    requires a < |disk| && disk' == disk[a := data] && g' == g[a := data]
    ensures Draft(sb, disk', g', t, fb) && SameAddrs(sb, g, t, g', t)
    ensures forall j, m :: 0 <= j < |t| && 0 <= m < MAXFILE ==>
      FileBlock(sb, g', t, j, m) == if j == i && m == bn then data else FileBlock(sb, g, t, j, m)
  {
    WriteFileBlock(sb, g, t, i, bn, data);
    forall c | 0 <= c < sb.size ensures Used(sb, g', c) == Used(sb, g, c) { }
  }

  /** A block of inodes is written. */
  lemma InodesGiven(sb: Superblock, disk: Disk, g: Disk, t: Table, fb: nat, b: nat, data: Block, disk': Disk, g': Disk)
    requires Draft(sb, disk, g, t, fb) && sb.inodestart <= b < sb.bmapstart
    requires b < |disk| && disk' == disk[b := data] && g' == g[b := data]
    ensures Draft(sb, disk', g', t, fb) && SameAddrs(sb, g, t, g', t) && SameFiles(sb, g, t, g', t)
  {
    InodeBlockKeeps(sb, g, t, b, data, g');
    forall c | 0 <= c < sb.size ensures Used(sb, g', c) == Used(sb, g, c) { }
  }

  /** No address in use has changed. */
  ghost predicate Kept(sb: Superblock, d: Disk, t: Table, d': Disk, t': Table)
    requires Shaped(sb, d, t) && Shaped(sb, d', t')
  {
    forall j, k {:trigger Addr(sb, d', t', j, k)} :: 0 <= j < |t| && 0 <= k < NSLOTS && Addr(sb, d, t, j, k) != 0 ==>
      Addr(sb, d', t', j, k) == Addr(sb, d, t, j, k)
  }

  /** No block of inodes has changed. */
  ghost predicate SameInodeBlocks(sb: Superblock, disk: Disk, disk': Disk) {
    |disk| == |disk'| && forall b {:trigger disk'[b]} ::
      sb.inodestart <= b < sb.bmapstart && b < |disk| ==> disk'[b] == disk[b]
  }

  /** Addresses have changed at most in slot k of inode i and that of its indirect block. */
  ghost predicate ChangedAt(sb: Superblock, g: Disk, t: Table, g': Disk, t': Table, i: nat, k: nat)
    requires Shaped(sb, g, t) && Shaped(sb, g', t')
  {
    forall j, l {:trigger Addr(sb, g', t', j, l)} ::
      0 <= j < |t| && 0 <= l < NSLOTS && (j != i || (l != k && l != NDIRECT)) ==>
      Addr(sb, g', t', j, l) == Addr(sb, g, t, j, l)
  }

  /** From (disk, g, t) inode i has got a block at slot k, or at its indirect block: nothing else has changed in inodes,
      addresses or files. */
  ghost predicate Enlarged(sb: Superblock, disk: Disk, g: Disk, t: Table, disk': Disk, g': Disk, t': Table, i: nat,
                           k: nat) {
    && Shaped(sb, g, t) && Shaped(sb, g', t') && i < |t| == |t'| && t' == t[i := t[i].(addrs := t'[i].addrs)]
    && SameFiles(sb, g, t, g', t') && Kept(sb, g, t, g', t') && SameInodeBlocks(sb, disk, disk')
    && ChangedAt(sb, g, t, g', t', i, k)
  }

  /** A block was allocated and became slot k of inode i, which was empty. */
  lemma SlotGiven(sb: Superblock, disk: Disk, g: Disk, t: Table, g1: Disk, disk': Disk, g': Disk, i: nat, k: nat)
    requires Shaped(sb, g, t) && Shaped(sb, g1, t) && Shaped(sb, g', t) && i < |t| && k < NSLOTS
    requires SameAddrs(sb, g, t, g1, t) && SameFiles(sb, g, t, g1, t) && Addr(sb, g, t, i, k) == 0
    requires SameAddrsBut(sb, g1, t, g', t, i, k) && SameFiles(sb, g1, t, g', t) && SameInodeBlocks(sb, disk, disk')
    ensures Enlarged(sb, disk, g, t, disk', g', t, i, k)
  {
  }

  lemma EnlargedMore(sb: Superblock, disk: Disk, g: Disk, t: Table, disk1: Disk, g1: Disk, t1: Table,
                     disk2: Disk, g2: Disk, t2: Table, i: nat, k: nat)
    requires Enlarged(sb, disk, g, t, disk1, g1, t1, i, NDIRECT) && Enlarged(sb, disk1, g1, t1, disk2, g2, t2, i, k)
    ensures Enlarged(sb, disk, g, t, disk2, g2, t2, i, k)
  {
  }

  /** tot of the bytes have been appended to file i at off0, in blocks lo .. hi, since the image was (disk0, g0, t0). */
  ghost predicate Appended(sb: Superblock, disk0: Disk, g0: Disk, t0: Table, disk: Disk, g: Disk, t: Table, i: nat,
                           addrs: seq<Word>, bytes: seq<Byte>, off0: nat, tot: nat, lo: nat, hi: nat) {
    && Shaped(sb, g0, t0) && Shaped(sb, g, t) && i < |t0| && tot <= |bytes| && hi <= MAXFILE && |addrs| == NDIRECT + 1
    && t == t0[i := t0[i].(addrs := addrs)] && Kept(sb, g0, t0, g, t) && SameInodeBlocks(sb, disk0, disk)
    && Replaced(sb, g0, t0, g, t, i, off0, bytes, tot)
    && (forall bn {:trigger Addr(sb, g, t, i, DataSlot(bn))} :: lo <= bn < hi ==> Addr(sb, g, t, i, DataSlot(bn)) != 0)
    && forall j, bn {:trigger Addr(sb, g, t, j, DataSlot(bn))} ::
         0 <= j < |t| && 0 <= bn < MAXFILE && !(j == i && lo <= bn < hi) ==>
         Addr(sb, g, t, j, DataSlot(bn)) == Addr(sb, g0, t0, j, DataSlot(bn))
  }

  function One(b: bool): nat { if b then 1 else 0 }

  /** Marks the places where blocks are counted; sums say nothing elsewhere. */
  predicate Asked(n: int) { true }

  /** How many blocks inode i has to be given for block bn, and what becomes of its indirect block. */
  ghost predicate Wants(sb: Superblock, g: Disk, t: Table, i: nat, bn: nat, need: nat)
    requires Shaped(sb, g, t) && i < |t| && bn < MAXFILE
  {
    forall q {:trigger Asked(q)} :: Asked(q) ==>
      need == One(Addr(sb, g, t, i, DataSlot(bn)) == 0) + One(bn >= NDIRECT && t[i].addrs[NDIRECT] == 0)
  }

  ghost predicate IndirectFor(addrs: seq<Word>, addrs': seq<Word>, bn: nat) {
    && |addrs| == |addrs'| == NDIRECT + 1
    && forall q {:trigger Asked(q)} :: Asked(q) ==> (addrs'[NDIRECT] != 0 <==> addrs[NDIRECT] != 0 || bn >= NDIRECT)
  }

  /** The block of a round is missing exactly if the round starts it. */
  lemma StartsBlock(sb: Superblock, disk0: Disk, g0: Disk, t0: Table, disk: Disk, g: Disk, t: Table, i: nat,
                    addrs: seq<Word>, bytes: seq<Byte>, off0: nat, tot: nat, next: nat, bn: nat, at: nat, lo: nat,
                    need: nat)
    requires Appended(sb, disk0, g0, t0, disk, g, t, i, addrs, bytes, off0, tot, lo, bn) && bn < MAXFILE
    requires need == One(at == 0) + One(bn >= NDIRECT && addrs[NDIRECT] == 0)
    requires RoundAt(off0, |bytes|, tot, next, bn, at) && off0 == t0[i].size
    requires NoHoles(sb, g0, t0) && NoExtra(sb, g0, t0)
    ensures Wants(sb, g, t, i, bn, need)
  {
    assert Addr(sb, g, t, i, DataSlot(bn)) == Addr(sb, g0, t0, i, DataSlot(bn));
  }

  /** One round: the file gets its block, and the block its bytes. */
  lemma RoundGiven(sb: Superblock, disk0: Disk, g0: Disk, t0: Table, disk: Disk, g: Disk, t: Table,
                   disk1: Disk, g1: Disk, t1: Table, disk2: Disk, g2: Disk, i: nat, addrs: seq<Word>,
                   addrs': seq<Word>, bytes: seq<Byte>, off0: nat, tot: nat, next: nat, bn: nat, at: nat, lo: nat,
                   hi: nat, data: Block)
    requires Appended(sb, disk0, g0, t0, disk, g, t, i, addrs, bytes, off0, tot, lo, bn)
    requires RoundAt(off0, |bytes|, tot, next, bn, at) && lo <= bn < hi == bn + 1 <= MAXFILE
    requires Enlarged(sb, disk, g, t, disk1, g1, t1, i, DataSlot(bn)) && addrs' == t1[i].addrs
    requires Addr(sb, g1, t1, i, DataSlot(bn)) != 0 && Shaped(sb, g2, t1) && SameAddrs(sb, g1, t1, g2, t1)
    requires SameInodeBlocks(sb, disk1, disk2)
    requires data == Splice(FileBlock(sb, g1, t1, i, bn), at, bytes[tot..next])
    requires forall j, m :: 0 <= j < |t1| && 0 <= m < MAXFILE ==>
      FileBlock(sb, g2, t1, j, m) == if j == i && m == bn then data else FileBlock(sb, g1, t1, j, m)
    ensures Appended(sb, disk0, g0, t0, disk2, g2, t1, i, addrs', bytes, off0, next, lo, hi)
  {
    ReplacedThenSame(sb, g0, t0, g, t, g1, t1, i, off0, bytes, tot);
    assert Spliced(sb, g1, t1, g2, t1, i, bn, at, bytes[tot..next]);
    SpliceExtends(sb, g0, t0, g1, t1, g2, t1, i, off0, bytes, tot, next, bn, at);
    forall m | lo <= m < hi ensures Addr(sb, g2, t1, i, DataSlot(m)) != 0 {
      if m < bn { assert Addr(sb, g, t, i, DataSlot(m)) != 0; }
    }
    forall j, m | 0 <= j < |t1| && 0 <= m < MAXFILE && !(j == i && lo <= m < hi)
      ensures Addr(sb, g2, t1, j, DataSlot(m)) == Addr(sb, g0, t0, j, DataSlot(m))
    {
      assert Addr(sb, g1, t1, j, DataSlot(m)) == Addr(sb, g, t, j, DataSlot(m));
    }
  }

  /** Bytes past the end of a file are zero. */
  ghost predicate ZeroTails(sb: Superblock, g: Disk, t: Table)
    requires Shaped(sb, g, t)
  {
    forall j, pos {:trigger FileByte(sb, g, t, j, pos)} :: 0 <= j < |t| && t[j].size <= pos < MAXBYTES ==>
      FileByte(sb, g, t, j, pos) == 0
  }

  /** No file has blocks past its end. */
  ghost predicate NoExtra(sb: Superblock, g: Disk, t: Table)
    requires Shaped(sb, g, t)
  {
    forall j, bn {:trigger Addr(sb, g, t, j, DataSlot(bn))} ::
      0 <= j < |t| && 0 <= bn < MAXFILE && t[j].size <= bn * BSIZE ==> Addr(sb, g, t, j, DataSlot(bn)) == 0
  }

  /** Blocks of a file of that many bytes, and those that it takes from the volume. */
  function DataBlocks(size: nat): nat { (size + BSIZE - 1) / BSIZE }
  function Cost(size: nat): nat { DataBlocks(size) + if DataBlocks(size) > NDIRECT then 1 else 0 }

  lemma CostGrows(size: nat, size': nat)
    requires size <= size'
    ensures Cost(size) <= Cost(size')
  {
    assert DataBlocks(size) <= DataBlocks(size');
  }

  /** What a round takes: a block if it starts one, and the indirect block if that is the first it is needed for. */
  lemma CostStep(off: nat, off': nat, bn: nat, at: nat)
    requires off == bn * BSIZE + at && at < BSIZE && off < off' <= bn * BSIZE + BSIZE
    ensures DataBlocks(off) == bn + One(at > 0) && DataBlocks(off') == bn + 1
    ensures Cost(off') == Cost(off) + One(at == 0) + One(at == 0 && bn == NDIRECT)
  {
  }

  /** A file has grown from off0 bytes to off, and freeblock from fb0 to fb; ind is its indirect block. */
  ghost predicate Tally(ind: Word, off: nat, fb: nat, off0: nat, fb0: nat) {
    forall q {:trigger Asked(q)} :: Asked(q) ==>
      (ind != 0 <==> DataBlocks(off) > NDIRECT) && fb + Cost(off0) == fb0 + Cost(off)
  }

  lemma TallyStep(addrs: seq<Word>, addrs': seq<Word>, off: nat, off': nat, bn: nat, at: nat, fb: nat, fb': nat,
                  off0: nat, fb0: nat)
    requires IndirectFor(addrs, addrs', bn) && Tally(addrs[NDIRECT], off, fb, off0, fb0)
    requires off == bn * BSIZE + at && at < BSIZE && off < off' <= bn * BSIZE + BSIZE
    requires fb' == fb + One(at == 0) + One(bn >= NDIRECT && addrs[NDIRECT] == 0)
    ensures Tally(addrs'[NDIRECT], off', fb', off0, fb0)
  {
    assert Asked(0);
    CostStep(off, off', bn, at);
  }

  /** A file does not fit that grows from off0 bytes to end, or to less. */
  ghost predicate NoRoom(off0: nat, end: nat, fb0: nat, size: nat) {
    forall q {:trigger Asked(q)} :: Asked(q) ==> fb0 + Cost(end) > size + Cost(off0)
  }

  lemma TallyNoRoom(ind: Word, off: nat, off': nat, end: nat, bn: nat, at: nat, fb: nat, off0: nat, fb0: nat, size: nat)
    requires Tally(ind, off, fb, off0, fb0) && off' <= end
    requires off == bn * BSIZE + at && at < BSIZE && off < off' <= bn * BSIZE + BSIZE
    requires fb + One(at == 0) + One(bn >= NDIRECT && ind == 0) > size
    ensures NoRoom(off0, end, fb0, size)
  {
    assert Asked(0);
    CostStep(off, off', bn, at);
    CostGrows(off', end);
  }

  lemma TallyMore(ind: Word, off: nat, fb: nat, ind': Word, off': nat, fb': nat, off0: nat, fb0: nat)
    requires Tally(ind, off, fb, off0, fb0) && Tally(ind', off', fb', off, fb)
    ensures Tally(ind', off', fb', off0, fb0)
  {
    assert Asked(0);
  }

  lemma NoRoomMore(ind: Word, off: nat, fb: nat, off': nat, end: nat, off0: nat, fb0: nat, size: nat)
    requires Tally(ind, off, fb, off0, fb0) && NoRoom(off, off', fb, size) && off' <= end
    ensures NoRoom(off0, end, fb0, size)
  {
    assert Asked(0);
    CostGrows(off', end);
  }

  /** Files have an indirect block when they need one. */
  ghost predicate Indirect(t: Table) {
    forall j {:trigger Asked(j)} :: Asked(j) && 0 <= j < |t| ==>
      |t[j].addrs| == NDIRECT + 1 && (t[j].addrs[NDIRECT] != 0 <==> DataBlocks(t[j].size) > NDIRECT)
  }

  lemma TallyStart(t: Table, i: nat, fb: nat)
    requires Indirect(t) && i < |t|
    ensures |t[i].addrs| == NDIRECT + 1 && Tally(t[i].addrs[NDIRECT], t[i].size, fb, t[i].size, fb)
  {
    assert Asked(i);
  }

  lemma IndirectAfter(t: Table, t': Table, i: nat, fb: nat, off0: nat, fb0: nat)
    requires Indirect(t) && i < |t| == |t'| && t' == t[i := t'[i]] && |t'[i].addrs| == NDIRECT + 1
    requires Tally(t'[i].addrs[NDIRECT], t'[i].size, fb, off0, fb0)
    ensures Indirect(t')
  {
    forall j | Asked(j) && 0 <= j < |t'|
      ensures |t'[j].addrs| == NDIRECT + 1 && (t'[j].addrs[NDIRECT] != 0 <==> DataBlocks(t'[j].size) > NDIRECT)
    {
    }
  }

  /** The inodes of the image are t. */
  ghost predicate Current(sb: Superblock, disk: Disk, t: Table) {
    && sb.Ok(disk) && |t| == sb.ninodes
    && forall j {:trigger OnDisk(sb, disk, j)} :: 0 <= j < |t| ==> OnDisk(sb, disk, j) == t[j]
  }

  /** An image between two calls. */
  ghost predicate InOrder(sb: Superblock, disk: Disk, g: Disk, t: Table, fb: nat) {
    && Draft(sb, disk, g, t, fb) && NoHoles(sb, g, t) && NoExtra(sb, g, t) && ZeroTails(sb, g, t)
    && Current(sb, disk, t) && Indirect(t)
  }

  /** winode of inode i. */
  lemma InodeStored(sb: Superblock, disk0: Disk, disk: Disk, t: Table, i: nat, di: Dinode, disk': Disk)
    requires Current(sb, disk0, t) && sb.Ok(disk) && SameInodeBlocks(sb, disk0, disk) && i < |t|
    requires |di.addrs| == NDIRECT + 1 && disk' == disk[sb.IBlock(i) := InodeBlock(sb, disk, i, di)]
    ensures Current(sb, disk', t[i := di])
  {
    forall j | 0 <= j < |t| ensures OnDisk(sb, disk', j) == t[i := di][j] {
      assert sb.inodestart <= sb.IBlock(j) < sb.bmapstart;
      assert OnDisk(sb, disk, j) == OnDisk(sb, disk0, j);
      StoreInode(sb, disk, i, di, j);
    }
  }

  /** The fields of an inode do not matter to addresses and blocks. */
  lemma FieldsGiven(sb: Superblock, disk: Disk, g: Disk, t: Table, fb: nat, i: nat, di: Dinode)
    requires Draft(sb, disk, g, t, fb) && i < |t| && di.addrs == t[i].addrs
    ensures Draft(sb, disk, g, t[i := di], fb)
    ensures SameAddrs(sb, g, t, g, t[i := di]) && SameFiles(sb, g, t, g, t[i := di])
  {
    ChangeFields(sb, g, t, i, di);
  }

  /** The end of iappend: what the new size and the bytes make of the files. */
  lemma AppendDone(sb: Superblock, disk0: Disk, g0: Disk, t0: Table, disk: Disk, g: Disk, t: Table, g': Disk, t': Table,
                   i: nat, addrs: seq<Word>, bytes: seq<Byte>, off0: nat, lo: nat, hi: nat)
    requires Appended(sb, disk0, g0, t0, disk, g, t, i, addrs, bytes, off0, |bytes|, lo, hi)
    requires NoHoles(sb, g0, t0) && NoExtra(sb, g0, t0) && ZeroTails(sb, g0, t0)
    requires off0 == t0[i].size && Spans(off0, |bytes|, lo, hi)
    requires off0 + |bytes| <= MAXBYTES && t' == t[i := t[i].(size := off0 + |bytes|)]
    requires Shaped(sb, g', t') && SameAddrs(sb, g, t, g', t') && SameFiles(sb, g, t, g', t')
    ensures NoHoles(sb, g', t') && NoExtra(sb, g', t') && ZeroTails(sb, g', t')
    ensures Contents(sb, g', t', i) == Contents(sb, g0, t0, i) + bytes
    ensures forall j :: 0 <= j < |t0| && j != i ==> Contents(sb, g', t', j) == Contents(sb, g0, t0, j)
  {
    ReplacedThenSame(sb, g0, t0, g, t, g', t', i, off0, bytes, |bytes|);
    ReplacedContents(sb, g0, t0, g', t', i, off0, bytes);
    assert Overwrite(Contents(sb, g0, t0, i), off0, bytes) == Contents(sb, g0, t0, i) + bytes;
    forall j, bn | 0 <= j < |t'| && 0 <= bn < MAXFILE && bn * BSIZE < t'[j].size
      ensures Addr(sb, g', t', j, DataSlot(bn)) != 0
    {
      assert Addr(sb, g', t', j, DataSlot(bn)) == Addr(sb, g, t, j, DataSlot(bn));
      if j != i || bn < lo { assert Addr(sb, g0, t0, j, DataSlot(bn)) != 0; }
    }
    forall j, bn | 0 <= j < |t'| && 0 <= bn < MAXFILE && t'[j].size <= bn * BSIZE
      ensures Addr(sb, g', t', j, DataSlot(bn)) == 0
    {
      assert Addr(sb, g', t', j, DataSlot(bn)) == Addr(sb, g, t, j, DataSlot(bn));
      assert Addr(sb, g0, t0, j, DataSlot(bn)) == 0;
    }
    forall j, pos | 0 <= j < |t'| && t'[j].size <= pos < MAXBYTES ensures FileByte(sb, g', t', j, pos) == 0 {
      assert FileByte(sb, g', t', j, pos) == FileByte(sb, g0, t0, j, pos);
    }
  }

  // ---------------------------------------------------------------- the image at first

  function NoInode(): (di: Dinode)
    ensures |di.addrs| == NDIRECT + 1
  {
    Dinode(0, 0, 0, 0, 0, Zeros())
  }

  function NoInodes(n: nat): (t: Table)
    ensures |t| == n && forall j :: 0 <= j < n ==> t[j] == NoInode()
  {
    seq(n, (j: nat) => NoInode())
  }

  lemma ZeroInode(base: nat)
    requires base + DWORDS <= WORDS
    ensures FromWords(GetWords(ZeroBlock(), base)) == NoInode()
  {
    var ws := GetWords(ZeroBlock(), base);
    forall k | 0 <= k < DWORDS ensures ws[k] == 0 { ZeroBlockWord(base + k); }
    assert ws[3..] == Zeros();
  }

  predicate IsFrom(first: nat, c: nat) { first <= c }

  function FreeFrom(sb: Superblock, first: nat): set<nat> { set c: nat | c < sb.size && IsFrom(first, c) }

  /** The blocks before the data area are taken, and nothing else has been written. */
  lemma NothingYet(sb: Superblock, disk: Disk, g: Disk, free: set<nat>)
    requires disk == ZeroDisk(sb.size) && sb.Ok(disk) && free == FreeFrom(sb, sb.DataStart())
    requires g == Marked(sb, disk, free, sb.size)
    ensures forall c :: 0 <= c < sb.size ==> (Used(sb, g, c) <==> c !in free)
    ensures forall b {:trigger disk[b]} :: 0 <= b < sb.size ==> disk[b] == if InBitmap(sb, b) then ZeroBlock() else g[b]
    ensures forall b {:trigger g[b]} :: sb.DataStart() <= b < sb.size ==> g[b] == ZeroBlock()
  {
    forall c | 0 <= c < sb.size ensures Used(sb, g, c) <==> c !in free {
      ZeroBits(c % BPB);
      MarkedBits(sb, disk, free, sb.size, c);
    }
    forall b | 0 <= b < sb.size && !InBitmap(sb, b) ensures disk[b] == g[b] {
      MarkedElsewhere(sb, disk, free, sb.size, b);
    }
    forall b | sb.DataStart() <= b < sb.size ensures g[b] == ZeroBlock() { assert disk[b] == g[b]; }
  }

  lemma FirstDraft(sb: Superblock, disk: Disk, g: Disk, t: Table, fb: nat, free: set<nat>)
    requires Wf(sb, g, t) && |disk| == |g| && fb == sb.DataStart() && free == FreeFrom(sb, fb)
    requires forall c :: 0 <= c < sb.size ==> (Used(sb, g, c) <==> c !in free)
    requires forall b {:trigger disk[b]} ::
      0 <= b < sb.size ==> disk[b] == if InBitmap(sb, b) then ZeroBlock() else g[b]
    requires forall b {:trigger g[b]} :: fb <= b < sb.size ==> g[b] == ZeroBlock()
    ensures Draft(sb, disk, g, t, fb)
  {
  }

  lemma NoFiles(sb: Superblock, g: Disk, t: Table)
    requires Shaped(sb, g, t) && t == NoInodes(sb.ninodes)
    requires forall i, k :: 0 <= i < |t| && 0 <= k < NSLOTS ==> Addr(sb, g, t, i, k) == 0
    ensures NoHoles(sb, g, t) && NoExtra(sb, g, t) && ZeroTails(sb, g, t) && Indirect(t)
  {
    forall j, pos | 0 <= j < |t| && 0 <= pos < MAXBYTES ensures FileByte(sb, g, t, j, pos) == 0 {
      assert Addr(sb, g, t, j, DataSlot(pos / BSIZE)) == 0;
    }
  }

  /** An image of zeros has free inodes and no files. */
  lemma AllZero(sb: Superblock, disk: Disk, g: Disk, t: Table)
    requires disk == ZeroDisk(sb.size) && sb.Ok(disk) && t == NoInodes(sb.ninodes)
    requires g == Marked(sb, disk, FreeFrom(sb, sb.DataStart()), sb.size)
    ensures InOrder(sb, disk, g, t, sb.DataStart())
  {
    var free := FreeFrom(sb, sb.DataStart());
    NothingYet(sb, disk, g, free);
    assert Wf(sb, g, t) && NoHoles(sb, g, t) && NoExtra(sb, g, t) && ZeroTails(sb, g, t) && Indirect(t) by {
      DirectVolume(sb, g, t, free);
      NoFiles(sb, g, t);
    }
    FirstDraft(sb, disk, g, t, sb.DataStart(), free);
    forall j | 0 <= j < |t| ensures OnDisk(sb, disk, j) == t[j] {
      ZeroInode(InodeBase(j));
    }
  }

  // ---------------------------------------------------------------- files

  /** Inode i is a file, and holds s. */
  ghost predicate FileIs(sb: Superblock, g: Disk, t: Table, i: nat, s: seq<Byte>)
    requires Shaped(sb, g, t) && i < |t|
  {
    |s| <= MAXBYTES && t[i] == Dinode(T_FILE, 0, 0, 1, |s|, t[i].addrs) && Contents(sb, g, t, i) == s
  }

  /** The root has its dots and the names, the inodes after it are the files, and the others are free. */
  ghost predicate Populated(sb: Superblock, g: Disk, t: Table, names: seq<Name>, files: seq<seq<Byte>>) {
    && Shaped(sb, g, t) && NoHoles(sb, g, t) && |names| == |files| && |names| + 2 <= |t| < 0x1_0000
    && t[1] == Dinode(T_DIR, 0, 0, 1, t[1].size, t[1].addrs)
    && Contents(sb, g, t, 1) == DirBytes(RootEntries(names, 0))
    && (forall j {:trigger t[j]} :: 0 <= j < |t| && (j == 0 || |names| + 2 <= j) ==> t[j] == NoInode())
    && (forall k {:trigger files[k]} :: 0 <= k < |files| ==> FileIs(sb, g, t, k + 2, files[k]))
  }

  /** Only inode i has changed. */
  ghost predicate OthersKept(sb: Superblock, g: Disk, t: Table, g': Disk, t': Table, i: nat)
    requires Shaped(sb, g, t) && Shaped(sb, g', t') && NoHoles(sb, g, t) && NoHoles(sb, g', t')
  {
    |t| == |t'| && forall j {:trigger Contents(sb, g', t', j)} :: 0 <= j < |t| && j != i ==>
      t'[j] == t[j] && Contents(sb, g', t', j) == Contents(sb, g, t, j)
  }

  lemma OthersKeptMore(sb: Superblock, g: Disk, t: Table, g1: Disk, t1: Table, g2: Disk, t2: Table, i: nat)
    requires Shaped(sb, g, t) && Shaped(sb, g1, t1) && Shaped(sb, g2, t2)
    requires NoHoles(sb, g, t) && NoHoles(sb, g1, t1) && NoHoles(sb, g2, t2)
    requires OthersKept(sb, g, t, g1, t1, i) && OthersKept(sb, g1, t1, g2, t2, i)
    ensures OthersKept(sb, g, t, g2, t2, i)
  {
    forall j | 0 <= j < |t| && j != i ensures t2[j] == t[j] && Contents(sb, g2, t2, j) == Contents(sb, g, t, j) {
      assert Contents(sb, g2, t2, j) == Contents(sb, g1, t1, j) == Contents(sb, g, t, j);
    }
  }

  /** The bytes have been appended to file i, and the blocks taken that they need; no other file has changed. */
  ghost predicate Grown(sb: Superblock, g0: Disk, t0: Table, fb0: nat, g: Disk, t: Table, fb: nat, i: nat,
                        bytes: seq<Byte>) {
    && Shaped(sb, g0, t0) && Shaped(sb, g, t) && NoHoles(sb, g0, t0) && NoHoles(sb, g, t) && i < |t0| == |t|
    && t[i] == t0[i].(size := t[i].size, addrs := t[i].addrs) && t[i].size == t0[i].size + |bytes|
    && Contents(sb, g, t, i) == Contents(sb, g0, t0, i) + bytes && OthersKept(sb, g0, t0, g, t, i)
    && Tally(t[i].addrs[NDIRECT], t[i].size, fb, t0[i].size, fb0)
  }

  lemma GrownStart(sb: Superblock, g: Disk, t: Table, fb: nat, i: nat)
    requires Shaped(sb, g, t) && NoHoles(sb, g, t) && Indirect(t) && i < |t|
    ensures Grown(sb, g, t, fb, g, t, fb, i, [])
  {
    TallyStart(t, i, fb);
  }

  lemma GrownMore(sb: Superblock, g0: Disk, t0: Table, fb0: nat, g1: Disk, t1: Table, fb1: nat, g2: Disk, t2: Table,
                  fb2: nat, i: nat, x: seq<Byte>, y: seq<Byte>, xy: seq<Byte>)
    requires Grown(sb, g0, t0, fb0, g1, t1, fb1, i, x) && Grown(sb, g1, t1, fb1, g2, t2, fb2, i, y) && xy == x + y
    ensures Grown(sb, g0, t0, fb0, g2, t2, fb2, i, xy)
  {
    TallyMore(t1[i].addrs[NDIRECT], t1[i].size, fb1, t2[i].addrs[NDIRECT], t2[i].size, fb2, t0[i].size, fb0);
    OthersKeptMore(sb, g0, t0, g1, t1, g2, t2, i);
  }

  /** Bytes for which there is no room once the first of them have been appended. */
  lemma GrownNoRoom(sb: Superblock, g0: Disk, t0: Table, fb0: nat, g1: Disk, t1: Table, fb1: nat, i: nat, x: seq<Byte>,
                    off': nat, end: nat)
    requires Grown(sb, g0, t0, fb0, g1, t1, fb1, i, x) && NoRoom(t1[i].size, off', fb1, sb.size) && off' <= end
    ensures NoRoom(t0[i].size, end, fb0, sb.size)
  {
    NoRoomMore(t1[i].addrs[NDIRECT], t1[i].size, fb1, off', end, t0[i].size, fb0, sb.size);
  }

  lemma DirBytesMore(es: seq<Dirent>, e: Dirent)
    ensures DirBytes(es + [e]) == DirBytes(es) + Encode(e)
  {
    var s, s' := DirBytes(es), DirBytes(es + [e]);
    assert |s'| == |s + Encode(e)|;
    forall p | 0 <= p < |s'| ensures s'[p] == (s + Encode(e))[p] {
      if p < |s| {
        assert p / DESIZE < |es| && s'[p] == DirByte(es + [e], p) == DirByte(es, p) == s[p];
      } else {
        assert p / DESIZE == |es| && p % DESIZE == p - |s|;
        assert s'[p] == DirByte(es + [e], p) == Encode(e)[p - |s|];
      }
    }
  }

  /** The root gets an entry. */
  lemma RootMore(names: seq<Name>, name: Name, e: Dirent)
    requires |names| < 0xFFFD && e == Dirent(|names| + 2, name)
    ensures DirBytes(RootEntries(names + [name], 0)) == DirBytes(RootEntries(names, 0)) + Encode(e)
  {
    assert RootEntries(names + [name], 0) == RootEntries(names, 0) + [e];
    DirBytesMore(RootEntries(names, 0), e);
  }

  lemma DotsBytes(dot: Dirent, dotdot: Dirent, none: seq<Dirent>, es: seq<Dirent>)
    requires none == [] && es == [dot, dotdot]
    ensures DirBytes(es) == Encode(dot) + Encode(dotdot)
  {
    DirBytesMore(none, dot);
    DirBytesMore(none + [dot], dotdot);
    assert es == none + [dot] + [dotdot] && DirBytes(none) == [];
    assert [] + Encode(dot) == Encode(dot);
  }

  /** The root has been made: its inode, and its dots. */
  lemma RootMade(sb: Superblock, g0: Disk, t0: Table, fb0: nat, g: Disk, t: Table, fb: nat, dots: seq<Byte>)
    requires 2 <= |t0| < 0x1_0000 && t0 == NoInodes(|t0|)[1 := Dinode(T_DIR, 0, 0, 1, 0, Zeros())]
    requires Grown(sb, g0, t0, fb0, g, t, fb, 1, dots) && fb0 == sb.DataStart()
    requires dots == Encode(Dirent(1, DOT)) + Encode(Dirent(1, DOTDOT))
    ensures Populated(sb, g, t, [], []) && Spent(sb, 0, [], fb)
  {
    SpentRoot(sb, fb, t[1].addrs[NDIRECT]);
    assert Contents(sb, g, t, 1) == dots;
    DotsBytes(Dirent(1, DOT), Dirent(1, DOTDOT), [], RootEntries([], 0));
    forall j | 0 <= j < |t| && (j == 0 || 2 <= j) ensures t[j] == NoInode() {
      assert Contents(sb, g, t, j) == Contents(sb, g0, t0, j);
    }
  }

  /** A file has been made: an inode without contents, and its entry in the root. */
  lemma FileMade(sb: Superblock, g0: Disk, t0: Table, g1: Disk, t1: Table, g: Disk, t: Table, names: seq<Name>,
                 files: seq<seq<Byte>>, name: Name, i: nat, e: Dirent, fb0: nat, fb: nat)
    requires Populated(sb, g0, t0, names, files) && i == |names| + 2 < |t0| && e == Dirent(i, name)
    requires Shaped(sb, g1, t1) && NoHoles(sb, g1, t1)
    requires OthersKept(sb, g0, t0, g1, t1, i) && t1[i] == Dinode(T_FILE, 0, 0, 1, 0, Zeros())
    requires Grown(sb, g1, t1, fb0, g, t, fb, 1, Encode(e))
    ensures Populated(sb, g, t, names + [name], files + [[]]) && t[i].size == 0
  {
    assert Contents(sb, g, t, i) == Contents(sb, g1, t1, i);
    RootMore(names, name, e);
    assert Contents(sb, g1, t1, 1) == Contents(sb, g0, t0, 1);
    var names', files' := names + [name], files + [[]];
    forall j | 0 <= j < |t| && (j == 0 || |names'| + 2 <= j) ensures t[j] == NoInode() {
      assert Contents(sb, g, t, j) == Contents(sb, g1, t1, j) == Contents(sb, g0, t0, j);
    }
    forall k | 0 <= k < |files'| ensures FileIs(sb, g, t, k + 2, files'[k]) {
      assert Contents(sb, g, t, k + 2) == Contents(sb, g1, t1, k + 2);
      if k < |files| { assert FileIs(sb, g0, t0, k + 2, files[k]) && Contents(sb, g1, t1, k + 2) == files[k]; }
    }
  }

  /** The inode of the next file leaves the root as it is. */
  lemma RootAsWas(sb: Superblock, g0: Disk, t0: Table, g1: Disk, t1: Table, names: seq<Name>, files: seq<seq<Byte>>,
                  i: nat, off: nat)
    requires Populated(sb, g0, t0, names, files) && i == |names| + 2 < |t0| && off == DESIZE * (|names| + 2)
    requires Shaped(sb, g1, t1) && NoHoles(sb, g1, t1) && OthersKept(sb, g0, t0, g1, t1, i)
    ensures t1[1].size == off
  {
    assert Contents(sb, g1, t1, 1) == Contents(sb, g0, t0, 1);
    assert t1[1].size == |Contents(sb, g1, t1, 1)|;
  }

  /** The last file has been written. */
  lemma FileFilled(sb: Superblock, g: Disk, t: Table, g': Disk, t': Table, names: seq<Name>, files: seq<seq<Byte>>,
                   file: seq<Byte>, i: nat, fb: nat, fb': nat)
    requires Populated(sb, g, t, names, files + [[]]) && i == |names| + 1 && t[i].size == 0
    requires Grown(sb, g, t, fb, g', t', fb', i, file)
    ensures Populated(sb, g', t', names, files + [file])
  {
    assert Contents(sb, g', t', i) == file;
    var files0, files' := files + [[]], files + [file];
    assert Contents(sb, g', t', 1) == Contents(sb, g, t, 1);
    forall j | 0 <= j < |t'| && (j == 0 || |names| + 2 <= j) ensures t'[j] == NoInode() {
      assert Contents(sb, g', t', j) == Contents(sb, g, t, j);
    }
    assert FileIs(sb, g, t, i, files0[|files|]);
    forall k | 0 <= k < |files'| ensures FileIs(sb, g', t', k + 2, files'[k]) {
      if k < |files| {
        assert FileIs(sb, g, t, k + 2, files0[k]) && Contents(sb, g', t', k + 2) == Contents(sb, g, t, k + 2);
      }
    }
  }

  /** An inode is written whose size does not change. */
  lemma SameSizes(sb: Superblock, g: Disk, t: Table, g': Disk, t': Table, i: nat)
    requires Shaped(sb, g, t) && Shaped(sb, g', t') && NoHoles(sb, g, t) && NoExtra(sb, g, t) && ZeroTails(sb, g, t)
    requires SameAddrs(sb, g, t, g', t') && SameFiles(sb, g, t, g', t')
    requires i < |t| && t' == t[i := t'[i]] && t'[i].size == t[i].size
    ensures NoHoles(sb, g', t') && NoExtra(sb, g', t') && ZeroTails(sb, g', t') && OthersKept(sb, g, t, g', t', i)
  {
    forall j, pos | 0 <= j < |t| && 0 <= pos < MAXBYTES
      ensures FileByte(sb, g', t', j, pos) == FileByte(sb, g, t, j, pos)
    {
      assert FileBlock(sb, g', t', j, pos / BSIZE) == FileBlock(sb, g, t, j, pos / BSIZE);
    }
    forall j, bn | 0 <= j < |t'| && 0 <= bn < MAXFILE
      ensures Addr(sb, g', t', j, DataSlot(bn)) == Addr(sb, g, t, j, DataSlot(bn)) && t'[j].size == t[j].size
    {
    }
    forall j | 0 <= j < |t| && j != i ensures Contents(sb, g', t', j) == Contents(sb, g, t, j) { }
  }

  // ---------------------------------------------------------------- the space taken

  function FilesCost(files: seq<seq<Byte>>): nat {
    if files == [] then 0 else FilesCost(files[..|files| - 1]) + Cost(|files[|files| - 1]|)
  }

  /** The first free block when n names are in the root and the files are made. */
  function Total(sb: Superblock, n: nat, files: seq<seq<Byte>>): nat {
    sb.DataStart() + Cost(DESIZE * (n + 2)) + FilesCost(files)
  }

  /** That has come about; or there is no room for it. */
  ghost predicate Spent(sb: Superblock, n: nat, files: seq<seq<Byte>>, fb: nat) {
    forall q {:trigger Asked(q)} :: Asked(q) ==> fb == Total(sb, n, files)
  }

  ghost predicate Over(sb: Superblock, n: nat, files: seq<seq<Byte>>) {
    forall q {:trigger Asked(q)} :: Asked(q) ==> Total(sb, n, files) > sb.size
  }

  lemma SpentRoot(sb: Superblock, fb: nat, ind: Word)
    requires Tally(ind, DESIZE * 2, fb, 0, sb.DataStart())
    ensures Spent(sb, 0, [], fb)
  {
    assert Asked(0);
  }

  lemma OverRoot(sb: Superblock)
    requires NoRoom(0, DESIZE * 2, sb.DataStart(), sb.size)
    ensures Over(sb, 0, [])
  {
    assert Asked(0);
  }

  lemma SpentMore(sb: Superblock, n: nat, files: seq<seq<Byte>>, file: seq<Byte>, fb: nat, ind1: Word, fb1: nat,
                  ind2: Word, fb2: nat, off: nat, off': nat)
    requires Spent(sb, n, files, fb) && off == DESIZE * (n + 2) && off' == DESIZE * (n + 3)
    requires Tally(ind1, off', fb1, off, fb) && Tally(ind2, |file|, fb2, 0, fb1)
    ensures Spent(sb, n + 1, files + [file], fb2)
  {
    assert Asked(0);
    TotalMore(sb, n, files, file);
  }

  lemma OverEntry(sb: Superblock, n: nat, files: seq<seq<Byte>>, file: seq<Byte>, fb: nat, off: nat, off': nat)
    requires Spent(sb, n, files, fb) && off == DESIZE * (n + 2) && off' == DESIZE * (n + 3)
    requires NoRoom(off, off', fb, sb.size)
    ensures Over(sb, n + 1, files + [file])
  {
    assert Asked(0);
    TotalMore(sb, n, files, file);
  }

  lemma OverFile(sb: Superblock, n: nat, files: seq<seq<Byte>>, file: seq<Byte>, fb: nat, ind1: Word, fb1: nat,
                 off: nat, off': nat)
    requires Spent(sb, n, files, fb) && off == DESIZE * (n + 2) && off' == DESIZE * (n + 3)
    requires Tally(ind1, off', fb1, off, fb) && NoRoom(0, |file|, fb1, sb.size)
    ensures Over(sb, n + 1, files + [file])
  {
    assert Asked(0);
    TotalMore(sb, n, files, file);
  }

  lemma OverAll(sb: Superblock, files: seq<seq<Byte>>, k: nat)
    requires k <= |files| && Over(sb, k, files[..k])
    ensures Over(sb, |files|, files)
  {
    assert Asked(0);
    TotalGrows(sb, files, k);
  }

  lemma TotalMore(sb: Superblock, n: nat, files: seq<seq<Byte>>, file: seq<Byte>)
    ensures Total(sb, n + 1, files + [file])
            == Total(sb, n, files) + (Cost(DESIZE * (n + 3)) - Cost(DESIZE * (n + 2))) + Cost(|file|)
    ensures Total(sb, n, files) <= Total(sb, n + 1, files + [file])
  {
    assert (files + [file])[..|files|] == files;
    CostGrows(DESIZE * (n + 2), DESIZE * (n + 3));
  }

  lemma {:induction false} TotalGrows(sb: Superblock, files: seq<seq<Byte>>, k: nat)
    requires k <= |files|
    ensures Total(sb, k, files[..k]) <= Total(sb, |files|, files)
    decreases |files| - k
  {
    if k == |files| {
      assert files[..k] == files;
    } else {
      assert files[..k + 1] == files[..k] + [files[k]];
      TotalMore(sb, k, files[..k], files[k]);
      TotalGrows(sb, files, k + 1);
    }
  }

  // ---------------------------------------------------------------- the size of the root

  const PERBLOCK: nat := 32            // entries in a block

  /** Blocks that the root directory of n files and its dots takes, and the number its size is rounded up to. */
  function RootBlocks(n: nat): nat { (n + 2 + PERBLOCK - 1) / PERBLOCK }
  function RootSize(n: nat): nat { (n + 2) / PERBLOCK + 1 }
  function Blanks(n: nat): nat { PERBLOCK - (n + 2) % PERBLOCK }

  /** Rounding goes one block too far exactly when the entries fill their blocks. */
  lemma Rounding(n: nat)
    ensures RootSize(n) == RootBlocks(n) + if (n + 2) % PERBLOCK == 0 then 1 else 0
    ensures PERBLOCK * RootSize(n) == n + 2 + Blanks(n)
  {
  }

  lemma BlankBytes(j: nat)
    requires j < DESIZE
    ensures Encode(Dirent(0, []))[j] == 0
  {
    assert LeBytes(0, 2) == [0, 0];
  }

  lemma RootByte(names: seq<Name>, blanks: nat, p: nat)
    requires |names| < 0xFFFE && p < DESIZE * (|names| + 2 + blanks)
    ensures DirByte(RootEntries(names, blanks), p) == DirByte(RootEntries(names, 0), p)
  {
    var es, es0, k := RootEntries(names, blanks), RootEntries(names, 0), p / DESIZE;
    assert k < |es|;
    if k < |es0| {
      assert es[k] == es0[k];
    } else {
      assert es[k] == Dirent(0, []);
      BlankBytes(p % DESIZE);
    }
  }

  /** The size of the root has been rounded up to m blocks: its files and free inodes are as before. */
  ghost predicate Rounded(sb: Superblock, g: Disk, t: Table, names: seq<Name>, files: seq<seq<Byte>>, m: nat) {
    && Shaped(sb, g, t) && |names| == |files| && |names| + 2 <= |t| < 0x1_0000
    && t[1].kind == T_DIR && t[1].nlink == 1 && t[1].size == BSIZE * m
    && (forall j {:trigger t[j]} :: 0 <= j < |t| && (j == 0 || |names| + 2 <= j) ==> t[j] == NoInode())
    && (forall k {:trigger files[k]} :: 0 <= k < |files| ==> FileIs(sb, g, t, k + 2, files[k]))
  }

  lemma RoundedHoles(sb: Superblock, g: Disk, t: Table, g': Disk, t': Table, names: seq<Name>, files: seq<seq<Byte>>,
                     n: nat, q: nat, m: nat)
    requires Populated(sb, g, t, names, files) && NoExtra(sb, g, t) && n == |names|
    requires q == RootBlocks(n) && m == RootSize(n) && Shaped(sb, g', t') && SameAddrs(sb, g, t, g', t')
    requires t[1].size == DESIZE * (n + 2) && BSIZE * m < 0x1_0000_0000 && t' == t[1 := t[1].(size := BSIZE * m)]
    ensures NoHoles(sb, g', t') <==> (n + 2) % PERBLOCK != 0
  {
    Rounding(n);
    if (n + 2) % PERBLOCK == 0 {
      assert t[1].size == q * BSIZE;
      assert t'[1].size == (q + 1) * BSIZE;
      if q < MAXFILE {
        assert Addr(sb, g, t, 1, DataSlot(q)) == 0;
        assert Addr(sb, g', t', 1, DataSlot(q)) == 0 && q * BSIZE < t'[1].size;
      } else {
        assert t'[1].size > MAXBYTES;
      }
    } else {
      forall j, bn | 0 <= j < |t'| && 0 <= bn < MAXFILE && bn * BSIZE < t'[j].size
        ensures Addr(sb, g', t', j, DataSlot(bn)) != 0
      {
        assert bn * BSIZE < t[j].size;
        assert Addr(sb, g, t, j, DataSlot(bn)) != 0;
      }
    }
  }

  lemma RoundedRoot(sb: Superblock, g: Disk, t: Table, g': Disk, t': Table, names: seq<Name>, files: seq<seq<Byte>>,
                    n: nat, m: nat, blanks: nat)
    requires Populated(sb, g, t, names, files) && ZeroTails(sb, g, t) && n == |names| && blanks == Blanks(n)
    requires m == RootSize(n) && Shaped(sb, g', t') && SameFiles(sb, g, t, g', t')
    requires t[1].size == DESIZE * (n + 2) && BSIZE * m <= MAXBYTES && t' == t[1 := t[1].(size := BSIZE * m)]
    ensures Contents(sb, g', t', 1) == DirBytes(RootEntries(names, blanks))
  {
    Rounding(n);
    var es0, es := RootEntries(names, 0), RootEntries(names, blanks);
    assert |Contents(sb, g', t', 1)| == |DirBytes(es)|;
    forall p | 0 <= p < BSIZE * m ensures FileByte(sb, g', t', 1, p) == DirBytes(es)[p] {
      assert FileBlock(sb, g', t', 1, p / BSIZE) == FileBlock(sb, g, t, 1, p / BSIZE);
      assert FileByte(sb, g', t', 1, p) == FileByte(sb, g, t, 1, p);
      RootByte(names, blanks, p);
      if p < t[1].size { assert Contents(sb, g, t, 1)[p] == DirBytes(es0)[p]; }
    }
  }

  lemma RoundedFiles(sb: Superblock, g: Disk, t: Table, g': Disk, t': Table, names: seq<Name>, files: seq<seq<Byte>>,
                     m: nat)
    requires Populated(sb, g, t, names, files) && Shaped(sb, g', t') && SameFiles(sb, g, t, g', t')
    requires BSIZE * m < 0x1_0000_0000 && t' == t[1 := t[1].(size := BSIZE * m)]
    ensures Rounded(sb, g', t', names, files, m)
  {
    forall k | 0 <= k < |files| ensures FileIs(sb, g', t', k + 2, files[k]) {
      var i := k + 2;
      assert FileIs(sb, g, t, i, files[k]);
      forall p | 0 <= p < |files[k]| ensures FileByte(sb, g', t', i, p) == FileByte(sb, g, t, i, p) {
        assert FileBlock(sb, g', t', i, p / BSIZE) == FileBlock(sb, g, t, i, p / BSIZE);
      }
      assert Contents(sb, g', t', i) == Contents(sb, g, t, i);
    }
  }

  /** The new size of the root. */
  lemma RootLength(sb: Superblock, g: Disk, t: Table, names: seq<Name>, files: seq<seq<Byte>>, n: nat, m: nat)
    requires Populated(sb, g, t, names, files) && n == |names| && m == RootSize(n)
    ensures t[1].size == DESIZE * (n + 2) <= MAXBYTES
    ensures (t[1].size / BSIZE + 1) * BSIZE == BSIZE * m < 0x1_0000_0000
  {
    assert t[1].size == |Contents(sb, g, t, 1)| == DESIZE * (n + 2);
  }

  lemma RootFixed(sb: Superblock, g: Disk, t: Table, g': Disk, t': Table, names: seq<Name>, files: seq<seq<Byte>>,
                  n: nat, m: nat)
    requires Populated(sb, g, t, names, files) && NoExtra(sb, g, t) && ZeroTails(sb, g, t)
    requires n == |names| && m == RootSize(n) && BSIZE * m < 0x1_0000_0000 && t' == t[1 := t[1].(size := BSIZE * m)]
    requires Shaped(sb, g', t') && SameAddrs(sb, g, t, g', t') && SameFiles(sb, g, t, g', t')
    ensures Rounded(sb, g', t', names, files, m)
    ensures NoHoles(sb, g', t') <==> (n + 2) % PERBLOCK != 0
    ensures NoHoles(sb, g', t') ==> Contents(sb, g', t', 1) == DirBytes(RootEntries(names, Blanks(n)))
  {
    RootLength(sb, g, t, names, files, n, m);
    RoundedHoles(sb, g, t, g', t', names, files, n, RootBlocks(n), m);
    RoundedFiles(sb, g, t, g', t', names, files, m);
    if NoHoles(sb, g', t') {
      assert t'[1].size <= MAXBYTES;
      RoundedRoot(sb, g, t, g', t', names, files, n, m, Blanks(n));
    }
  }

  /** The tree on such a volume. */
  lemma RoundedHolds(sb: Superblock, d: Disk, t: Table, names: seq<Name>, files: seq<seq<Byte>>, m: nat, blanks: nat)
    requires Rounded(sb, d, t, names, files, m) && NoHoles(sb, d, t) && DESIZE * (|names| + 2 + blanks) == BSIZE * m
    requires Contents(sb, d, t, 1) == DirBytes(RootEntries(names, blanks))
    ensures Holds(sb, d, t, Formatted(names, blanks, |t| - |names| - 2))
  {
    var v := Formatted(names, blanks, |t| - |names| - 2);
    DirBytesEntries(RootEntries(names, blanks));
    forall i | 0 <= i < |v| ensures v[i] == NodeAt(sb, d, t, i) && (t[i].kind == T_DIR ==> t[i].size % DESIZE == 0) {
      if 2 <= i < |names| + 2 { assert FileIs(sb, d, t, (i - 2) + 2, files[i - 2]); }
    }
  }

  // ---------------------------------------------------------------- the bitmap

  /** A volume with the same bits and the same blocks outside the bitmap. */
  lemma BitsWritten(sb: Superblock, g: Disk, t: Table, d: Disk)
    requires Wf(sb, g, t) && |d| == |g| && forall c :: 0 <= c < sb.size ==> (Used(sb, d, c) <==> Used(sb, g, c))
    requires forall b {:trigger d[b]} :: 0 <= b < sb.size && !InBitmap(sb, b) ==> d[b] == g[b]
    ensures Wf(sb, d, t) && SameAddrs(sb, g, t, d, t) && SameFiles(sb, g, t, d, t)
  {
    forall i, k | 0 <= i < |t| && 0 <= k < NSLOTS ensures Addr(sb, d, t, i, k) == Addr(sb, g, t, i, k) {
      if k > NDIRECT && t[i].addrs[NDIRECT] != 0 { assert Addr(sb, g, t, i, NDIRECT) >= sb.DataStart(); }
    }
    forall i, bn | 0 <= i < |t| && 0 <= bn < MAXFILE ensures FileBlock(sb, d, t, i, bn) == FileBlock(sb, g, t, i, bn) {
      assert Addr(sb, d, t, i, DataSlot(bn)) == Addr(sb, g, t, i, DataSlot(bn));
    }
  }

  /** The first fb bits, all in the first block of the bitmap. */
  lemma BitsInFirst(sb: Superblock, disk: Disk, g: Disk, t: Table, fb: nat, buf: Block, d: Disk)
    requires Draft(sb, disk, g, t, fb) && fb < BPB && d == disk[sb.bmapstart := buf]
    requires forall c {:trigger TestBit(buf, c)} :: 0 <= c < BPB ==> (TestBit(buf, c) <==> c < fb)
    ensures Wf(sb, d, t) && SameAddrs(sb, g, t, d, t) && SameFiles(sb, g, t, d, t) && SameInodeBlocks(sb, disk, d)
    ensures forall c :: 0 <= c < sb.size ==> (Used(sb, d, c) <==> c < fb)
  {
    forall c | 0 <= c < sb.size ensures Used(sb, d, c) <==> Used(sb, g, c) {
      var b := sb.BBlock(c);
      if c < BPB {
        assert b == sb.bmapstart && c % BPB == c;
        assert Used(sb, d, c) == TestBit(buf, c);
      } else {
        assert b != sb.bmapstart && InBitmap(sb, b) && d[b] == disk[b] == ZeroBlock();
        ZeroBits(c % BPB);
      }
    }
    BitsWritten(sb, g, t, d);
  }

  /** Addresses, blocks of files and inodes make the volume what it is. */
  lemma RoundedSame(sb: Superblock, g: Disk, t: Table, d: Disk, names: seq<Name>, files: seq<seq<Byte>>, m: nat)
    requires Rounded(sb, g, t, names, files, m) && Shaped(sb, d, t)
    requires SameAddrs(sb, g, t, d, t) && SameFiles(sb, g, t, d, t)
    ensures Rounded(sb, d, t, names, files, m) && (NoHoles(sb, d, t) <==> NoHoles(sb, g, t))
    ensures t[1].size <= MAXBYTES ==> Contents(sb, d, t, 1) == Contents(sb, g, t, 1)
  {
    forall j, p | 0 <= j < |t| && 0 <= p < MAXBYTES ensures FileByte(sb, d, t, j, p) == FileByte(sb, g, t, j, p) {
      assert FileBlock(sb, d, t, j, p / BSIZE) == FileBlock(sb, g, t, j, p / BSIZE);
    }
    forall k | 0 <= k < |files| ensures FileIs(sb, d, t, k + 2, files[k]) {
      assert FileIs(sb, g, t, k + 2, files[k]);
      assert Contents(sb, d, t, k + 2) == Contents(sb, g, t, k + 2);
    }
    if NoHoles(sb, g, t) { SameHoles(sb, g, t, d); }
    if NoHoles(sb, d, t) { SameHoles(sb, d, t, g); }
  }

  lemma SameHoles(sb: Superblock, g: Disk, t: Table, d: Disk)
    requires Shaped(sb, g, t) && Shaped(sb, d, t) && NoHoles(sb, g, t)
    requires forall i, k :: 0 <= i < |t| && 0 <= k < NSLOTS ==> Addr(sb, d, t, i, k) == Addr(sb, g, t, i, k)
    ensures NoHoles(sb, d, t)
  {
  }

  /** The volume is made: it is well-formed, every file has its contents, and it is one that the file system can start
      on exactly if the entries did not fill the blocks of the root. */
  ghost predicate Finished(sb: Superblock, d: Disk, t: Table, names: seq<Name>, files: seq<seq<Byte>>) {
    && Wf(sb, d, t) && Current(sb, d, t) && |names| == |files| && |names| + 2 <= |t| < 0x1_0000
    && (forall k {:trigger files[k]} :: 0 <= k < |files| ==> FileIs(sb, d, t, k + 2, files[k]))
    && ((NoHoles(sb, d, t) && Holds(sb, d, t, Formatted(names, Blanks(|names|), |t| - |names| - 2)))
        <==> (|names| + 2) % PERBLOCK != 0)
  }

  lemma FinishedSo(sb: Superblock, g: Disk, t: Table, d: Disk, names: seq<Name>, files: seq<seq<Byte>>, n: nat, m: nat)
    requires Rounded(sb, g, t, names, files, m) && n == |names| && m == RootSize(n)
    requires NoHoles(sb, g, t) <==> (n + 2) % PERBLOCK != 0
    requires NoHoles(sb, g, t) ==> Contents(sb, g, t, 1) == DirBytes(RootEntries(names, Blanks(n)))
    requires Wf(sb, d, t) && Current(sb, d, t) && SameAddrs(sb, g, t, d, t) && SameFiles(sb, g, t, d, t)
    ensures Finished(sb, d, t, names, files)
  {
    RoundedSame(sb, g, t, d, names, files, m);
    Rounding(n);
    if NoHoles(sb, g, t) {
      RoundedHolds(sb, d, t, names, files, m, Blanks(n));
    }
  }

  /** iappend is done. */
  lemma AppendedAll(sb: Superblock, disk0: Disk, g0: Disk, t0: Table, fb0: nat, disk1: Disk, g1: Disk, t1: Table,
                    disk: Disk, g: Disk, t: Table, fb: nat, i: nat, addrs: seq<Word>, bytes: seq<Byte>, off0: nat,
                    lo: nat, hi: nat, end: nat)
    requires InOrder(sb, disk0, g0, t0, fb0)
    requires Appended(sb, disk0, g0, t0, disk1, g1, t1, i, addrs, bytes, off0, |bytes|, lo, hi)
    requires off0 == t0[i].size && Spans(off0, |bytes|, lo, hi) && end == off0 + |bytes| <= MAXBYTES
    requires Draft(sb, disk, g, t, fb) && t == t1[i := t1[i].(size := end)]
    requires disk == disk1[sb.IBlock(i) := InodeBlock(sb, disk1, i, t[i])]
    requires SameAddrs(sb, g1, t1, g, t) && SameFiles(sb, g1, t1, g, t) && Tally(addrs[NDIRECT], end, fb, off0, fb0)
    ensures InOrder(sb, disk, g, t, fb) && Grown(sb, g0, t0, fb0, g, t, fb, i, bytes)
  {
    AppendDone(sb, disk0, g0, t0, disk1, g1, t1, g, t, i, addrs, bytes, off0, lo, hi);
    InodeStored(sb, disk0, disk1, t0, i, t[i], disk);
    IndirectAfter(t0, t, i, fb, off0, fb0);
  }

  lemma FileAdded(sb: Superblock, g: Disk, t: Table, g': Disk, t': Table, names: seq<Name>, files: seq<seq<Byte>>,
                  name: Name, file: seq<Byte>, i: nat, fb0: nat, ind: Word, fb: nat, fb': nat, off: nat, off': nat)
    requires Populated(sb, g, t, names + [name], files + [[]]) && i == |names| + 2 && t[i].size == 0
    requires Grown(sb, g, t, fb, g', t', fb', i, file) && Spent(sb, |names|, files, fb0)
    requires off == DESIZE * (|names| + 2) && off' == DESIZE * (|names| + 3) && Tally(ind, off', fb, off, fb0)
    ensures Populated(sb, g', t', names + [name], files + [file]) && Spent(sb, |names| + 1, files + [file], fb')
  {
    FileFilled(sb, g, t, g', t', names + [name], files, file, i, fb, fb');
    SpentMore(sb, |names|, files, file, fb0, ind, fb, t'[i].addrs[NDIRECT], fb', off, off');
  }

  /** What becomes of mkfs: done; the volume is full, or its inodes used up, which mkfs does not check; or a file too
      large or too many blocks in use, where an assertion of mkfs fails. */
  datatype Outcome = Built | Full | NoInodeLeft | TooLarge | TooMuch

  /** A file, or the root, has more bytes than a file can. */
  ghost predicate AnyTooLarge(names: seq<Name>, files: seq<seq<Byte>>) {
    DESIZE * (|names| + 2) > MAXBYTES || exists k :: 0 <= k < |files| && |files[k]| > MAXBYTES
  }

  class Img {
    const sb: Superblock
    var disk: Disk
    var freeblock: nat
    var freeinode: nat
    ghost var g: Disk                // the image with its bitmap
    ghost var table: Table           // its inodes

    ghost predicate Ok()
      reads this
    {
      Draft(sb, disk, g, table, freeblock)
    }

    /** freeblock++, unless the volume is full, which mkfs does not check. */
    method Bump() returns (ok: bool, b: nat)
      requires Ok()
      modifies this`freeblock, this`g
      ensures ok <==> old(freeblock) < sb.size
      ensures !ok ==> freeblock == old(freeblock) && g == old(g)
      ensures ok ==> freeblock == old(freeblock) + 1
      ensures ok ==> Ok() && sb.DataStart() <= b < sb.size && Unowned(sb, g, table, b) && Used(sb, g, b)
      ensures ok ==> g[b] == ZeroBlock()
      ensures ok ==> SameAddrs(sb, old(g), table, g, table) && SameFiles(sb, old(g), table, g, table)
    {
      b := freeblock;
      ok := freeblock < sb.size;
      if ok {
        freeblock := freeblock + 1;
        g := Allocated(sb, g, b);
        Bumped(sb, disk, old(g), table, b, g, freeblock);
      }
    }

    /** A direct block, or the indirect block, if it is missing. */
    method GiveAddr(i: nat, addrs: seq<Word>, k: nat) returns (ok: bool, addrs': seq<Word>)
      requires Ok() && i < |table| && addrs == table[i].addrs && k <= NDIRECT
      modifies this`freeblock, this`g, this`table
      ensures !ok ==> addrs[k] == 0 && old(freeblock) >= sb.size
      ensures ok ==> freeblock == old(freeblock) + One(addrs[k] == 0)
      ensures ok ==> |addrs'| == |addrs| && addrs' == addrs[k := addrs'[k]]
      ensures ok ==> Ok() && Enlarged(sb, disk, old(g), old(table), disk, g, table, i, k)
      ensures ok ==> addrs' == table[i].addrs && Addr(sb, g, table, i, k) != 0
    {
      addrs', ok := addrs, true;
      if addrs[k] == 0 {
        var b;
        ok, b := Bump();
        if ok {
          ghost var g1 := g;
          addrs' := addrs[k := b];
          table := WithAddr(table, i, k, b);
          AddrGiven(sb, disk, g1, old(table), freeblock, i, k, b, table);
        }
      }
    }

    /** An entry of the indirect block, if it is missing. */
    method GiveEntry(i: nat, a: nat, e: nat, ghost k: nat) returns (ok: bool, x: nat)
      requires Ok() && i < |table| && a == table[i].addrs[NDIRECT] != 0 && e < NINDIRECT && k == NDIRECT + 1 + e
      modifies this`disk, this`freeblock, this`g
      ensures !ok ==> Addr(sb, old(g), table, i, k) == 0 && old(freeblock) >= sb.size
      ensures ok ==> freeblock == old(freeblock) + One(Addr(sb, old(g), table, i, k) == 0)
      ensures ok ==> Ok() && Enlarged(sb, old(disk), old(g), table, disk, g, table, i, k)
      ensures ok ==> x == Addr(sb, g, table, i, k) != 0
    {
      assert Addr(sb, g, table, i, NDIRECT) == a;
      x := GetWord(disk[a], e);
      assert x == Addr(sb, g, table, i, k);
      ok := true;
      if x == 0 {
        ok, x := Bump();
        if ok {
          ghost var g1 := g;
          assert Addr(sb, g1, table, i, NDIRECT) == a;
          disk := disk[a := PutWord(disk[a], e, x)];
          g := g[a := PutWord(g[a], e, x)];
          EntryGiven(sb, old(disk), g1, table, freeblock, i, e, k, x, a, disk, g);
          SlotGiven(sb, old(disk), old(g), table, g1, disk, g, i, k);
        }
      }
    }

    /** The block that holds block bn of the file, given one if it is missing. */
    method BlockFor(i: nat, addrs: seq<Word>, bn: nat, ghost need: nat)
      returns (ok: bool, x: nat, addrs': seq<Word>)
      requires Ok() && i < |table| && addrs == table[i].addrs && bn < MAXFILE
      requires Wants(sb, g, table, i, bn, need)
      modifies this`disk, this`freeblock, this`g, this`table
      ensures !ok ==> old(freeblock) + need > sb.size
      ensures ok ==> freeblock == old(freeblock) + need && IndirectFor(addrs, addrs', bn)
      ensures ok ==> Ok() && Enlarged(sb, old(disk), old(g), old(table), disk, g, table, i, DataSlot(bn))
      ensures ok ==> addrs' == table[i].addrs && x == Addr(sb, g, table, i, DataSlot(bn)) != 0
    {
      assert Asked(0);
      if bn < NDIRECT {
        ok, addrs' := GiveAddr(i, addrs, bn);
        x := if ok then addrs'[bn] else 0;
      } else {
        ok, addrs' := GiveAddr(i, addrs, NDIRECT);
        x := 0;
        if ok {
          ghost var disk1, g1, t1 := disk, g, table;
          assert Addr(sb, g1, t1, i, DataSlot(bn)) == Addr(sb, old(g), old(table), i, DataSlot(bn));
          ok, x := GiveEntry(i, addrs'[NDIRECT], bn - NDIRECT, DataSlot(bn));
          if ok { EnlargedMore(sb, old(disk), old(g), old(table), disk1, g1, t1, disk, g, table, i, DataSlot(bn)); }
        }
      }
    }

    /** Where the loop of iappend stands. */
    ghost predicate Appending(i: nat, addrs: seq<Word>, bytes: seq<Byte>, off0: nat, tot: nat, lo: nat, hi: nat,
                              disk0: Disk, g0: Disk, t0: Table)
      reads this
    {
      Ok() && Appended(sb, disk0, g0, t0, disk, g, table, i, addrs, bytes, off0, tot, lo, hi)
    }

    /** One round of the loop of iappend. */
    method Round(i: nat, addrs: seq<Word>, bytes: seq<Byte>, off0: nat, tot: nat, next: nat, bn: nat, at: nat,
                 ghost lo: nat, ghost hi: nat, ghost disk0: Disk, ghost g0: Disk, ghost t0: Table, ghost need: nat)
      returns (ok: bool, addrs': seq<Word>)
      requires Appending(i, addrs, bytes, off0, tot, lo, bn, disk0, g0, t0)
      requires RoundAt(off0, |bytes|, tot, next, bn, at) && lo <= bn < hi == bn + 1 <= MAXFILE
      requires Wants(sb, g, table, i, bn, need)
      modifies this`disk, this`freeblock, this`g, this`table
      ensures !ok ==> old(freeblock) + need > sb.size
      ensures !ok || (freeblock == old(freeblock) + need && IndirectFor(addrs, addrs', bn))
      ensures !ok || Appending(i, addrs', bytes, off0, next, lo, hi, disk0, g0, t0)
    {
      var x;
      ok, x, addrs' := BlockFor(i, addrs, bn, need);
      if ok {
        ghost var disk1, g1 := disk, g;
        var data := Splice(disk[x], at, bytes[tot..next]);
        disk := disk[x := data];
        g := g[x := data];
        DataGiven(sb, disk1, g1, table, freeblock, i, bn, x, data, disk, g);
        RoundGiven(sb, disk0, g0, t0, old(disk), old(g), old(table), disk1, g1, table, disk, g, i, addrs, addrs', bytes,
                   off0, tot, next, bn, at, lo, hi, data);
      }
    }

    /** A round, and what it takes. */
    method TallyRound(i: nat, addrs: seq<Word>, bytes: seq<Byte>, off0: nat, tot: nat, next: nat, bn: nat, at: nat,
                      ghost lo: nat, ghost hi: nat, ghost disk0: Disk, ghost g0: Disk, ghost t0: Table, ghost fb0: nat,
                      ghost off: nat, ghost off': nat, ghost end: nat)
      returns (ok: bool, addrs': seq<Word>)
      requires Appending(i, addrs, bytes, off0, tot, lo, bn, disk0, g0, t0)
      requires RoundAt(off0, |bytes|, tot, next, bn, at) && lo <= bn < hi == bn + 1 <= MAXFILE
      requires off0 == t0[i].size && NoHoles(sb, g0, t0) && NoExtra(sb, g0, t0)
      requires off == off0 + tot && off' == off0 + next && end == off0 + |bytes|
      requires Tally(addrs[NDIRECT], off, freeblock, off0, fb0)
      modifies this`disk, this`freeblock, this`g, this`table
      ensures ok || NoRoom(off0, end, fb0, sb.size)
      ensures !ok || Appending(i, addrs', bytes, off0, next, lo, hi, disk0, g0, t0)
      ensures !ok || Tally(addrs'[NDIRECT], off', freeblock, off0, fb0)
    {
      ghost var ind, fb, need := addrs[NDIRECT], freeblock, One(at == 0) + One(bn >= NDIRECT && addrs[NDIRECT] == 0);
      StartsBlock(sb, disk0, g0, t0, disk, g, table, i, addrs, bytes, off0, tot, next, bn, at, lo, need);
      ok, addrs' := Round(i, addrs, bytes, off0, tot, next, bn, at, lo, hi, disk0, g0, t0, need);
      if ok {
        TallyStep(addrs, addrs', off, off', bn, at, fb, freeblock, off0, fb0);
      } else {
        TallyNoRoom(ind, off, off', end, bn, at, fb, off0, fb0, sb.size);
      }
    }

    ghost predicate Ready()
      reads this
    {
      InOrder(sb, disk, g, table, freeblock)
    }

    /** The loop of iappend. */
    method AppendLoop(i: nat, addrs: seq<Word>, bytes: seq<Byte>, off0: nat, ghost lo: nat, ghost top: nat,
                      ghost end: nat)
      returns (r: Outcome, addrs': seq<Word>)
      requires Ready() && i < |table| && addrs == table[i].addrs && off0 == table[i].size
      requires Spans(off0, |bytes|, lo, top) && end == off0 + |bytes|
      modifies this`disk, this`freeblock, this`g, this`table
      ensures r in {Built, Full, TooLarge}
      ensures r == Full ==> NoRoom(off0, end, old(freeblock), sb.size)
      ensures r == TooLarge ==> end > MAXBYTES
      ensures r != Built ||
        (top <= MAXFILE && Appending(i, addrs', bytes, off0, |bytes|, lo, top, old(disk), old(g), old(table)))
      ensures r != Built || Tally(addrs'[NDIRECT], end, freeblock, off0, old(freeblock))
    {
      var tot := 0;
      ghost var hi: nat, off: nat := lo, off0;
      addrs' := addrs;
      assert lo <= MAXFILE;
      TallyStart(table, i, freeblock);
      while tot < |bytes|
        invariant Cursor(off0, |bytes|, tot, lo, hi) && lo <= hi
        invariant Appending(i, addrs', bytes, off0, tot, lo, hi, old(disk), old(g), old(table))
        invariant off == off0 + tot && Tally(addrs'[NDIRECT], off, freeblock, off0, old(freeblock))
      {
        NextRound(off0, |bytes|, tot, lo, hi, top);
        var bn, at := (off0 + tot) / BSIZE, (off0 + tot) % BSIZE;
        if bn >= MAXFILE {
          return TooLarge, addrs';
        }
        var next := if |bytes| - tot < BSIZE - at then |bytes| else tot + (BSIZE - at);
        var ok;
        hi := bn + 1;
        ghost var off' := off0 + next;
        ok, addrs' := TallyRound(i, addrs', bytes, off0, tot, next, bn, at, lo, hi, old(disk), old(g), old(table),
                                 old(freeblock), off, off', end);
        if !ok {
          return Full, addrs';
        }
        tot, off := next, off';
      }
      LastRound(off0, |bytes|, tot, lo, hi, top);
      return Built, addrs';
    }

    /** winode: inode i is di, with the addresses it had. */
    method WInode(i: nat, di: Dinode)
      requires Ok() && i < |table| && di.addrs == table[i].addrs
      modifies this`disk, this`g, this`table
      ensures Ok() && table == old(table)[i := di]
      ensures disk == old(disk)[sb.IBlock(i) := InodeBlock(sb, old(disk), i, di)]
      ensures SameAddrs(sb, old(g), old(table), g, table) && SameFiles(sb, old(g), old(table), g, table)
    {
      var b := sb.IBlock(i);
      var data := PutWords(disk[b], InodeBase(i), WordsOf(di), DWORDS);
      disk := disk[b := data];
      g := g[b := data];
      InodesGiven(sb, old(disk), old(g), table, freeblock, b, data, disk, g);
      FieldsGiven(sb, disk, g, table, freeblock, i, di);
      table := table[i := di];
    }

    /** iappend: the bytes are at the end of the file, and no other file has changed. */
    method IAppend(i: nat, bytes: seq<Byte>) returns (r: Outcome)
      requires Ready() && i < |table|
      modifies this`disk, this`freeblock, this`g, this`table
      ensures r in {Built, Full, TooLarge}
      ensures r == Full ==> NoRoom(old(table)[i].size, old(table)[i].size + |bytes|, old(freeblock), sb.size)
      ensures r == TooLarge ==> old(table)[i].size + |bytes| > MAXBYTES
      ensures r == Built ==> Ready()
      ensures r == Built ==> Grown(sb, old(g), old(table), old(freeblock), g, table, freeblock, i, bytes)
    {
      assert OnDisk(sb, disk, i) == table[i];
      var din := FromWords(GetWords(disk[sb.IBlock(i)], InodeBase(i)));
      var off0 := din.size;
      ghost var lo, top, end := off0 / BSIZE, Top(off0, |bytes|), off0 + |bytes|;
      TopSpans(off0, |bytes|);
      var addrs;
      r, addrs := AppendLoop(i, din.addrs, bytes, off0, lo, top, end);
      if r == Built {
        ghost var disk1, g1, t1 := disk, g, table;
        WInode(i, din.(size := off0 + |bytes|, addrs := addrs));
        AppendedAll(sb, old(disk), old(g), old(table), old(freeblock), disk1, g1, t1, disk, g, table, freeblock, i,
                    addrs, bytes, off0, lo, top, end);
      }
    }

    /** The image at first: zeros. */
    constructor (sb: Superblock)
      requires sb.Ok(ZeroDisk(sb.size))
      ensures this.sb == sb && freeblock == sb.DataStart() && freeinode == 1 && table == NoInodes(sb.ninodes) && Ready()
    {
      this.sb, disk, freeblock, freeinode := sb, ZeroDisk(sb.size), sb.DataStart(), 1;
      g := Marked(sb, ZeroDisk(sb.size), FreeFrom(sb, sb.DataStart()), sb.size);
      table := NoInodes(sb.ninodes);
      new;
      AllZero(sb, disk, g, table);
    }

    /** ialloc: the next inode, with one link and no contents. */
    method IAlloc(kind: Short) returns (i: nat)
      requires Ready() && freeinode < |table| && table[freeinode] == NoInode()
      modifies this`disk, this`freeinode, this`g, this`table
      ensures Ready() && i == old(freeinode) && freeinode == i + 1
      ensures table == old(table)[i := Dinode(kind, 0, 0, 1, 0, Zeros())]
      ensures OthersKept(sb, old(g), old(table), g, table, i)
    {
      i := freeinode;
      freeinode := freeinode + 1;
      WInode(i, Dinode(kind, 0, 0, 1, 0, Zeros()));
      SameSizes(sb, old(g), old(table), g, table, i);
      TallyStart(old(table), i, freeblock);
      IndirectAfter(old(table), table, i, freeblock, 0, freeblock);
      InodeStored(sb, old(disk), old(disk), old(table), i, table[i], disk);
    }

    /** The next bytes of a file. */
    method CopyBlock(i: nat, file: seq<Byte>, pos: nat, next: nat, ghost g0: Disk, ghost t0: Table, ghost fb0: nat,
                     ghost size0: nat, ghost end: nat) returns (r: Outcome)
      requires Ready() && pos <= next <= |file| && Grown(sb, g0, t0, fb0, g, table, freeblock, i, file[..pos])
      requires size0 == t0[i].size && end == size0 + |file|
      modifies this`disk, this`freeblock, this`g, this`table
      ensures r in {Built, Full, TooLarge}
      ensures r != Full || NoRoom(size0, end, fb0, sb.size)
      ensures r == TooLarge ==> end > MAXBYTES
      ensures r != Built || (Ready() && Grown(sb, g0, t0, fb0, g, table, freeblock, i, file[..next]))
    {
      ghost var g1, t1, fb := g, table, freeblock;
      r := IAppend(i, file[pos..next]);
      if r == Full { GrownNoRoom(sb, g0, t0, fb0, g1, t1, fb, i, file[..pos], size0 + next, end); }
      if r == Built {
        GrownMore(sb, g0, t0, fb0, g1, t1, fb, g, table, freeblock, i, file[..pos], file[pos..next], file[..next]);
      }
    }

    /** The bytes of a file, a block at a time. */
    method Copy(i: nat, file: seq<Byte>) returns (r: Outcome)
      requires Ready() && i < |table|
      modifies this`disk, this`freeblock, this`g, this`table
      ensures r in {Built, Full, TooLarge}
      ensures r != Full || NoRoom(old(table)[i].size, old(table)[i].size + |file|, old(freeblock), sb.size)
      ensures r == TooLarge ==> old(table)[i].size + |file| > MAXBYTES
      ensures r == Built ==> Ready()
      ensures r == Built ==> Grown(sb, old(g), old(table), old(freeblock), g, table, freeblock, i, file)
    {
      var pos := 0;
      GrownStart(sb, g, table, freeblock, i);
      ghost var size0, end := table[i].size, table[i].size + |file|;
      assert file[..0] == [];
      while pos < |file|
        invariant pos <= |file| && Ready()
        invariant Grown(sb, old(g), old(table), old(freeblock), g, table, freeblock, i, file[..pos])
      {
        var next := if pos + BSIZE < |file| then pos + BSIZE else |file|;
        r := CopyBlock(i, file, pos, next, old(g), old(table), old(freeblock), size0, end);
        if r != Built {
          return r;
        }
        pos := next;
      }
      assert file[..pos] == file;
      return Built;
    }

    /** The root directory. */
    method MakeRoot() returns (r: Outcome)
      requires Ready() && freeinode == 1 && 2 <= |table| < 0x1_0000 && table == NoInodes(|table|)
      requires freeblock == sb.DataStart()
      modifies this`disk, this`freeblock, this`freeinode, this`g, this`table
      ensures r in {Built, Full} && (r == Full ==> Over(sb, 0, []))
      ensures r == Built ==> Ready() && freeinode == 2 && Populated(sb, g, table, [], [])
      ensures r == Built ==> |table| == |old(table)| && Spent(sb, 0, [], freeblock)
    {
      var root := IAlloc(T_DIR);
      ghost var g1, t1, fb1 := g, table, freeblock;
      GrownStart(sb, g, table, freeblock, 1);
      var dot, dotdot := Encode(Dirent(root, DOT)), Encode(Dirent(root, DOTDOT));
      r := IAppend(root, dot);
      if r == Full { GrownNoRoom(sb, g1, t1, fb1, g1, t1, fb1, 1, [], DESIZE, DESIZE * 2); OverRoot(sb); }
      if r == Built {
        ghost var g2, t2, fb2 := g, table, freeblock;
        r := IAppend(root, dotdot);
        if r == Full { GrownNoRoom(sb, g1, t1, fb1, g2, t2, fb2, 1, dot, DESIZE * 2, DESIZE * 2); OverRoot(sb); }
        if r == Built {
          GrownMore(sb, g1, t1, fb1, g2, t2, fb2, g, table, freeblock, 1, dot, dotdot, dot + dotdot);
          RootMade(sb, g1, t1, fb1, g, table, freeblock, dot + dotdot);
        }
      }
    }

    /** The inode of a file, and its entry in the root. */
    method NewFile(name: Name, ghost names: seq<Name>, ghost files: seq<seq<Byte>>, ghost off: nat, ghost off': nat)
      returns (r: Outcome, i: nat)
      requires Ready() && Populated(sb, g, table, names, files) && freeinode == |names| + 2 < |table|
      requires off == DESIZE * (|names| + 2) && off' == DESIZE * (|names| + 3)
      modifies this`disk, this`freeblock, this`freeinode, this`g, this`table
      ensures r in {Built, Full, TooLarge} && i == |names| + 2 && freeinode == i + 1
      ensures r == Full ==> NoRoom(off, off', old(freeblock), sb.size)
      ensures r == TooLarge ==> off' > MAXBYTES
      ensures r == Built ==> |table| == |old(table)| && table[i].size == 0
      ensures r == Built ==> Ready() && Populated(sb, g, table, names + [name], files + [[]])
      ensures r == Built ==> Tally(table[1].addrs[NDIRECT], off', freeblock, off, old(freeblock))
    {
      i := IAlloc(T_FILE);
      ghost var g1, t1 := g, table;
      RootAsWas(sb, old(g), old(table), g, table, names, files, i, off);
      r := IAppend(1, Encode(Dirent(i, name)));
      if r == Built {
        FileMade(sb, old(g), old(table), g1, t1, g, table, names, files, name, i, Dirent(i, name), old(freeblock),
                 freeblock);
      }
    }

    /** The contents of a file. */
    method FillFile(i: nat, file: seq<Byte>, ghost names: seq<Name>, ghost files: seq<seq<Byte>>, ghost name: Name,
                    ghost fb0: nat, ghost ind: Word, ghost off: nat, ghost off': nat) returns (r: Outcome)
      requires Ready() && Populated(sb, g, table, names + [name], files + [[]]) && i == |names| + 2
      requires table[i].size == 0 && off == DESIZE * (|names| + 2) && off' == DESIZE * (|names| + 3)
      requires Spent(sb, |names|, files, fb0) && Tally(ind, off', freeblock, off, fb0)
      modifies this`disk, this`freeblock, this`g, this`table
      ensures r in {Built, Full, TooLarge} && (r == TooLarge ==> |file| > MAXBYTES)
      ensures r != Full || Over(sb, |names| + 1, files + [file])
      ensures r == Built ==> Ready() && |table| == |old(table)|
      ensures r == Built ==> Populated(sb, g, table, names + [name], files + [file])
      ensures r == Built ==> Spent(sb, |names| + 1, files + [file], freeblock)
    {
      ghost var g1, t1, fb := g, table, freeblock;
      r := Copy(i, file);
      if r == Full { OverFile(sb, |names|, files, file, fb0, ind, fb, off, off'); }
      if r == Built {
        FileAdded(sb, g1, t1, g, table, names, files, name, file, i, fb0, ind, fb, freeblock, off, off');
      }
    }

    /** One file of the command line. */
    method AddFile(name: Name, file: seq<Byte>, ghost names: seq<Name>, ghost files: seq<seq<Byte>>)
      returns (r: Outcome)
      requires Ready() && Populated(sb, g, table, names, files) && freeinode == |names| + 2
      requires Spent(sb, |names|, files, freeblock)
      modifies this`disk, this`freeblock, this`freeinode, this`g, this`table
      ensures r != TooMuch && (r == Full ==> Over(sb, |names| + 1, files + [file]))
      ensures r == NoInodeLeft ==> |names| + 2 == |old(table)|
      ensures r == TooLarge ==> |file| > MAXBYTES || DESIZE * (|names| + 3) > MAXBYTES
      ensures r == Built ==> Ready() && Populated(sb, g, table, names + [name], files + [file])
      ensures r == Built ==> freeinode == |names| + 3 && |table| == |old(table)|
      ensures r == Built ==> Spent(sb, |names| + 1, files + [file], freeblock)
    {
      if freeinode >= sb.ninodes {
        return NoInodeLeft;
      }
      ghost var off, off' := DESIZE * (|names| + 2), DESIZE * (|names| + 3);
      var i;
      r, i := NewFile(name, names, files, off, off');
      if r == Full { OverEntry(sb, |names|, files, file, old(freeblock), off, off'); }
      if r == Built {
        r := FillFile(i, file, names, files, name, old(freeblock), table[1].addrs[NDIRECT], off, off');
      }
    }

    /** The size of the root is rounded up: there are no holes exactly if its entries did not fill their blocks. */
    method FixRoot(ghost names: seq<Name>, ghost files: seq<seq<Byte>>, ghost n: nat, ghost m: nat)
      requires Ready() && Populated(sb, g, table, names, files) && n == |names| && m == RootSize(n)
      modifies this`disk, this`g, this`table
      ensures Ok() && Current(sb, disk, table) && Rounded(sb, g, table, names, files, m)
      ensures NoHoles(sb, g, table) <==> (n + 2) % PERBLOCK != 0
      ensures NoHoles(sb, g, table) ==> Contents(sb, g, table, 1) == DirBytes(RootEntries(names, Blanks(n)))
    {
      assert OnDisk(sb, disk, 1) == table[1];
      var din := FromWords(GetWords(disk[sb.IBlock(1)], InodeBase(1)));
      RootLength(sb, g, table, names, files, n, m);
      var off := (din.size / BSIZE + 1) * BSIZE;
      WInode(1, din.(size := off));
      InodeStored(sb, old(disk), old(disk), old(table), 1, table[1], disk);
      RootFixed(sb, old(g), old(table), g, table, names, files, n, m);
    }

    /** balloc: the bits of the blocks in use, which have to be in one block. */
    method BAlloc() returns (ok: bool)
      requires Ok() && Current(sb, disk, table)
      modifies this`disk
      ensures ok <==> freeblock < BPB
      ensures ok ==> Wf(sb, disk, table) && Current(sb, disk, table)
      ensures ok ==> forall c :: 0 <= c < sb.size ==> (Used(sb, disk, c) <==> c < freeblock)
      ensures ok ==> SameAddrs(sb, g, table, disk, table) && SameFiles(sb, g, table, disk, table)
    {
      ok := freeblock < BPB;
      if ok {
        var buf := ZeroBlock();
        forall c | 0 <= c < BPB ensures !TestBit(buf, c) { ZeroBits(c); }
        for i := 0 to freeblock
          invariant forall c {:trigger TestBit(buf, c)} :: 0 <= c < BPB ==> (TestBit(buf, c) <==> c < i)
        {
          forall c | 0 <= c < BPB ensures TestBit(SetBit(buf, i), c) <==> c < i + 1 { SetBitEffect(buf, i, c); }
          buf := SetBit(buf, i);
        }
        disk := disk[sb.bmapstart := buf];
        BitsInFirst(sb, old(disk), g, table, freeblock, buf, disk);
        forall j | 0 <= j < |table| ensures OnDisk(sb, disk, j) == table[j] {
          assert sb.inodestart <= sb.IBlock(j) < sb.bmapstart;
          assert OnDisk(sb, disk, j) == OnDisk(sb, old(disk), j);
        }
      }
    }

    /** The end of main. */
    method Finish(ghost names: seq<Name>, ghost files: seq<seq<Byte>>) returns (ok: bool)
      requires Ready() && Populated(sb, g, table, names, files)
      modifies this`disk, this`g, this`table
      ensures ok <==> freeblock < BPB
      ensures ok ==> |table| == |old(table)| && Finished(sb, disk, table, names, files)
      ensures ok ==> forall c :: 0 <= c < sb.size ==> (Used(sb, disk, c) <==> c < freeblock)
    {
      ghost var n, m := |names|, RootSize(|names|);
      FixRoot(names, files, n, m);
      ok := BAlloc();
      if ok {
        FinishedSo(sb, g, table, disk, names, files, n, m);
      }
    }

    /** File k of the command line. */
    method AddNth(names: seq<Name>, files: seq<seq<Byte>>, k: nat) returns (r: Outcome)
      requires Ready() && k < |names| == |files| && freeinode == k + 2
      requires Populated(sb, g, table, names[..k], files[..k]) && Spent(sb, k, files[..k], freeblock)
      modifies this`disk, this`freeblock, this`freeinode, this`g, this`table
      ensures r != TooMuch && (r == NoInodeLeft ==> |names| + 2 > |old(table)|)
      ensures r != Full || Over(sb, |names|, files)
      ensures r == TooLarge ==> AnyTooLarge(names, files)
      ensures r == Built ==> Ready() && |table| == |old(table)| && freeinode == k + 3
      ensures r == Built ==>
        Populated(sb, g, table, names[..k + 1], files[..k + 1]) && Spent(sb, k + 1, files[..k + 1], freeblock)
    {
      assert names[..k + 1] == names[..k] + [names[k]] && files[..k + 1] == files[..k] + [files[k]];
      r := AddFile(names[k], files[k], names[..k], files[..k]);
      if r == Full { OverAll(sb, files, k + 1); }
    }

    /** The files of the command line, one after the other. */
    method AddFiles(names: seq<Name>, files: seq<seq<Byte>>) returns (r: Outcome)
      requires Ready() && Populated(sb, g, table, [], []) && freeinode == 2 && |names| == |files|
      modifies this`disk, this`freeblock, this`freeinode, this`g, this`table
      requires Spent(sb, 0, [], freeblock)
      ensures r != TooMuch && (r == Full ==> Over(sb, |names|, files))
      ensures r == NoInodeLeft ==> |names| + 2 > |old(table)|
      ensures r == TooLarge ==> AnyTooLarge(names, files)
      ensures r == Built ==> Ready() && |table| == |old(table)| && Populated(sb, g, table, names, files)
      ensures r == Built ==> Spent(sb, |names|, files, freeblock)
    {
      assert names[..0] == [] && files[..0] == [];
      for k := 0 to |names|
        invariant Ready() && |table| == |old(table)| && freeinode == k + 2
        invariant Populated(sb, g, table, names[..k], files[..k]) && Spent(sb, k, files[..k], freeblock)
      {
        r := AddNth(names, files, k);
        if r != Built {
          return r;
        }
      }
      assert names[..|names|] == names && files[..|names|] == files;
      return Built;
    }
  }

  /** Everything goes on the volume. */
  ghost predicate Fits(sb: Superblock, names: seq<Name>, files: seq<seq<Byte>>) {
    && |names| + 2 <= sb.ninodes && !AnyTooLarge(names, files)
    && Total(sb, |names|, files) <= sb.size && Total(sb, |names|, files) < BPB
  }

  lemma FitsSoFar(sb: Superblock, disk: Disk, g: Disk, t: Table, names: seq<Name>, files: seq<seq<Byte>>, fb: nat)
    requires InOrder(sb, disk, g, t, fb) && Populated(sb, g, t, names, files) && Spent(sb, |names|, files, fb)
    ensures fb == Total(sb, |names|, files) <= sb.size && |names| + 2 <= sb.ninodes && !AnyTooLarge(names, files)
  {
    assert Asked(0);
    RootLength(sb, g, t, names, files, |names|, RootSize(|names|));
    forall k | 0 <= k < |files| ensures |files[k]| <= MAXBYTES { assert FileIs(sb, g, t, k + 2, files[k]); }
  }

  lemma {:induction false} EmptyFiles(files: seq<seq<Byte>>)
    requires forall k :: 0 <= k < |files| ==> files[k] == []
    ensures FilesCost(files) == 0
  {
    if files != [] { EmptyFiles(files[..|files| - 1]); }
  }

  /** Thirty files on a volume of mkfs's size fill the first block of the root: the file system cannot start on it. */
  lemma ThirtyFiles(sb: Superblock, names: seq<Name>, files: seq<seq<Byte>>)
    requires sb == Superblock(1000, 200, 32, 58) && |names| == |files| == 30
    requires forall k :: 0 <= k < |files| ==> files[k] == []
    ensures sb.Ok(ZeroDisk(sb.size)) && Fits(sb, names, files) && (|names| + 2) % PERBLOCK == 0
  {
    EmptyFiles(files);
  }

  lemma OverIs(sb: Superblock, n: nat, files: seq<seq<Byte>>)
    requires Over(sb, n, files)
    ensures Total(sb, n, files) > sb.size
  {
    assert Asked(0);
  }

  /** The image that mkfs makes, up to the last file. */
  method Fill(sb: Superblock, names: seq<Name>, files: seq<seq<Byte>>) returns (r: Outcome, img: Img)
    requires sb.Ok(ZeroDisk(sb.size)) && 2 <= sb.ninodes < 0x1_0000 && |names| == |files|
    ensures fresh(img) && img.sb == sb && r != TooMuch && (r != Built ==> !Fits(sb, names, files))
    ensures r == Built ==> img.Ready() && Populated(sb, img.g, img.table, names, files) && |img.table| == sb.ninodes
    ensures r == Built ==> img.freeblock == Total(sb, |names|, files)
    ensures r == Built ==> (Fits(sb, names, files) <==> img.freeblock < BPB)
  {
    img := new Img(sb);
    r := img.MakeRoot();
    if r == Full { OverAll(sb, files, 0); }
    if r == Built {
      r := img.AddFiles(names, files);
    }
    if r == Full { OverIs(sb, |names|, files); }
    if r == Built { FitsSoFar(sb, img.disk, img.g, img.table, names, files, img.freeblock); }
  }

  /** mkfs makes a volume exactly if everything goes on it. That volume is well-formed, the blocks in use are those that
      the files take, and every file has its contents. It holds the tree that LinkCount starts from, so that the file
      system can start on it, exactly when the entries do not fill the blocks of the root: rounding the size up
      otherwise adds a block that was never allocated. */
  method MakeVolume(sb: Superblock, names: seq<Name>, files: seq<seq<Byte>>) returns (r: Outcome, fs: Fs)
    requires sb.Ok(ZeroDisk(sb.size)) && 2 <= sb.ninodes < 0x1_0000 && |names| == |files|
    ensures r == Built <==> Fits(sb, names, files)
    ensures r == Built ==> fs.sb == sb && fs.Valid() && fs.Synced()
    ensures r == Built ==> forall c :: 0 <= c < sb.size ==> (Used(sb, fs.disk, c) <==> c < Total(sb, |names|, files))
    ensures r == Built ==> forall k :: 0 <= k < |files| ==> FileIs(sb, fs.disk, fs.table, k + 2, files[k])
    ensures r == Built ==>
      (Shows(fs, Formatted(names, Blanks(|names|), sb.ninodes - |names| - 2)) <==> (|names| + 2) % PERBLOCK != 0)
  {
    var img;
    r, img := Fill(sb, names, files);
    if r == Built {
      var ok := img.Finish(names, files);
      r := if ok then Built else TooMuch;
    }
    fs := new Fs(sb, img.disk, img.table);
  }
}
