/** The file system on disk, as values: superblock, free-block bitmap, inodes with direct and indirect
    block addresses, and what it means for every block to have one owner. */
module Volume {
  import opened Bytes

  const NDIRECT: nat := 12
  const NINDIRECT: nat := 128          // BSIZE / sizeof(uint)
  const MAXFILE: nat := 140            // NDIRECT + NINDIRECT
  const IPB: nat := 8                  // BSIZE / sizeof(struct dinode)
  const NSLOTS: nat := 141             // NDIRECT direct addresses, the indirect block, its NINDIRECT entries

  type Short = x: int | 0 <= x < 0x1_0000

  datatype Superblock = Superblock(size: nat, ninodes: nat, inodestart: nat, bmapstart: nat) {
    /** Block containing inode i. */
    function IBlock(i: nat): nat { i / IPB + inodestart }

    /** Block of the free map containing the bit for block b. */
    function BBlock(b: nat): nat { b / BPB + bmapstart }

    /** First block after the bitmap. */
    function DataStart(): nat { bmapstart + size / BPB + 1 }

    /** The areas follow one another as mkfs lays them out. */
    predicate Ok(d: Disk) {
      && |d| == size < 0x1_0000_0000
      && 1 <= inodestart && inodestart + ninodes / IPB + 1 <= bmapstart
      && DataStart() <= size
    }
  }

  /** struct dinode; the shorts are kept as unsigned 16-bit numbers. */
  datatype Dinode = Dinode(kind: Short, major: Short, minor: Short, nlink: Short, size: Word, addrs: seq<Word>)

  type Table = seq<Dinode>

  // ---------------------------------------------------------------- block addresses

  /** Address slots of an inode: 0..11 direct, 12 the indirect block, 13..140 the entries of that block. */
  function Slot(d: Disk, di: Dinode, k: nat): Word
    requires |di.addrs| == NDIRECT + 1 && k < NSLOTS
  {
    if k <= NDIRECT then di.addrs[k]
    else if di.addrs[NDIRECT] == 0 || di.addrs[NDIRECT] >= |d| then 0
    else GetWord(d[di.addrs[NDIRECT]], k - NDIRECT - 1)
  }

  /** The slot holding the address of the file's bn-th block. */
  function DataSlot(bn: nat): (k: nat)
    requires bn < MAXFILE
    ensures k < NSLOTS && k != NDIRECT
  {
    if bn < NDIRECT then bn else bn + 1
  }

  predicate Shaped(sb: Superblock, d: Disk, t: Table) {
    && sb.Ok(d) && |t| == sb.ninodes
    && forall i :: 0 <= i < |t| ==> |t[i].addrs| == NDIRECT + 1
  }

  /** Address k of inode i. */
  function Addr(sb: Superblock, d: Disk, t: Table, i: nat, k: nat): Word
    requires Shaped(sb, d, t) && i < |t| && k < NSLOTS
  {
    Slot(d, t[i], k)
  }

  /** Block b's bit in the free map. */
  predicate Used(sb: Superblock, d: Disk, b: nat)
    requires sb.Ok(d) && b < sb.size
  {
    TestBit(d[sb.BBlock(b)], b % BPB)
  }

  /** Every address points into the data area at a block marked in use. */
  ghost predicate InArea(sb: Superblock, d: Disk, t: Table)
    requires Shaped(sb, d, t)
  {
    forall i, k :: 0 <= i < |t| && 0 <= k < NSLOTS && Addr(sb, d, t, i, k) != 0 ==>
      sb.DataStart() <= Addr(sb, d, t, i, k) < sb.size && Used(sb, d, Addr(sb, d, t, i, k))
  }

  /** No block is at two addresses. */
  ghost predicate OneOwner(sb: Superblock, d: Disk, t: Table)
    requires Shaped(sb, d, t)
  {
    forall i, k, j, l {:trigger Pair(i, k, j, l)} ::
      (Pair(i, k, j, l) && 0 <= i < |t| && 0 <= k < NSLOTS && 0 <= j < |t| && 0 <= l < NSLOTS) ==>
        Addr(sb, d, t, i, k) == Addr(sb, d, t, j, l) ==> Addr(sb, d, t, i, k) == 0 || (i == j && k == l)
  }

  /** Names two addresses to compare; OneOwner says nothing of addresses that nobody compares. */
  predicate Pair(i: int, k: int, j: int, l: int) { true }

  /** The block at address k of inode i is at no other address. */
  lemma OnlyOwner(sb: Superblock, d: Disk, t: Table, i: nat, k: nat)
    requires Shaped(sb, d, t) && OneOwner(sb, d, t) && i < |t| && k < NSLOTS && Addr(sb, d, t, i, k) != 0
    ensures forall j, l :: 0 <= j < |t| && 0 <= l < NSLOTS && Addr(sb, d, t, j, l) == Addr(sb, d, t, i, k) ==>
              j == i && l == k
  {
    forall j, l | 0 <= j < |t| && 0 <= l < NSLOTS && Addr(sb, d, t, j, l) == Addr(sb, d, t, i, k)
      ensures j == i && l == k
    {
      assert Pair(i, k, j, l);
    }
  }

  /** Boot block, superblock, log, inode blocks and bitmap are never free. */
  ghost predicate MetaUsed(sb: Superblock, d: Disk)
    requires sb.Ok(d)
  {
    forall b :: 0 <= b < sb.DataStart() ==> Used(sb, d, b)
  }

  ghost predicate Wf(sb: Superblock, d: Disk, t: Table) {
    Shaped(sb, d, t) && InArea(sb, d, t) && OneOwner(sb, d, t) && MetaUsed(sb, d)
  }

  // ---------------------------------------------------------------- contents

  function BlockAt(d: Disk, a: nat): Block {
    if a == 0 || a >= |d| then ZeroBlock() else d[a]
  }

  /** The bn-th block of file i; a block that was never allocated reads as zeros. */
  function FileBlock(sb: Superblock, d: Disk, t: Table, i: nat, bn: nat): Block
    requires Shaped(sb, d, t) && i < |t| && bn < MAXFILE
  {
    BlockAt(d, Addr(sb, d, t, i, DataSlot(bn)))
  }

  /** Every file has the same blocks before and after. */
  ghost predicate SameFiles(sb: Superblock, d: Disk, t: Table, d': Disk, t': Table)
    requires Shaped(sb, d, t) && Shaped(sb, d', t')
  {
    forall i, bn {:trigger FileBlock(sb, d', t', i, bn)} :: 0 <= i < |t| && 0 <= bn < MAXFILE ==>
      FileBlock(sb, d', t', i, bn) == FileBlock(sb, d, t, i, bn)
  }

  const MAXBYTES: nat := 71680         // MAXFILE * BSIZE

  /** Byte pos of file i. */
  function FileByte(sb: Superblock, d: Disk, t: Table, i: nat, pos: nat): Byte
    requires Shaped(sb, d, t) && i < |t| && pos < MAXBYTES
  {
    FileBlock(sb, d, t, i, pos / BSIZE)[pos % BSIZE]
  }

  /** A file as a sequence of bytes. */
  function Contents(sb: Superblock, d: Disk, t: Table, i: nat): (s: seq<Byte>)
    requires Shaped(sb, d, t) && i < |t| && t[i].size <= MAXBYTES
    ensures |s| == t[i].size
  {
    seq<Byte>(t[i].size, p requires 0 <= p < t[i].size => FileByte(sb, d, t, i, p))
  }

  /** Every block below a file's size is allocated. */
  ghost predicate NoHoles(sb: Superblock, d: Disk, t: Table)
    requires Shaped(sb, d, t)
  {
    && (forall i :: 0 <= i < |t| ==> t[i].size <= MAXBYTES)
    && forall i, bn :: 0 <= i < |t| && 0 <= bn < MAXFILE && bn * BSIZE < t[i].size ==>
         Addr(sb, d, t, i, DataSlot(bn)) != 0
  }

  /** Every address is the same before and after. */
  ghost predicate SameAddrs(sb: Superblock, d: Disk, t: Table, d': Disk, t': Table)
    requires Shaped(sb, d, t) && Shaped(sb, d', t')
  {
    forall i, k {:trigger Addr(sb, d', t', i, k)} :: 0 <= i < |t| && 0 <= k < NSLOTS ==>
      Addr(sb, d', t', i, k) == Addr(sb, d, t, i, k)
  }

  /** Nobody has block b. */
  ghost predicate Unowned(sb: Superblock, d: Disk, t: Table, b: nat)
    requires Shaped(sb, d, t)
  {
    forall i, k :: 0 <= i < |t| && 0 <= k < NSLOTS ==> Addr(sb, d, t, i, k) != b
  }

  /** Block b is nobody's indirect block. */
  ghost predicate NotIndirect(sb: Superblock, d: Disk, t: Table, b: nat)
    requires Shaped(sb, d, t)
  {
    forall i :: 0 <= i < |t| ==> Addr(sb, d, t, i, NDIRECT) != b
  }

  /** Writing a block that is nobody's indirect block changes no address. */
  lemma WriteKeepsAddrs(sb: Superblock, d: Disk, t: Table, b: nat, data: Block)
    requires Shaped(sb, d, t) && b < |d| && NotIndirect(sb, d, t, b)
    ensures Shaped(sb, d[b := data], t) && SameAddrs(sb, d, t, d[b := data], t)
  {
    forall i, k | 0 <= i < |t| && 0 <= k < NSLOTS
      ensures Addr(sb, d[b := data], t, i, k) == Addr(sb, d, t, i, k)
    {
      assert Addr(sb, d, t, i, NDIRECT) != b;
    }
  }

  // ---------------------------------------------------------------- allocation

  /** The disk with block b marked in use and zeroed, as balloc leaves it. */
  function Allocated(sb: Superblock, d: Disk, b: nat): (r: Disk)
    requires sb.Ok(d) && b < sb.size
    ensures |r| == |d|
  {
    d[sb.BBlock(b) := SetBit(d[sb.BBlock(b)], b % BPB)][b := ZeroBlock()]
  }

  lemma AllocatedBits(sb: Superblock, d: Disk, b: nat, c: nat)
    requires sb.Ok(d) && sb.DataStart() <= b < sb.size && c < sb.size
    ensures Used(sb, Allocated(sb, d, b), c) == (c == b || Used(sb, d, c))
  {
    if sb.BBlock(b) == sb.BBlock(c) {
      SetBitEffect(d[sb.BBlock(b)], b % BPB, c % BPB);
      assert b % BPB == c % BPB ==> b == c;
    }
  }

  /** A free block belongs to the data area and to nobody. */
  lemma FreeIsUnowned(sb: Superblock, d: Disk, t: Table, b: nat)
    requires Wf(sb, d, t) && b < sb.size && !Used(sb, d, b)
    ensures sb.DataStart() <= b && b != 0 && Unowned(sb, d, t, b)
  {
  }

  /** Allocating a free block disturbs nothing and nobody: the volume stays well-formed, no address and no
      file changes, and the new block is still unowned. */
  lemma AllocateKeeps(sb: Superblock, d: Disk, t: Table, b: nat)
    requires Wf(sb, d, t) && b < sb.size && !Used(sb, d, b)
    ensures var d' := Allocated(sb, d, b);
            && Wf(sb, d', t) && SameAddrs(sb, d, t, d', t) && SameFiles(sb, d, t, d', t)
            && Unowned(sb, d', t, b) && Used(sb, d', b) && d'[b] == ZeroBlock()
  {
    FreeIsUnowned(sb, d, t, b);
    var bm := sb.BBlock(b);
    var d1 := d[bm := SetBit(d[bm], b % BPB)];
    WriteKeepsAddrs(sb, d, t, bm, d1[bm]);
    WriteKeepsAddrs(sb, d1, t, b, ZeroBlock());
    forall c | 0 <= c < sb.size ensures Used(sb, Allocated(sb, d, b), c) == (c == b || Used(sb, d, c)) {
      AllocatedBits(sb, d, b, c);
    }
  }

  /** Every address but address k of inode i is the same before and after. */
  ghost predicate SameAddrsBut(sb: Superblock, d: Disk, t: Table, d': Disk, t': Table, i: nat, k: nat)
    requires Shaped(sb, d, t) && Shaped(sb, d', t')
  {
    forall j, l {:trigger Addr(sb, d', t', j, l)} :: 0 <= j < |t| && 0 <= l < NSLOTS && !(j == i && l == k) ==>
      Addr(sb, d', t', j, l) == Addr(sb, d, t, j, l)
  }

  function WithAddr(t: Table, i: nat, k: nat, b: Word): Table
    requires i < |t| && k < |t[i].addrs|
  {
    t[i := t[i].(addrs := t[i].addrs[k := b])]
  }

  /** A fresh zeroed block becomes a direct or the indirect block of inode i. */
  lemma SetAddr(sb: Superblock, d: Disk, t: Table, i: nat, k: nat, b: nat)
    requires Wf(sb, d, t) && i < |t| && k <= NDIRECT && Addr(sb, d, t, i, k) == 0
    requires sb.DataStart() <= b < sb.size && Unowned(sb, d, t, b) && Used(sb, d, b) && d[b] == ZeroBlock()
    ensures var t' := WithAddr(t, i, k, b);
            && Wf(sb, d, t') && SameFiles(sb, d, t, d, t')
            && SameAddrsBut(sb, d, t, d, t', i, k) && Addr(sb, d, t', i, k) == b
  {
    var t' := WithAddr(t, i, k, b);
    forall j, l | 0 <= j < |t| && 0 <= l < NSLOTS && !(j == i && l == k)
      ensures Addr(sb, d, t', j, l) == Addr(sb, d, t, j, l)
    {
      if j == i && k == NDIRECT && l > NDIRECT { ZeroBlockWord(l - NDIRECT - 1); }
    }
  }

  /** A fresh zeroed block becomes entry e of inode i's indirect block. */
  lemma SetEntry(sb: Superblock, d: Disk, t: Table, i: nat, e: nat, b: nat)
    requires Wf(sb, d, t) && i < |t| && e < NINDIRECT && t[i].addrs[NDIRECT] != 0
    requires Addr(sb, d, t, i, NDIRECT + 1 + e) == 0
    requires sb.DataStart() <= b < sb.size && Unowned(sb, d, t, b) && Used(sb, d, b) && d[b] == ZeroBlock()
    ensures var a := Addr(sb, d, t, i, NDIRECT);
            && a < |d| && Shaped(sb, d[a := PutWord(d[a], e, b)], t)
            && var d' := d[a := PutWord(d[a], e, b)];
            && Wf(sb, d', t) && SameFiles(sb, d, t, d', t)
            && SameAddrsBut(sb, d, t, d', t, i, NDIRECT + 1 + e) && Addr(sb, d', t, i, NDIRECT + 1 + e) == b
  {
    var a := Addr(sb, d, t, i, NDIRECT);
    var d' := d[a := PutWord(d[a], e, b)];
    EntryAddrs(sb, d, t, i, e, b);
    OnlyOwner(sb, d, t, i, NDIRECT);
    forall c | 0 <= c < sb.size ensures Used(sb, d', c) == Used(sb, d, c) { }
    forall j, bn | 0 <= j < |t| && 0 <= bn < MAXFILE
      ensures FileBlock(sb, d', t, j, bn) == FileBlock(sb, d, t, j, bn)
    {
      assert Addr(sb, d, t, j, DataSlot(bn)) != a;
    }
  }

  lemma EntryAddrs(sb: Superblock, d: Disk, t: Table, i: nat, e: nat, b: nat)
    requires Wf(sb, d, t) && i < |t| && e < NINDIRECT && t[i].addrs[NDIRECT] != 0 && b < 0x1_0000_0000
    ensures var a := Addr(sb, d, t, i, NDIRECT);
            && a < |d| && Shaped(sb, d[a := PutWord(d[a], e, b)], t)
            && var d' := d[a := PutWord(d[a], e, b)];
            && SameAddrsBut(sb, d, t, d', t, i, NDIRECT + 1 + e) && Addr(sb, d', t, i, NDIRECT + 1 + e) == b
  {
    var a := Addr(sb, d, t, i, NDIRECT);
    var d' := d[a := PutWord(d[a], e, b)];
    PutGetWord(d[a], e, b, e);
    OnlyOwner(sb, d, t, i, NDIRECT);
    forall j, l | 0 <= j < |t| && 0 <= l < NSLOTS && !(j == i && l == NDIRECT + 1 + e)
      ensures Addr(sb, d', t, j, l) == Addr(sb, d, t, j, l)
    {
      if l > NDIRECT {
        PutGetWord(d[a], e, b, l - NDIRECT - 1);
        assert Addr(sb, d, t, j, NDIRECT) == a ==> j == i;
      }
    }
  }

  /** The disk after a write to the bn-th block of file i, which is allocated. */
  function Written(sb: Superblock, d: Disk, t: Table, i: nat, bn: nat, data: Block): (r: Disk)
    requires Shaped(sb, d, t) && i < |t| && bn < MAXFILE && Addr(sb, d, t, i, DataSlot(bn)) < |d|
    ensures |r| == |d|
  {
    d[Addr(sb, d, t, i, DataSlot(bn)) := data]
  }

  /** Writing the bn-th block of file i changes that block of that file and nothing else. */
  lemma WriteFileBlock(sb: Superblock, d: Disk, t: Table, i: nat, bn: nat, data: Block)
    requires Wf(sb, d, t) && i < |t| && bn < MAXFILE && Addr(sb, d, t, i, DataSlot(bn)) != 0
    ensures Addr(sb, d, t, i, DataSlot(bn)) < |d|
    ensures var d' := Written(sb, d, t, i, bn, data);
            && Wf(sb, d', t) && SameAddrs(sb, d, t, d', t)
            && forall j, m :: 0 <= j < |t| && 0 <= m < MAXFILE ==>
                 FileBlock(sb, d', t, j, m) == if j == i && m == bn then data else FileBlock(sb, d, t, j, m)
  {
    var a := Addr(sb, d, t, i, DataSlot(bn));
    var d' := Written(sb, d, t, i, bn, data);
    OnlyOwner(sb, d, t, i, DataSlot(bn));
    WriteKeepsAddrs(sb, d, t, a, data);
    forall c | 0 <= c < sb.size ensures Used(sb, d', c) == Used(sb, d, c) { }
    forall j, m | 0 <= j < |t| && 0 <= m < MAXFILE
      ensures FileBlock(sb, d', t, j, m) == if j == i && m == bn then data else FileBlock(sb, d, t, j, m)
    {
      assert Addr(sb, d, t, j, DataSlot(m)) == a ==> j == i && DataSlot(m) == DataSlot(bn);
    }
  }

  // ---------------------------------------------------------------- release

  /** The disk with block b's bit cleared, as bfree leaves it. */
  function Released(sb: Superblock, d: Disk, b: nat): (r: Disk)
    requires sb.Ok(d) && b < sb.size
    ensures |r| == |d|
  {
    d[sb.BBlock(b) := UnsetBit(d[sb.BBlock(b)], b % BPB)]
  }

  lemma ReleasedBits(sb: Superblock, d: Disk, b: nat, c: nat)
    requires sb.Ok(d) && b < sb.size && c < sb.size
    ensures Used(sb, Released(sb, d, b), c) == (c != b && Used(sb, d, c))
  {
    if sb.BBlock(b) == sb.BBlock(c) {
      UnsetBitEffect(d[sb.BBlock(b)], b % BPB, c % BPB);
      assert b % BPB == c % BPB ==> b == c;
    }
  }

  /** Releasing a block of the data area that nobody has keeps the volume well-formed. */
  lemma ReleaseKeeps(sb: Superblock, d: Disk, t: Table, b: nat)
    requires Wf(sb, d, t) && sb.DataStart() <= b < sb.size && Unowned(sb, d, t, b)
    ensures var d' := Released(sb, d, b);
            Wf(sb, d', t) && SameAddrs(sb, d, t, d', t) && SameFiles(sb, d, t, d', t)
  {
    WriteKeepsAddrs(sb, d, t, sb.BBlock(b), UnsetBit(d[sb.BBlock(b)], b % BPB));
    forall c | 0 <= c < sb.size ensures Used(sb, Released(sb, d, b), c) == (c != b && Used(sb, d, c)) {
      ReleasedBits(sb, d, b, c);
    }
  }

  /** A block taken out of slot k, with the slots below it in the indirect block already out of use,
      is nobody's. */
  lemma ClearAddr(sb: Superblock, d: Disk, t: Table, i: nat, k: nat)
    requires Wf(sb, d, t) && i < |t| && k < NDIRECT && Addr(sb, d, t, i, k) != 0
    ensures var t' := WithAddr(t, i, k, 0);
            && Wf(sb, d, t') && SameAddrsBut(sb, d, t, d, t', i, k) && Addr(sb, d, t', i, k) == 0
            && Unowned(sb, d, t', Addr(sb, d, t, i, k))
  {
    var t' := WithAddr(t, i, k, 0);
    assert SameAddrsBut(sb, d, t, d, t', i, k);
    OnlyOwner(sb, d, t, i, k);
  }

  /** Without its indirect block an inode has no entries: all those blocks are nobody's. */
  lemma ClearIndirect(sb: Superblock, d: Disk, t: Table, i: nat)
    requires Wf(sb, d, t) && i < |t|
    ensures var t' := WithAddr(t, i, NDIRECT, 0);
            && Wf(sb, d, t') && DirectOnly(sb, d, t, t', i)
            && (forall k :: NDIRECT <= k < NSLOTS && Addr(sb, d, t, i, k) != 0 ==>
                  Unowned(sb, d, t', Addr(sb, d, t, i, k)))
  {
    var t' := WithAddr(t, i, NDIRECT, 0);
    assert DirectOnly(sb, d, t, t', i);
    forall k | NDIRECT <= k < NSLOTS && Addr(sb, d, t, i, k) != 0 ensures Unowned(sb, d, t', Addr(sb, d, t, i, k)) {
      OnlyOwner(sb, d, t, i, k);
    }
  }

  /** t' is t without the indirect block of inode i. */
  ghost predicate DirectOnly(sb: Superblock, d: Disk, t: Table, t': Table, i: nat)
    requires Shaped(sb, d, t) && Shaped(sb, d, t')
  {
    forall j, l :: 0 <= j < |t| && 0 <= l < NSLOTS ==>
      Addr(sb, d, t', j, l) == if j == i && l >= NDIRECT then 0 else Addr(sb, d, t, j, l)
  }

  // ---------------------------------------------------------------- inodes on disk

  const DWORDS: nat := 16              // sizeof(struct dinode) / sizeof(uint)

  function Pack(lo: Short, hi: Short): Word { lo + 0x1_0000 * hi }

  function WordAt(di: Dinode, j: nat): Word
    requires |di.addrs| == NDIRECT + 1 && j < DWORDS
  {
    if j == 0 then Pack(di.kind, di.major) else if j == 1 then Pack(di.minor, di.nlink)
    else if j == 2 then di.size else di.addrs[j - 3]
  }

  function WordsOf(di: Dinode): (ws: seq<Word>)
    requires |di.addrs| == NDIRECT + 1
    ensures |ws| == DWORDS
  {
    seq<Word>(DWORDS, j requires 0 <= j < DWORDS => WordAt(di, j))
  }

  function FromWords(ws: seq<Word>): (di: Dinode)
    requires |ws| == DWORDS
    ensures |di.addrs| == NDIRECT + 1
  {
    Dinode(ws[0] % 0x1_0000, ws[0] / 0x1_0000, ws[1] % 0x1_0000, ws[1] / 0x1_0000, ws[2], ws[3..])
  }

  lemma WordsRoundTrip(di: Dinode)
    requires |di.addrs| == NDIRECT + 1
    ensures FromWords(WordsOf(di)) == di
  {
    var ws := WordsOf(di);
    assert ws[0] == Pack(di.kind, di.major) && ws[1] == Pack(di.minor, di.nlink) && ws[2] == di.size;
    assert ws[3..] == di.addrs;
  }

  /** Words base .. base+16 of a block. */
  function GetWords(b: Block, base: nat): (ws: seq<Word>)
    requires base + DWORDS <= WORDS
    ensures |ws| == DWORDS
  {
    seq<Word>(DWORDS, j requires 0 <= j < DWORDS => GetWord(b, base + j))
  }

  function PutWords(b: Block, base: nat, ws: seq<Word>, k: nat): Block
    requires base + DWORDS <= WORDS && |ws| == DWORDS && k <= DWORDS
  {
    if k == 0 then b else PutWord(PutWords(b, base, ws, k - 1), base + k - 1, ws[k - 1])
  }

  lemma {:induction false} PutWordsAt(b: Block, base: nat, ws: seq<Word>, k: nat, j: nat)
    requires base + DWORDS <= WORDS && |ws| == DWORDS && k <= DWORDS && j < WORDS
    ensures GetWord(PutWords(b, base, ws, k), j) == if base <= j < base + k then ws[j - base] else GetWord(b, j)
  {
    if k > 0 {
      PutWordsAt(b, base, ws, k - 1, j);
      PutGetWord(PutWords(b, base, ws, k - 1), base + k - 1, ws[k - 1], j);
    }
  }

  function InodeBase(i: nat): (base: nat)
    ensures base + DWORDS <= WORDS
  {
    i % IPB * DWORDS
  }

  /** Inode i as the disk has it. */
  function OnDisk(sb: Superblock, d: Disk, i: nat): (di: Dinode)
    requires sb.Ok(d) && i < sb.ninodes
    ensures |di.addrs| == NDIRECT + 1
  {
    FromWords(GetWords(d[sb.IBlock(i)], InodeBase(i)))
  }

  /** The block that holds inode i, with di stored in i's place. */
  function InodeBlock(sb: Superblock, d: Disk, i: nat, di: Dinode): Block
    requires sb.Ok(d) && i < sb.ninodes && |di.addrs| == NDIRECT + 1
  {
    PutWords(d[sb.IBlock(i)], InodeBase(i), WordsOf(di), DWORDS)
  }

  /** Storing an inode changes that inode on disk and no other. */
  lemma StoreInode(sb: Superblock, d: Disk, i: nat, di: Dinode, j: nat)
    requires sb.Ok(d) && i < sb.ninodes && |di.addrs| == NDIRECT + 1 && j < sb.ninodes
    ensures var d' := d[sb.IBlock(i) := InodeBlock(sb, d, i, di)];
            sb.Ok(d') && OnDisk(sb, d', j) == if j == i then di else OnDisk(sb, d, j)
  {
    var d' := d[sb.IBlock(i) := InodeBlock(sb, d, i, di)];
    var ws := WordsOf(di);
    forall m | 0 <= m < DWORDS
      ensures GetWords(d'[sb.IBlock(j)], InodeBase(j))[m]
              == if j == i then ws[m] else GetWords(d[sb.IBlock(j)], InodeBase(j))[m]
    {
      if sb.IBlock(i) == sb.IBlock(j) {
        PutWordsAt(d[sb.IBlock(i)], InodeBase(i), ws, DWORDS, InodeBase(j) + m);
      }
    }
    if j == i {
      assert GetWords(d'[sb.IBlock(j)], InodeBase(j)) == ws;
      WordsRoundTrip(di);
    } else {
      assert GetWords(d'[sb.IBlock(j)], InodeBase(j)) == GetWords(d[sb.IBlock(j)], InodeBase(j));
    }
  }

  /** Writing an inode block leaves addresses, files and bitmap alone. */
  lemma InodeBlockKeeps(sb: Superblock, d: Disk, t: Table, b: nat, data: Block, d': Disk)
    requires Wf(sb, d, t) && sb.inodestart <= b < sb.bmapstart && d' == d[b := data]
    ensures Wf(sb, d', t) && SameAddrs(sb, d, t, d', t) && SameFiles(sb, d, t, d', t)
  {
    WriteKeepsAddrs(sb, d, t, b, data);
    forall c | 0 <= c < sb.size ensures Used(sb, d', c) == Used(sb, d, c) { }
  }

  /** Only addresses matter to ownership and to the blocks of files. */
  lemma ChangeFields(sb: Superblock, d: Disk, t: Table, i: nat, di: Dinode)
    requires Wf(sb, d, t) && i < |t| && di.addrs == t[i].addrs
    ensures var t' := t[i := di];
            Wf(sb, d, t') && SameAddrs(sb, d, t, d, t') && SameFiles(sb, d, t, d, t')
  {
    assert SameAddrs(sb, d, t, d, t[i := di]);
  }

  // ---------------------------------------------------------------- byte-level writes

  /** From (d, t) to (d', t'): the first n bytes of src have replaced bytes off .. off+n of file i; no other
      byte of any file has changed. */
  ghost predicate Replaced(sb: Superblock, d: Disk, t: Table, d': Disk, t': Table,
                           i: nat, off: nat, src: seq<Byte>, n: nat)
    requires Shaped(sb, d, t) && Shaped(sb, d', t') && n <= |src|
  {
    forall j, pos :: 0 <= j < |t| && 0 <= pos < MAXBYTES ==>
      FileByte(sb, d', t', j, pos) ==
        if j == i && off <= pos < off + n then src[pos - off] else FileByte(sb, d, t, j, pos)
  }

  /** One block of one file has changed, by a splice. */
  ghost predicate Spliced(sb: Superblock, d: Disk, t: Table, d': Disk, t': Table,
                          i: nat, bn: nat, at: nat, bytes: seq<Byte>)
    requires Shaped(sb, d, t) && Shaped(sb, d', t') && at + |bytes| <= BSIZE
  {
    forall j, m :: 0 <= j < |t| && 0 <= m < MAXFILE ==>
      FileBlock(sb, d', t', j, m) ==
        if j == i && m == bn then Splice(FileBlock(sb, d, t, j, m), at, bytes) else FileBlock(sb, d, t, j, m)
  }

  lemma SpliceExtends(sb: Superblock, d: Disk, t: Table, d1: Disk, t1: Table, d2: Disk, t2: Table,
                      i: nat, off: nat, src: seq<Byte>, n: nat, n': nat, bn: nat, at: nat)
    requires Shaped(sb, d, t) && Shaped(sb, d1, t1) && Shaped(sb, d2, t2) && |t| == |t1| == |t2|
    requires n <= n' <= |src| && bn < MAXFILE && off + n == bn * BSIZE + at && at < BSIZE && at + (n' - n) <= BSIZE
    requires Replaced(sb, d, t, d1, t1, i, off, src, n)
    requires Spliced(sb, d1, t1, d2, t2, i, bn, at, src[n..n'])
    ensures Replaced(sb, d, t, d2, t2, i, off, src, n')
  {
    forall j, pos | 0 <= j < |t| && 0 <= pos < MAXBYTES
      ensures FileByte(sb, d2, t2, j, pos) ==
                if j == i && off <= pos < off + n' then src[pos - off] else FileByte(sb, d, t, j, pos)
    {
      assert pos == pos / BSIZE * BSIZE + pos % BSIZE;
      assert FileByte(sb, d1, t1, j, pos) ==
               if j == i && off <= pos < off + n then src[pos - off] else FileByte(sb, d, t, j, pos);
    }
  }

  lemma ReplacedThenSame(sb: Superblock, d: Disk, t: Table, d1: Disk, t1: Table, d2: Disk, t2: Table,
                         i: nat, off: nat, src: seq<Byte>, n: nat)
    requires Shaped(sb, d, t) && Shaped(sb, d1, t1) && Shaped(sb, d2, t2) && |t| == |t1| == |t2| && n <= |src|
    requires Replaced(sb, d, t, d1, t1, i, off, src, n) && SameFiles(sb, d1, t1, d2, t2)
    ensures Replaced(sb, d, t, d2, t2, i, off, src, n)
  {
    forall j, pos | 0 <= j < |t| && 0 <= pos < MAXBYTES
      ensures FileByte(sb, d2, t2, j, pos) == FileByte(sb, d1, t1, j, pos)
    {
      assert FileBlock(sb, d2, t2, j, pos / BSIZE) == FileBlock(sb, d1, t1, j, pos / BSIZE);
    }
  }

  /** s with src written over it at off, growing if src reaches past its end. */
  function Overwrite(s: seq<Byte>, off: nat, src: seq<Byte>): (r: seq<Byte>)
    requires off <= |s|
    ensures |r| == if off + |src| > |s| then off + |src| else |s|
  {
    s[..off] + src + (if off + |src| > |s| then [] else s[off + |src|..])
  }

  /** Two adjoining writes are one. */
  lemma OverwriteTwice(s: seq<Byte>, off: nat, a: seq<Byte>, b: seq<Byte>)
    requires off <= |s|
    ensures Overwrite(Overwrite(s, off, a), off + |a|, b) == Overwrite(s, off, a + b)
  {
  }

  /** As sequences of bytes: file i has src spliced in at off, growing if src reaches past its end, and every
      other file is what it was. */
  lemma ReplacedContents(sb: Superblock, d: Disk, t: Table, d': Disk, t': Table, i: nat, off: nat, src: seq<Byte>)
    requires Shaped(sb, d, t) && Shaped(sb, d', t') && i < |t| && off + |src| <= MAXBYTES
    requires (forall j :: 0 <= j < |t| ==> t[j].size <= MAXBYTES) && off <= t[i].size
    requires Replaced(sb, d, t, d', t', i, off, src, |src|)
    requires t'[i].size == if off + |src| > t[i].size then off + |src| else t[i].size
    requires forall j :: 0 <= j < |t| && j != i ==> t'[j].size == t[j].size
    ensures Contents(sb, d', t', i) == Overwrite(Contents(sb, d, t, i), off, src)
    ensures forall j :: 0 <= j < |t| && j != i ==> Contents(sb, d', t', j) == Contents(sb, d, t, j)
  {
  }

  // ---------------------------------------------------------------- the blocks of one inode

  /** Block b is at one of the addresses lo .. hi of inode i. */
  ghost predicate At(sb: Superblock, d: Disk, t: Table, i: nat, lo: nat, hi: nat, b: nat)
    requires Shaped(sb, d, t) && i < |t| && hi <= NSLOTS
  {
    b != 0 && exists k :: lo <= k < hi && Addr(sb, d, t, i, k) == b
  }

  /** The blocks in use in d' are those in use in d, except the ones in `gone`. */
  ghost predicate UsedExcept(sb: Superblock, d: Disk, d': Disk, gone: set<nat>)
    requires sb.Ok(d) && sb.Ok(d')
  {
    forall b :: 0 <= b < sb.size ==> Used(sb, d', b) == (Used(sb, d, b) && b !in gone)
  }

  lemma ReleaseAnother(sb: Superblock, d: Disk, d1: Disk, gone: set<nat>, b: nat)
    requires sb.Ok(d) && sb.Ok(d1) && b < sb.size && UsedExcept(sb, d, d1, gone)
    ensures UsedExcept(sb, d, Released(sb, d1, b), gone + {b})
  {
    forall c | 0 <= c < sb.size
      ensures Used(sb, Released(sb, d1, b), c) == (Used(sb, d, c) && c !in gone + {b})
    {
      ReleasedBits(sb, d1, b, c);
    }
  }

  // ---------------------------------------------------------------- taking a free inode

  function Zeros(): (s: seq<Word>)
    ensures |s| == NDIRECT + 1 && forall k :: 0 <= k <= NDIRECT ==> s[k] == 0
  {
    seq<Word>(NDIRECT + 1, k => 0)
  }

  /** An inode without addresses takes nothing from anybody. */
  lemma EmptyInodeKeeps(sb: Superblock, d: Disk, t: Table, i: nat, di: Dinode)
    requires Wf(sb, d, t) && i < |t| && di.addrs == Zeros()
    ensures var t' := t[i := di];
            && Wf(sb, d, t')
            && (forall j, k :: 0 <= j < |t| && 0 <= k < NSLOTS ==>
                  Addr(sb, d, t', j, k) == if j == i then 0 else Addr(sb, d, t, j, k))
  {
    var t' := t[i := di];
    assert forall j, k :: 0 <= j < |t| && 0 <= k < NSLOTS ==>
      Addr(sb, d, t', j, k) == if j == i then 0 else Addr(sb, d, t, j, k);
  }
}
