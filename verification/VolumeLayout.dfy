/** Volumes laid out from nothing: bits set, inodes stored, and the blocks of a directory. */
module VolumeLayout {
  import opened Bytes
  import opened Volume
  import opened FileSystem
  import opened Directory

  // ---------------------------------------------------------------- bits

  function ZeroDisk(size: nat): (d: Disk)
    ensures |d| == size
  {
    seq(size, b => ZeroBlock())
  }

  lemma {:induction false} ZeroByte(j: nat)
    ensures !BitOf(0, j)
  {
    if j > 0 { ZeroByte(j - 1); }
  }

  lemma ZeroBits(bi: nat)
    requires bi < BPB
    ensures !TestBit(ZeroBlock(), bi)
  {
    ZeroByte(bi % 8);
  }

  /** The disk with the bits of blocks 0 .. n set, but for those in `free`. */
  function Marked(sb: Superblock, d: Disk, free: set<nat>, n: nat): (r: Disk)
    requires sb.Ok(d) && n <= sb.size
    ensures |r| == |d|
  {
    if n == 0 then d else
    var r := Marked(sb, d, free, n - 1);
    if n - 1 in free then r else r[sb.BBlock(n - 1) := SetBit(r[sb.BBlock(n - 1)], (n - 1) % BPB)]
  }

  lemma MarkOne(sb: Superblock, d: Disk, b: nat, c: nat)
    requires sb.Ok(d) && b < sb.size && c < sb.size
    ensures Used(sb, d[sb.BBlock(b) := SetBit(d[sb.BBlock(b)], b % BPB)], c) <==> c == b || Used(sb, d, c)
  {
    if sb.BBlock(b) == sb.BBlock(c) {
      SetBitEffect(d[sb.BBlock(b)], b % BPB, c % BPB);
      assert b % BPB == c % BPB ==> b == c;
    }
  }

  lemma {:induction false} MarkedBits(sb: Superblock, d: Disk, free: set<nat>, n: nat, c: nat)
    requires sb.Ok(d) && n <= sb.size && c < sb.size
    ensures Used(sb, Marked(sb, d, free, n), c) <==> (c < n && c !in free) || Used(sb, d, c)
  {
    if n > 0 {
      MarkedBits(sb, d, free, n - 1, c);
      MarkOne(sb, Marked(sb, d, free, n - 1), n - 1, c);
    }
  }

  lemma {:induction false} MarkedElsewhere(sb: Superblock, d: Disk, free: set<nat>, n: nat, b: nat)
    requires sb.Ok(d) && n <= sb.size && b < sb.size && !(sb.bmapstart <= b < sb.DataStart())
    ensures Marked(sb, d, free, n)[b] == d[b]
  {
    if n > 0 {
      MarkedElsewhere(sb, d, free, n - 1, b);
      assert sb.bmapstart <= sb.BBlock(n - 1) < sb.DataStart();
    }
  }

  // ---------------------------------------------------------------- inodes

  /** The disk with inodes 0 .. n of t stored. */
  function Stored(sb: Superblock, d: Disk, t: Table, n: nat): (r: Disk)
    requires Shaped(sb, d, t) && n <= |t|
    ensures |r| == |d|
  {
    if n == 0 then d else
    var r := Stored(sb, d, t, n - 1);
    r[sb.IBlock(n - 1) := InodeBlock(sb, r, n - 1, t[n - 1])]
  }

  lemma {:induction false} StoredInodes(sb: Superblock, d: Disk, t: Table, n: nat, i: nat)
    requires Shaped(sb, d, t) && n <= |t| && i < |t|
    ensures OnDisk(sb, Stored(sb, d, t, n), i) == if i < n then t[i] else OnDisk(sb, d, i)
  {
    if n > 0 {
      StoredInodes(sb, d, t, n - 1, i);
      StoreInode(sb, Stored(sb, d, t, n - 1), n - 1, t[n - 1], i);
    }
  }

  lemma {:induction false} StoredElsewhere(sb: Superblock, d: Disk, t: Table, n: nat, b: nat)
    requires Shaped(sb, d, t) && n <= |t| && b < sb.size && !(sb.inodestart <= b < sb.bmapstart)
    ensures Stored(sb, d, t, n)[b] == d[b]
  {
    if n > 0 {
      StoredElsewhere(sb, d, t, n - 1, b);
      assert sb.inodestart <= sb.IBlock(n - 1) < sb.bmapstart;
    }
  }

  // ---------------------------------------------------------------- a volume

  /** The volume on disk d0 whose inodes are t and whose free blocks are `free`. */
  function Laid(sb: Superblock, d0: Disk, t: Table, free: set<nat>): (r: Disk)
    requires Shaped(sb, d0, t)
    ensures |r| == |d0|
  {
    Stored(sb, Marked(sb, d0, free, sb.size), t, |t|)
  }

  ghost predicate Blocks(sb: Superblock, d0: Disk, t: Table, free: set<nat>, d: Disk)
    requires Shaped(sb, d0, t) && Shaped(sb, d, t)
  {
    && (forall c :: 0 <= c < sb.size ==> (Used(sb, d, c) <==> c !in free))
    && (forall i :: 0 <= i < |t| ==> OnDisk(sb, d, i) == t[i])
    && (forall b :: sb.DataStart() <= b < sb.size ==> d[b] == d0[b])
  }

  lemma LaidOut(sb: Superblock, d0: Disk, t: Table, free: set<nat>)
    requires Shaped(sb, d0, t) && forall b :: sb.bmapstart <= b < sb.DataStart() ==> d0[b] == ZeroBlock()
    ensures Blocks(sb, d0, t, free, Laid(sb, d0, t, free))
  {
    var m := Marked(sb, d0, free, sb.size);
    var d := Laid(sb, d0, t, free);
    forall c | 0 <= c < sb.size ensures Used(sb, d, c) <==> c !in free {
      assert sb.bmapstart <= sb.BBlock(c) < sb.DataStart();
      ZeroBits(c % BPB);
      MarkedBits(sb, d0, free, sb.size, c);
      StoredElsewhere(sb, m, t, |t|, sb.BBlock(c));
    }
    forall i | 0 <= i < |t| ensures OnDisk(sb, d, i) == t[i] {
      StoredInodes(sb, m, t, |t|, i);
    }
    forall b | sb.DataStart() <= b < sb.size ensures d[b] == d0[b] {
      StoredElsewhere(sb, m, t, |t|, b);
      MarkedElsewhere(sb, d0, free, sb.size, b);
    }
  }

  /** Inodes with direct blocks only, each its own and in use, make a well-formed volume. */
  lemma DirectVolume(sb: Superblock, d: Disk, t: Table, free: set<nat>)
    requires Shaped(sb, d, t) && (forall c :: 0 <= c < sb.size ==> (Used(sb, d, c) <==> c !in free))
    requires forall c :: c in free ==> sb.DataStart() <= c
    requires forall i :: 0 <= i < |t| ==> t[i].addrs[NDIRECT] == 0
    requires forall i, k :: 0 <= i < |t| && 0 <= k < NDIRECT && t[i].addrs[k] != 0 ==>
      sb.DataStart() <= t[i].addrs[k] < sb.size && t[i].addrs[k] !in free
    requires forall i, k, j, l :: 0 <= i < |t| && 0 <= k < NDIRECT && 0 <= j < |t| && 0 <= l < NDIRECT ==>
      t[i].addrs[k] == t[j].addrs[l] ==> t[i].addrs[k] == 0 || (i == j && k == l)
    ensures Wf(sb, d, t)
    ensures forall i, k :: 0 <= i < |t| && 0 <= k < NSLOTS ==>
      Addr(sb, d, t, i, k) == if k < NDIRECT then t[i].addrs[k] else 0
  {
  }

  // ---------------------------------------------------------------- directories

  /** Byte p of a directory; zero past its end. */
  function DirByte(es: seq<Dirent>, p: nat): Byte {
    if p < DESIZE * |es| then Encode(es[p / DESIZE])[p % DESIZE] else 0
  }

  function DirBytes(es: seq<Dirent>): (s: seq<Byte>)
    ensures |s| == DESIZE * |es|
  {
    seq(DESIZE * |es|, (p: nat) => DirByte(es, p))
  }

  /** Block j of a directory. */
  function DirBlock(es: seq<Dirent>, j: nat): (b: Block)
    ensures forall i :: 0 <= i < BSIZE ==> b[i] == DirByte(es, j * BSIZE + i)
  {
    var s := seq<Byte>(BSIZE, (i: nat) => DirByte(es, j * BSIZE + i));
    assert |s| == BSIZE;
    s
  }

  lemma DirBytesEntry(es: seq<Dirent>, k: nat, p: nat)
    requires k < |es| && p == DESIZE * k
    ensures p + DESIZE <= |DirBytes(es)| && DirBytes(es)[p..p + DESIZE] == Encode(es[k])
  {
    forall j | 0 <= j < DESIZE ensures DirByte(es, p + j) == Encode(es[k])[j] {
      assert (p + j) / DESIZE == k && (p + j) % DESIZE == j;
    }
  }

  lemma DirBytesEntries(es: seq<Dirent>)
    ensures Entries(DirBytes(es)) == es
  {
    var s := DirBytes(es);
    forall k | 0 <= k < |es| ensures Entries(s)[k] == es[k] {
      DirBytesEntry(es, k, DESIZE * k);
      DirentRoundTrip(es[k]);
      assert Entries(s)[k] == Decode(s[DESIZE * k..DESIZE * k + DESIZE]);
    }
    assert |Entries(s)| == |es|;
  }

  /** A directory whose blocks hold these entries. */
  lemma DirContents(sb: Superblock, d: Disk, t: Table, i: nat, es: seq<Dirent>, n: nat)
    requires Shaped(sb, d, t) && i < |t| && n <= NDIRECT && t[i].size == BSIZE * n == DESIZE * |es|
    requires forall bn :: 0 <= bn < n ==>
      0 < Addr(sb, d, t, i, bn) < |d| && d[Addr(sb, d, t, i, bn)] == DirBlock(es, bn)
    ensures t[i].size <= MAXBYTES && Contents(sb, d, t, i) == DirBytes(es)
  {
    forall p | 0 <= p < t[i].size ensures FileByte(sb, d, t, i, p) == DirByte(es, p) {
      DirFileByte(sb, d, t, i, es, p, p / BSIZE, p % BSIZE);
    }
  }

  lemma DirFileByte(sb: Superblock, d: Disk, t: Table, i: nat, es: seq<Dirent>, p: nat, bn: nat, j: nat)
    requires Shaped(sb, d, t) && i < |t| && bn < NDIRECT && p == bn * BSIZE + j && j < BSIZE
    requires bn == p / BSIZE && j == p % BSIZE
    requires 0 < Addr(sb, d, t, i, bn) < |d| && d[Addr(sb, d, t, i, bn)] == DirBlock(es, bn)
    ensures FileByte(sb, d, t, i, p) == DirByte(es, p)
  {
  }
}
