/** A volume on which one unlink logs more than MAXOPBLOCKS blocks: an empty directory with a block under each of eight
    bitmap blocks is removed. There is one for every layout with that many bitmap blocks and two blocks of inodes. */
module WideDir {
  import opened Bytes
  import opened Volume
  import opened Space
  import opened FileSystem
  import opened Directory
  import opened LinkCount
  import opened Sysfile
  import opened VolumeLayout
  import Budget
  import LogDisk

  const WIDE: nat := 8                 // the directory's inode, in the second block of inodes, and its blocks

  // ---------------------------------------------------------------- the tree

  function Blank(n: nat): (es: seq<Dirent>)
    ensures |es| == n && forall k :: 0 <= k < n ==> es[k] == Dirent(0, [])
  {
    seq(n, k => Dirent(0, []))
  }

  function RootEs(name: Name): (es: seq<Dirent>)
    ensures |es| == 32 && es[0] == Dirent(1, DOT) && es[1] == Dirent(1, DOTDOT) && es[2] == Dirent(WIDE, name)
    ensures forall k :: 3 <= k < 32 ==> es[k] == Dirent(0, [])
  {
    [Dirent(1, DOT), Dirent(1, DOTDOT), Dirent(WIDE, name)] + Blank(29)
  }

  function WideEs(): (es: seq<Dirent>)
    ensures |es| == 256 && es[0] == Dirent(WIDE, DOT) && es[1] == Dirent(1, DOTDOT)
    ensures forall k :: 2 <= k < 256 ==> es[k] == Dirent(0, [])
  {
    [Dirent(WIDE, DOT), Dirent(1, DOTDOT)] + Blank(254)
  }

  ghost function WideTree(n: nat, name: Name): (v: Tree)
    requires 9 <= n <= 0x1_0000
    ensures |v| == n && IsWideTree(v, name)
  {
    var s := seq<Node>(n, (i: nat) => WideNode(name, i));
    assert |s| == n;
    s
  }

  function WideNode(name: Name, i: nat): Node {
    if i == 1 then Node(Dir, 2, RootEs(name)) else if i == WIDE then Node(Dir, 1, WideEs()) else Node(Free, 0, [])
  }

  /** The root, and in it an empty directory with room for 254 names. */
  ghost predicate IsWideTree(v: Tree, name: Name) {
    && 9 <= |v| && v[1] == Node(Dir, 2, RootEs(name)) && v[WIDE] == Node(Dir, 1, WideEs())
    && forall i :: 0 <= i < |v| && i != 1 && i != WIDE ==> v[i] == Node(Free, 0, [])
  }

  lemma WideCounts(v: Tree, name: Name, i: nat)
    requires IsWideTree(v, name) && name != DOT && 1 <= i < |v|
    ensures LinksTo(v, i, 0) == if i == 1 then 2 else if i == WIDE then 1 else 0
  {
    var u := v[WIDE := Node(Free, 0, [])];
    assert v == u[WIDE := v[WIDE]];
    LinksToUpdate(u, WIDE, v[WIDE], i, 0);
    OnlyOneDir(u, 1, i, 0);
    if i == 1 {
      NamedInOnce(RootEs(name), 1, 0, 1);
      NamedInOnce(WideEs(), 1, 0, 1);
    } else if i == WIDE {
      NamedInOnce(RootEs(name), WIDE, 0, 2);
      assert NamedIn(WideEs(), WIDE, 0) == NamedIn(WideEs(), WIDE, 1);
      NamedInZero(WideEs(), WIDE, 1);
    } else {
      NamedInZero(RootEs(name), i, 0);
      NamedInZero(WideEs(), i, 0);
    }
  }

  lemma WideShape(v: Tree, name: Name)
    requires IsWideTree(v, name) && name != DOT && name != DOTDOT
    ensures DirsRight(v) && ChildrenRight(v) && OneName(v) && NamedByParent(v) && LeftoversEmpty(v)
  {
    assert DotsFirst(v, 1) && DotsFirst(v, WIDE) && Parent(v, 1) == 1 && Parent(v, WIDE) == 1;
    forall d: nat, k: nat, c: nat | ChildAt(v, d, k, c) && c != 0 ensures d == 1 && k == 2 && c == WIDE {
    }
    assert ChildAt(v, 1, 2, WIDE);
    assert InParent(v, WIDE);
    forall e | 0 <= e < |v| && v[e].kind == Dir ensures v[e].Live() && (e == 1 || e == WIDE) {
    }
    forall e | 0 <= e < |v| && v[e].Live() ensures DotsFirst(v, e) && Parent(v, e) < |v| && v[Parent(v, e)].Live() {
    }
  }

  lemma WideInOrder(v: Tree, name: Name)
    requires IsWideTree(v, name) && name != DOT && name != DOTDOT
    ensures Inv(v) && Unlinkable(v, 1, name) && Child(v, 1, name) == WIDE && Find(v[1].entries, name) == 2
    ensures Unlink(v, 1, name)[WIDE].nlink == 0
  {
    WideShape(v, name);
    forall i | 1 <= i < |v| ensures v[i].nlink == LinksTo(v, i, 0) {
      WideCounts(v, name, i);
    }
    var es := v[1].entries;
    assert !Matches(es, 0, name) && !Matches(es, 1, name) && Matches(es, 2, name);
    assert Empty(v[WIDE]);
  }

  // ---------------------------------------------------------------- the volume

  /** The data area starts under bitmap block q and has blocks under the seven after it. */
  predicate Roomy8(sb: Superblock, q: nat) {
    && sb.size < 0x1_0000_0000 && 1 <= sb.inodestart && sb.inodestart + sb.ninodes / IPB + 1 <= sb.bmapstart
    && 9 <= sb.ninodes <= 0x1_0000
    && q * BPB <= sb.DataStart() < q * BPB + BPB && (q + 7) * BPB < sb.size
  }

  /** Block k of the directory, and the block of the root. */
  function WideAddr(sb: Superblock, q: nat, k: nat): nat { if k == 0 then sb.DataStart() else (q + k) * BPB }
  function RootAt(q: nat): nat { (q + 1) * BPB + 1 }

  lemma WideAddrs(sb: Superblock, q: nat, k: nat)
    requires Roomy8(sb, q) && k < WIDE
    ensures sb.DataStart() <= WideAddr(sb, q, k) < sb.size && WideAddr(sb, q, k) != RootAt(q)
    ensures sb.DataStart() <= RootAt(q) < sb.size && sb.BBlock(WideAddr(sb, q, k)) == sb.bmapstart + q + k
    ensures forall l :: 0 <= l < WIDE && l != k ==> WideAddr(sb, q, l) != WideAddr(sb, q, k)
  {
  }

  function WideSlot(sb: Superblock, q: nat, i: nat, k: nat): Word {
    var a := if i == 1 && k == 0 then RootAt(q) else if i == WIDE && k < WIDE then WideAddr(sb, q, k) else 0;
    if a < 0x1_0000_0000 then a else 0
  }

  function WideInode(sb: Superblock, q: nat, i: nat): (di: Dinode)
    ensures |di.addrs| == NDIRECT + 1 && forall k :: 0 <= k <= NDIRECT ==> di.addrs[k] == WideSlot(sb, q, i, k)
  {
    var addrs := seq(NDIRECT + 1, (k: nat) => WideSlot(sb, q, i, k));
    if i == 1 then Dinode(T_DIR, 0, 0, 2, BSIZE, addrs)
    else if i == WIDE then Dinode(T_DIR, 0, 0, 1, 4096, addrs)
    else Dinode(0, 0, 0, 0, 0, addrs)
  }

  function WideTable(sb: Superblock, q: nat): (t: Table)
    ensures |t| == sb.ninodes && forall i :: 0 <= i < |t| ==> t[i] == WideInode(sb, q, i)
  {
    seq(sb.ninodes, (i: nat) => WideInode(sb, q, i))
  }

  /** The disk with the first k blocks of the directory. */
  function WideDisk(sb: Superblock, q: nat, name: Name, k: nat): (d: Disk)
    requires Roomy8(sb, q) && k <= WIDE
    ensures |d| == sb.size
  {
    if k == 0 then ZeroDisk(sb.size)[RootAt(q) := DirBlock(RootEs(name), 0)] else
    WideAddrs(sb, q, k - 1);
    WideDisk(sb, q, name, k - 1)[WideAddr(sb, q, k - 1) := DirBlock(WideEs(), k - 1)]
  }

  lemma {:induction false} WideBlocks(sb: Superblock, q: nat, name: Name, k: nat, b: nat)
    requires Roomy8(sb, q) && k <= WIDE && b < sb.size
    ensures b == RootAt(q) ==> WideDisk(sb, q, name, k)[b] == DirBlock(RootEs(name), 0)
    ensures forall j :: 0 <= j < k && b == WideAddr(sb, q, j) ==> WideDisk(sb, q, name, k)[b] == DirBlock(WideEs(), j)
    ensures b < sb.DataStart() ==> WideDisk(sb, q, name, k)[b] == ZeroBlock()
  {
    WideAddrs(sb, q, if k > 0 then k - 1 else 0);
    if k > 0 { WideBlocks(sb, q, name, k - 1, b); }
  }

  predicate IsFree(sb: Superblock, q: nat, c: nat) {
    sb.DataStart() <= c && c != RootAt(q) && forall k :: 0 <= k < WIDE ==> c != WideAddr(sb, q, k)
  }

  function Unused(sb: Superblock, q: nat): set<nat> { set c: nat | c < sb.size && IsFree(sb, q, c) }

  /** Where the blocks are. */
  ghost predicate Placed(sb: Superblock, q: nat, d: Disk, t: Table)
    requires Shaped(sb, d, t)
  {
    forall i, k {:trigger Addr(sb, d, t, i, k)} :: 0 <= i < |t| && 0 <= k < NSLOTS ==>
      Addr(sb, d, t, i, k) == if k < NDIRECT then WideSlot(sb, q, i, k) else 0
  }

  lemma SlotsApart(sb: Superblock, q: nat, i: nat, k: nat, j: nat, l: nat)
    requires Roomy8(sb, q) && WideSlot(sb, q, i, k) == WideSlot(sb, q, j, l) != 0
    ensures i == j && k == l
  {
    if i == WIDE && k < WIDE { WideAddrs(sb, q, k); }
    if j == WIDE && l < WIDE { WideAddrs(sb, q, l); }
  }

  lemma SlotUsed(sb: Superblock, q: nat, i: nat, k: nat)
    requires Roomy8(sb, q) && WideSlot(sb, q, i, k) != 0
    ensures sb.DataStart() <= WideSlot(sb, q, i, k) < sb.size && WideSlot(sb, q, i, k) !in Unused(sb, q)
  {
    WideAddrs(sb, q, 0);
    if i == WIDE && k < WIDE { WideAddrs(sb, q, k); }
  }

  lemma WideWf(sb: Superblock, q: nat, d: Disk, t: Table)
    requires Roomy8(sb, q) && Shaped(sb, d, t) && t == WideTable(sb, q)
    requires forall c :: 0 <= c < sb.size ==> (Used(sb, d, c) <==> c !in Unused(sb, q))
    ensures Wf(sb, d, t) && Placed(sb, q, d, t)
  {
    forall i, k | 0 <= i < |t| && 0 <= k <= NDIRECT ensures t[i].addrs[k] == WideSlot(sb, q, i, k) {
      assert t[i] == WideInode(sb, q, i);
    }
    forall i, k | 0 <= i < |t| && 0 <= k < NDIRECT && t[i].addrs[k] != 0
      ensures sb.DataStart() <= t[i].addrs[k] < sb.size && t[i].addrs[k] !in Unused(sb, q)
    {
      SlotUsed(sb, q, i, k);
    }
    forall i, k, j, l | 0 <= i < |t| && 0 <= k < NDIRECT && 0 <= j < |t| && 0 <= l < NDIRECT
                        && t[i].addrs[k] == t[j].addrs[l]
      ensures t[i].addrs[k] == 0 || (i == j && k == l)
    {
      if t[i].addrs[k] != 0 { SlotsApart(sb, q, i, k, j, l); }
    }
    DirectVolume(sb, d, t, Unused(sb, q));
  }

  lemma WideNoHoles(sb: Superblock, q: nat, d: Disk, t: Table)
    requires Roomy8(sb, q) && Shaped(sb, d, t) && t == WideTable(sb, q) && Placed(sb, q, d, t)
    ensures NoHoles(sb, d, t)
  {
    forall i | 0 <= i < |t| ensures t[i].size == if i == 1 then BSIZE else if i == WIDE then 4096 else 0 {
      assert t[i] == WideInode(sb, q, i);
    }
    forall i, bn | 0 <= i < |t| && 0 <= bn < MAXFILE && bn * BSIZE < t[i].size
      ensures Addr(sb, d, t, i, DataSlot(bn)) != 0
    {
      WideAddrs(sb, q, if bn < WIDE then bn else 0);
      assert Addr(sb, d, t, i, bn) == WideSlot(sb, q, i, bn);
    }
  }

  /** What the blocks of the two directories hold. */
  lemma WideContents(sb: Superblock, q: nat, name: Name, d0: Disk, d: Disk, t: Table)
    requires Roomy8(sb, q) && Shaped(sb, d, t) && t == WideTable(sb, q) && Placed(sb, q, d, t)
    requires d0 == WideDisk(sb, q, name, WIDE) && forall b :: sb.DataStart() <= b < sb.size ==> d[b] == d0[b]
    ensures t[1].size <= MAXBYTES && Contents(sb, d, t, 1) == DirBytes(RootEs(name))
    ensures t[WIDE].size <= MAXBYTES && Contents(sb, d, t, WIDE) == DirBytes(WideEs())
  {
    assert t[1] == WideInode(sb, q, 1) && t[WIDE] == WideInode(sb, q, WIDE);
    WideAddrs(sb, q, 0);
    WideBlocks(sb, q, name, WIDE, RootAt(q));
    assert Addr(sb, d, t, 1, 0) == RootAt(q);
    DirContents(sb, d, t, 1, RootEs(name), 1);
    forall bn | 0 <= bn < WIDE
      ensures 0 < Addr(sb, d, t, WIDE, bn) < |d| && d[Addr(sb, d, t, WIDE, bn)] == DirBlock(WideEs(), bn)
    {
      WideAddrs(sb, q, bn);
      WideBlocks(sb, q, name, WIDE, WideAddr(sb, q, bn));
      assert Addr(sb, d, t, WIDE, bn) == WideAddr(sb, q, bn);
    }
    DirContents(sb, d, t, WIDE, WideEs(), WIDE);
  }

  lemma WideHolds(sb: Superblock, q: nat, name: Name, d: Disk, t: Table)
    requires Roomy8(sb, q) && Shaped(sb, d, t) && NoHoles(sb, d, t) && t == WideTable(sb, q)
    requires Contents(sb, d, t, 1) == DirBytes(RootEs(name)) && Contents(sb, d, t, WIDE) == DirBytes(WideEs())
    ensures Holds(sb, d, t, WideTree(sb.ninodes, name))
  {
    var v := WideTree(sb.ninodes, name);
    DirBytesEntries(RootEs(name));
    DirBytesEntries(WideEs());
    forall i | 0 <= i < |v| ensures v[i] == NodeAt(sb, d, t, i) && (t[i].kind == T_DIR ==> t[i].size % DESIZE == 0) {
      assert t[i] == WideInode(sb, q, i);
    }
  }

  /** The volume shows the tree. */
  lemma WideShows(fs: Fs, q: nat, name: Name)
    requires Roomy8(fs.sb, q) && fs.table == WideTable(fs.sb, q)
    requires fs.disk == Laid(fs.sb, WideDisk(fs.sb, q, name, WIDE), fs.table, Unused(fs.sb, q))
    ensures Shows(fs, WideTree(fs.sb.ninodes, name)) && Placed(fs.sb, q, fs.disk, fs.table)
  {
    var sb, d0, d, t := fs.sb, WideDisk(fs.sb, q, name, WIDE), fs.disk, fs.table;
    forall b | sb.bmapstart <= b < sb.DataStart() ensures d0[b] == ZeroBlock() {
      WideBlocks(sb, q, name, WIDE, b);
    }
    LaidOut(sb, d0, t, Unused(sb, q));
    WideWf(sb, q, d, t);
    WideNoHoles(sb, q, d, t);
    WideContents(sb, q, name, d0, d, t);
    WideHolds(sb, q, name, d, t);
  }

  // ---------------------------------------------------------------- the call

  /** The numbers lo .. lo + n. */
  ghost function Range(lo: nat, n: nat): (s: set<nat>)
    ensures |s| == n && forall x :: x in s <==> lo <= x < lo + n
  {
    if n == 0 then {} else Range(lo, n - 1) + {lo + n - 1}
  }

  lemma Eleven(sb: Superblock, q: nat, log: set<nat>)
    requires Roomy8(sb, q) && sb.IBlock(1) in log && sb.IBlock(WIDE) in log && RootAt(q) in log
    requires Range(sb.bmapstart + q, WIDE) <= log
    ensures |log| >= 11
  {
    var bits, others := Range(sb.bmapstart + q, WIDE), {sb.IBlock(1), sb.IBlock(WIDE), RootAt(q)};
    WideAddrs(sb, q, 7);
    assert bits !! others && |others| == 3;
    Subset(bits + others, log);
  }

  lemma WideLogs(sb: Superblock, q: nat, d: Disk, t: Table, log: set<nat>)
    requires Roomy8(sb, q) && Shaped(sb, d, t) && t == WideTable(sb, q) && Placed(sb, q, d, t)
    requires Budget.AllLogged(sb, d, t, 1, WIDE, 2, log)
    ensures |log| >= 11
  {
    assert t[WIDE] == WideInode(sb, q, WIDE);
    assert EntryBlock(2) == 0 && DataSlot(0) == 0;
    WideAddrs(sb, q, 0);
    assert Addr(sb, d, t, 1, 0) == RootAt(q);
    forall x | x in Range(sb.bmapstart + q, WIDE) ensures x in log {
      var k := x - sb.bmapstart - q;
      WideAddrs(sb, q, k);
      assert Addr(sb, d, t, WIDE, k) == WideAddr(sb, q, k);
    }
    Eleven(sb, q, log);
  }

  /** In every layout with eight or more bitmap blocks and inodes in two blocks, some unlink on some volume in order
      logs more than MAXOPBLOCKS blocks. */
  method OverBudget(sb: Superblock, name: Name) returns (fs: Fs, r: CallResult)
    requires sb.size < 0x1_0000_0000 && 1 <= sb.inodestart && sb.inodestart + sb.ninodes / IPB + 1 <= sb.bmapstart
    requires 9 <= sb.ninodes <= 0x1_0000 && NBitmaps(sb) >= 8 && name != DOT && name != DOTDOT
    ensures fs.sb == sb && r == Done && |fs.logged| > LogDisk.MAXOPBLOCKS
  {
    var q := sb.DataStart() / BPB;
    assert Roomy8(sb, q);
    var t := WideTable(sb, q);
    var d := Laid(sb, WideDisk(sb, q, name, WIDE), t, Unused(sb, q));
    fs := new Fs(sb, d, t);
    ghost var v := WideTree(sb.ninodes, name);
    WideShows(fs, q, name);
    WideInOrder(v, name);
    var dp := new Inode(1, t[1]);
    var freed;
    assert v[1] == NodeAt(sb, d, t, 1);
    r, freed := Budget.UnlinkCall(fs, dp, name, true, v);
    WideLogs(sb, q, d, t, fs.logged);
  }
}
