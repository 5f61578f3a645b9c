/** The system calls that change the directory tree, run on the inode layer; each refines a step of the tree. */
module Sysfile {
  import opened Bytes
  import opened Volume
  import opened Space
  import opened FileSystem
  import opened Directory
  import opened LinkCount
  import LinkBounds

  // ---------------------------------------------------------------- the tree a volume holds

  function KindOf(k: Short): Kind {
    if k == 0 then Free else if k == T_DIR then Dir else Other
  }

  /** The number that the 16 bits of a short stand for. */
  function Signed(n: Short): int { if n < 0x8000 then n else n - 0x1_0000 }

  function NodeAt(sb: Superblock, d: Disk, t: Table, i: nat): Node
    requires Shaped(sb, d, t) && i < |t| && t[i].size <= MAXBYTES
  {
    Node(KindOf(t[i].kind), Signed(t[i].nlink),
         if t[i].kind == T_DIR && t[i].size % DESIZE == 0 then Entries(Contents(sb, d, t, i)) else [])
  }

  /** Inodes and their contents are the nodes of v; directories are made of whole entries. */
  ghost predicate Holds(sb: Superblock, d: Disk, t: Table, v: Tree)
    requires Shaped(sb, d, t) && NoHoles(sb, d, t)
  {
    && |v| == |t| && (forall i :: 0 <= i < |t| && t[i].kind == T_DIR ==> t[i].size % DESIZE == 0)
    && forall i {:trigger NodeAt(sb, d, t, i)} :: 0 <= i < |v| ==> v[i] == NodeAt(sb, d, t, i)
  }

  /** The volume is well-formed and without holes, its inodes on disk are current, and it holds the tree v. */
  ghost predicate Shows(fs: Fs, v: Tree)
    reads fs`disk, fs`table
  {
    && fs.Valid() && NoHoles(fs.sb, fs.disk, fs.table) && fs.Synced() && Holds(fs.sb, fs.disk, fs.table, v)
  }

  /** A change to inode i and its contents alone changes the tree at that node. */
  lemma ChangeNode(sb: Superblock, d: Disk, t: Table, d': Disk, t': Table, i: nat, v: Tree, x: Node)
    requires Shaped(sb, d, t) && Shaped(sb, d', t') && NoHoles(sb, d, t) && NoHoles(sb, d', t')
    requires Holds(sb, d, t, v) && i < |t| == |t'| && x == NodeAt(sb, d', t', i)
    requires forall j :: 0 <= j < |t| && j != i ==> t'[j] == t[j] && Contents(sb, d', t', j) == Contents(sb, d, t, j)
    requires t'[i].kind == T_DIR ==> t'[i].size % DESIZE == 0
    ensures Holds(sb, d', t', v[i := x])
  {
    forall j | 0 <= j < |v| ensures v[i := x][j] == NodeAt(sb, d', t', j) {
      if j != i { assert v[j] == NodeAt(sb, d, t, j); }
    }
  }

  /** What an inode in memory says of its node. */
  lemma NodeFields(fs: Fs, ip: Inode, v: Tree)
    requires Shows(fs, v) && fs.Loaded(ip)
    ensures ip.inum < |v| && v[ip.inum].nlink == Signed(ip.nlink) && v[ip.inum].kind == KindOf(ip.kind)
  {
    assert v[ip.inum] == NodeAt(fs.sb, fs.disk, fs.table, ip.inum);
  }

  lemma NodeEntries(fs: Fs, dp: Inode, v: Tree)
    requires Shows(fs, v) && fs.Loaded(dp) && dp.kind == T_DIR
    ensures dp.inum < |v| && IsDir(fs, dp) && v[dp.inum].entries == EntriesOf(fs, dp)
  {
    assert v[dp.inum] == NodeAt(fs.sb, fs.disk, fs.table, dp.inum);
  }

  // ---------------------------------------------------------------- steps on inodes

  lemma SameContents(sb: Superblock, d: Disk, t: Table, d': Disk, t': Table, j: nat)
    requires Shaped(sb, d, t) && Shaped(sb, d', t') && SameFiles(sb, d, t, d', t') && |t| == |t'|
    requires j < |t| && t[j].size == t'[j].size <= MAXBYTES
    ensures Contents(sb, d', t', j) == Contents(sb, d, t, j)
  {
    forall p | 0 <= p < t[j].size ensures FileByte(sb, d', t', j, p) == FileByte(sb, d, t, j, p) {
    }
  }

  /** No bit and no address has changed since the volume (d, t). */
  ghost predicate Calm(fs: Fs, d: Disk, t: Table)
    reads fs`disk, fs`table
  {
    && Shaped(fs.sb, d, t) && Shaped(fs.sb, fs.disk, fs.table)
    && SameBits(fs.sb, d, fs.disk) && SameAddrs(fs.sb, d, t, fs.disk, fs.table)
  }

  /** iupdate(ip), after a change to no more than the device numbers and the link count. */
  method Store(fs: Fs, ip: Inode, ghost v: Tree, ghost v': Tree)
    requires Shows(fs, v) && ip.inum < |v| && v' == v[ip.inum := v[ip.inum].(nlink := Signed(ip.nlink))]
    requires var di := fs.table[ip.inum]; di.kind == ip.kind && di.size == ip.size && di.addrs == ip.addrs
    modifies fs`disk, fs`logged, fs`table
    ensures fs.Loaded(ip) && fs.table == old(fs.table)[ip.inum := ip.Copy()] && Shows(fs, v')
    ensures Calm(fs, old(fs.disk), old(fs.table)) && fs.logged == old(fs.logged) + {fs.sb.IBlock(ip.inum)}
  {
    ghost var d, t := fs.disk, fs.table;
    fs.IUpdate(ip);
    forall i, bn | 0 <= i < |t| && 0 <= bn < MAXFILE && bn * BSIZE < fs.table[i].size
      ensures Addr(fs.sb, fs.disk, fs.table, i, DataSlot(bn)) != 0
    {
      assert Addr(fs.sb, d, t, i, DataSlot(bn)) != 0;
    }
    forall j | 0 <= j < |t| ensures Contents(fs.sb, fs.disk, fs.table, j) == Contents(fs.sb, d, t, j) {
      SameContents(fs.sb, d, t, fs.disk, fs.table, j);
    }
    assert v[ip.inum] == NodeAt(fs.sb, d, t, ip.inum);
    ChangeNode(fs.sb, d, t, fs.disk, fs.table, ip.inum, v, v[ip.inum].(nlink := Signed(ip.nlink)));
  }

  /** ip->nlink = n; iupdate(ip): the node has a new link count, and nothing else in the tree has changed. */
  method SetLinks(fs: Fs, ip: Inode, n: Short, ghost v: Tree, ghost v': Tree)
    requires Shows(fs, v) && fs.Loaded(ip) && v' == v[ip.inum := v[ip.inum].(nlink := Signed(n))]
    modifies fs`disk, fs`logged, fs`table, ip`nlink
    ensures fs.Loaded(ip) && ip.nlink == n && fs.table == old(fs.table)[ip.inum := ip.Copy()] && Shows(fs, v')
    ensures Calm(fs, old(fs.disk), old(fs.table)) && fs.logged == old(fs.logged) + {fs.sb.IBlock(ip.inum)}
  {
    ip.nlink := n;
    Store(fs, ip, v, v');
  }

  /** ilock of an inode not yet in memory: it is read from disk. */
  method ILock(fs: Fs, inum: nat, ghost v: Tree) returns (ip: Inode)
    requires Shows(fs, v) && inum < |fs.table|
    ensures fresh(ip) && ip.inum == inum && fs.Loaded(ip)
  {
    assert OnDisk(fs.sb, fs.disk, inum) == fs.table[inum];
    ip := new Inode(inum, FromWords(GetWords(fs.disk[fs.sb.IBlock(inum)], InodeBase(inum))));
  }

  /** dirlink, as a step of the tree. */
  method AddName(fs: Fs, dp: Inode, name: Name, inum: Short, ghost v: Tree, ghost v': Tree) returns (r: LinkResult)
    requires Shows(fs, v) && fs.Loaded(dp) && dp.kind == T_DIR
    requires v' == v[dp.inum := v[dp.inum].(entries := AddEntry(v[dp.inum].entries, Dirent(inum, name)))]
    modifies fs`disk, fs`logged, fs`table, dp`addrs, dp`size
    ensures r == Taken <==> Find(v[dp.inum].entries, name) < |v[dp.inum].entries|
    ensures r == Taken ==> fs.disk == old(fs.disk) && fs.table == old(fs.table)
    ensures r == Linked ==> fs.Loaded(dp) && fs.table == old(fs.table)[dp.inum := dp.Copy()]
    ensures r == Linked ==> Shows(fs, v')
    ensures r != Taken ==>
      (r == Linked <==> EntryFits(fs.sb, old(fs.disk), old(fs.table), dp.inum, FreeSlot(v[dp.inum].entries, 0), 0))
    ensures r != Linked ||
      EntryFilled(fs.sb, old(fs.disk), old(fs.table), fs.disk, fs.table, dp.inum, FreeSlot(v[dp.inum].entries, 0))
    ensures r == Taken ==> fs.logged == old(fs.logged)
    ensures r != Linked ||
      Adds(old(fs.logged), fs.logged, {fs.sb.IBlock(dp.inum)},
           EntryNeed(fs.sb, old(fs.disk), old(fs.table), dp.inum, FreeSlot(v[dp.inum].entries, 0)))
  {
    ghost var d, t := fs.disk, fs.table;
    assert IsDir(fs, dp);
    assert v[dp.inum] == NodeAt(fs.sb, d, t, dp.inum);
    r := DirLink(fs, dp, name, inum);
    if r == Linked {
      ChangeNode(fs.sb, d, t, fs.disk, fs.table, dp.inum, v, NodeAt(fs.sb, fs.disk, fs.table, dp.inum));
    }
  }

  // ---------------------------------------------------------------- link

  datatype CallResult = Done | Refused | Panic

  /** No tree with a larger count is on any volume. */
  lemma CountsFit(fs: Fs, v: Tree, i: nat)
    requires i < |v|
    ensures v[i].nlink > MAXLINKS ==> !Shows(fs, v)
  {
    if Shows(fs, v) { assert v[i] == NodeAt(fs.sb, fs.disk, fs.table, i); }
  }

  /** A short, counted up and down as the machine does. */
  function Up(n: Short): Short { (n + 1) % 0x1_0000 }
  function Down(n: Short): Short { (n + 0xFFFF) % 0x1_0000 }

  lemma CountUp(n: Short)
    ensures Signed(Down(Up(n))) == Signed(n)
    ensures Signed(n) < MAXLINKS ==> Signed(Up(n)) == Signed(n) + 1
  {
  }

  lemma CountDown(n: Short)
    requires Signed(n) >= 1
    ensures Signed(Down(n)) == Signed(n) - 1
  {
  }

  /** An iupdate of inode block b and what follows it. */
  lemma InodeThen(was: set<nat>, mid: set<nat>, now: set<nat>, b: nat, known: set<nat>, n: nat)
    requires mid == was + {b} && Adds(mid, now, known, n)
    ensures Adds(was, now, {b} + known, n)
  {
    AddsKnown(was, mid, {b});
    AddsMore(was, mid, now, {b}, 0, known, n);
  }

  /** The error exit of sys_link takes the link count back. */
  method TakeBack(fs: Fs, ip: Inode, ghost v: Tree, ghost v1: Tree, ghost t: Table)
    requires Shows(fs, v1) && fs.Loaded(ip) && |v| == |v1| == |t|
    requires v1 == v[ip.inum := v[ip.inum].(nlink := Signed(ip.nlink))] && v[ip.inum].nlink == Signed(Down(ip.nlink))
    requires t[ip.inum] == ip.Copy().(nlink := Down(ip.nlink)) && fs.table == t[ip.inum := ip.Copy()]
    modifies fs`disk, fs`logged, fs`table, ip`nlink
    ensures Shows(fs, v) && fs.table == t && fs.logged == old(fs.logged) + {fs.sb.IBlock(ip.inum)}
  {
    SetLinks(fs, ip, Down(ip.nlink), v1, v);
  }

  /** What the two steps of sys_link amount to. */
  lemma LinkSteps(v: Tree, n: int, i: nat, d: nat, name: Name, v1: Tree, v2: Tree)
    requires i < |v| && d < |v| && i != d && v1 == v[i := v[i].(nlink := n)]
    requires v2 == v1[d := v1[d].(entries := AddEntry(v1[d].entries, Dirent(i, name)))]
    ensures n == v[i].nlink + 1 && Find(v[d].entries, name) == |v[d].entries| ==> v2 == Link(v, i, d, name)
  {
  }

  /** dirlink in sys_link, once the count has gone up: it finds room exactly when there was room before. */
  method AddLink(fs: Fs, ip: Inode, dp: Inode, name: Name, ghost v1: Tree, ghost v2: Tree, ghost d: Disk,
                 ghost t: Table)
    returns (r: LinkResult)
    requires Shows(fs, v1) && fs.Loaded(ip) && fs.Loaded(dp) && dp.kind == T_DIR && dp.inum < |t| == |fs.table|
    requires v2 == v1[dp.inum := v1[dp.inum].(entries := AddEntry(v1[dp.inum].entries, Dirent(ip.inum, name)))]
    requires Calm(fs, d, t)
    modifies fs`disk, fs`logged, fs`table, dp
    ensures r == Taken <==> Find(v1[dp.inum].entries, name) < |v1[dp.inum].entries|
    ensures r == Taken ==> fs.disk == old(fs.disk) && fs.table == old(fs.table)
    ensures r == Linked ==> Shows(fs, v2)
    ensures r != Taken ==>
      (r == Linked <==> EntryFits(fs.sb, d, t, dp.inum, FreeSlot(v1[dp.inum].entries, 0), 0))
    ensures r == Taken ==> fs.logged == old(fs.logged)
    ensures r != Linked || Adds(old(fs.logged), fs.logged, {fs.sb.IBlock(dp.inum)}, 4)
  {
    SameTakesNothing(fs.sb, d, t, fs.disk, fs.table, dp.inum);
    FitsAfter(fs.sb, d, t, fs.disk, fs.table, dp.inum, FreeSlot(v1[dp.inum].entries, 0), 0);
    ghost var d1, t1 := fs.disk, fs.table;
    r := AddName(fs, dp, name, ip.inum, v1, v2);
    if r == Linked {
      NameLogs(fs.sb, d1, t1, dp.inum, FreeSlot(v1[dp.inum].entries, 0), old(fs.logged), fs.logged);
    }
  }

  /** A new entry logs at most four blocks besides the inode's. */
  lemma NameLogs(sb: Superblock, d: Disk, t: Table, i: nat, k: nat, was: set<nat>, now: set<nat>)
    requires Shaped(sb, d, t) && i < |t| && EntryTop(k) <= MAXFILE
    requires Adds(was, now, {sb.IBlock(i)}, EntryNeed(sb, d, t, i, k))
    ensures Adds(was, now, {sb.IBlock(i)}, 4)
  {
    EntryNeeds(sb, d, t, i, k);
    AddsAtMost(was, now, {sb.IBlock(i)}, EntryNeed(sb, d, t, i, k), {sb.IBlock(i)}, 4);
  }

  /** sys_link, on the inode found at the old path and the directory, if any, found at the new one. It fails when the
      inode is a directory, the new path has no parent or the name is taken, and then leaves the tree as it was. It
      panics exactly when there is no room for the new entry. The count of an inode with MAXLINKS links wraps. */
  method SysLink(fs: Fs, ip: Inode, dp: Inode?, name: Name, ghost v: Tree) returns (r: CallResult)
    requires Shows(fs, v) && fs.Loaded(ip)
    requires dp != null ==> fs.Loaded(dp) && dp.kind == T_DIR
    modifies fs`disk, fs`logged, fs`table, ip`nlink
    modifies if dp == null then {} else {dp}
    ensures r == Refused <==>
      ip.kind == T_DIR || dp == null || Find(v[dp.inum].entries, name) < |v[dp.inum].entries|
    ensures r == Refused ==> Shows(fs, v) && fs.table == old(fs.table)
    ensures r != Refused ==>
      (r == Done <==> EntryFits(fs.sb, old(fs.disk), old(fs.table), dp.inum, FreeSlot(v[dp.inum].entries, 0), 0))
    ensures r == Done ==> (Shows(fs, Link(v, ip.inum, dp.inum, name)) <==> v[ip.inum].nlink < MAXLINKS)
    ensures r == Refused ==> fs.logged <= old(fs.logged) + {fs.sb.IBlock(ip.inum)}
    ensures r != Done || Adds(old(fs.logged), fs.logged, {fs.sb.IBlock(ip.inum), fs.sb.IBlock(dp.inum)}, 4)
  {
    if ip.kind == T_DIR {
      return Refused;
    }
    NodeFields(fs, ip, v);
    ghost var n := Signed(Up(ip.nlink));
    CountUp(ip.nlink);
    ghost var v1 := v[ip.inum := v[ip.inum].(nlink := n)];
    SetLinks(fs, ip, Up(ip.nlink), v, v1);
    if dp == null {
      TakeBack(fs, ip, v, v1, old(fs.table));
      return Refused;
    }
    ghost var v2 := v1[dp.inum := v1[dp.inum].(entries := AddEntry(v1[dp.inum].entries, Dirent(ip.inum, name)))];
    ghost var log := fs.logged;
    var linked := AddLink(fs, ip, dp, name, v1, v2, old(fs.disk), old(fs.table));
    if linked == Taken {
      TakeBack(fs, ip, v, v1, old(fs.table));
      return Refused;
    }
    if linked == Linked {
      InodeThen(old(fs.logged), log, fs.logged, fs.sb.IBlock(ip.inum), {fs.sb.IBlock(dp.inum)}, 4);
    }
    LinkSteps(v, n, ip.inum, dp.inum, name, v1, v2);
    CountsFit(fs, Link(v, ip.inum, dp.inum, name), ip.inum);
    return if linked == Linked then Done else Panic;
  }

  // ---------------------------------------------------------------- unlink

  /** isdirempty */
  method IsDirEmpty(fs: Fs, dp: Inode, ghost v: Tree) returns (empty: bool)
    requires Shows(fs, v) && fs.Loaded(dp) && dp.kind == T_DIR
    modifies fs`disk, fs`logged, fs`table, dp`addrs
    ensures fs.disk == old(fs.disk) && fs.table == old(fs.table) && dp.Copy() == old(dp.Copy())
    ensures fs.logged == old(fs.logged) && (empty <==> Empty(v[dp.inum]))
  {
    NodeEntries(fs, dp, v);
    empty := NoneAfterDots(fs, dp, v[dp.inum].entries);
  }

  /** An entry that is there is in a block that is there, so that writing it logs that block alone. */
  lemma EntryThere(sb: Superblock, d: Disk, t: Table, i: nat, k: nat)
    requires Shaped(sb, d, t) && NoHoles(sb, d, t) && i < |t| && DESIZE * k + DESIZE <= t[i].size
    ensures EntryTop(k) <= MAXFILE && Addr(sb, d, t, i, DataSlot(EntryBlock(k))) != 0
    ensures EntryNeed(sb, d, t, i, k) == 1
  {
    EntrySpan(k, DESIZE * k);
    assert EntryBlock(k) * BSIZE < t[i].size;
    EntryNeeds(sb, d, t, i, k);
  }

  /** Since (d, t) no inode has got or lost a block, and the block of entry k of directory i is in the log. */
  ghost predicate EntryAlone(fs: Fs, i: nat, k: nat, d: Disk, t: Table, log: set<nat>)
    reads fs`disk, fs`table
  {
    && Shaped(fs.sb, d, t) && Shaped(fs.sb, fs.disk, fs.table) && i < |t| && EntryTop(k) <= MAXFILE
    && SameAddrs(fs.sb, d, t, fs.disk, fs.table) && Addr(fs.sb, d, t, i, DataSlot(EntryBlock(k))) in log
  }

  lemma EntryStays(sb: Superblock, d: Disk, t: Table, d': Disk, t': Table, i: nat, k: nat)
    requires Shaped(sb, d, t) && Shaped(sb, d', t') && i < |t| == |t'| && EntryFilled(sb, d, t, d', t', i, k)
    requires Addr(sb, d, t, i, DataSlot(EntryBlock(k))) != 0
    ensures SameAddrs(sb, d, t, d', t')
  {
    forall j, l | 0 <= j < |t| && 0 <= l < NSLOTS ensures Addr(sb, d', t', j, l) == Addr(sb, d, t, j, l) {
      if j == i && Addr(sb, d, t, j, l) == 0 && l != NDIRECT {
        var bn := if l < NDIRECT then l else l - 1;
        assert l == DataSlot(bn);
      }
    }
  }

  /** writei of an entry, as a step of the tree. */
  method ZeroEntry(fs: Fs, dp: Inode, off: nat, ghost k: nat, ghost v: Tree, ghost v': Tree)
    requires Shows(fs, v) && fs.Loaded(dp) && dp.kind == T_DIR && off == DESIZE * k && k < |v[dp.inum].entries|
    requires v' == v[dp.inum := v[dp.inum].(entries := v[dp.inum].entries[k := Dirent(0, [])])]
    modifies fs`disk, fs`logged, fs`table, dp`addrs, dp`size
    ensures Shows(fs, v') && fs.Loaded(dp) && fs.table == old(fs.table)[dp.inum := dp.Copy()]
    ensures Adds(old(fs.logged), fs.logged, {fs.sb.IBlock(dp.inum)}, 1)
    ensures EntryAlone(fs, dp.inum, k, old(fs.disk), old(fs.table), fs.logged)
  {
    ghost var d, t := fs.disk, fs.table;
    assert IsDir(fs, dp);
    assert v[dp.inum] == NodeAt(fs.sb, d, t, dp.inum);
    EntryThere(fs.sb, d, t, dp.inum, k);
    var ok := WriteEntry(fs, dp, off, Dirent(0, []), k);
    EntryStays(fs.sb, d, t, fs.disk, fs.table, dp.inum, k);
    ChangeNode(fs.sb, d, t, fs.disk, fs.table, dp.inum, v, NodeAt(fs.sb, fs.disk, fs.table, dp.inum));
  }

  /** The link counts that follow a removed entry. */
  method DropLinks(fs: Fs, dp: Inode, ip: Inode, ghost v: Tree, ghost v1: Tree, ghost v': Tree)
    requires Shows(fs, v) && fs.Loaded(dp) && fs.Loaded(ip) && dp.inum != ip.inum
    requires v1 == if ip.kind == T_DIR then v[dp.inum := v[dp.inum].(nlink := Signed(Down(dp.nlink)))] else v
    requires v' == v1[ip.inum := v1[ip.inum].(nlink := Signed(Down(ip.nlink)))]
    modifies fs`disk, fs`logged, fs`table, dp`nlink, ip`nlink
    ensures Shows(fs, v') && fs.Loaded(dp) && fs.Loaded(ip)
    ensures fs.logged ==
      old(fs.logged) + {fs.sb.IBlock(ip.inum)} + if ip.kind == T_DIR then {fs.sb.IBlock(dp.inum)} else {}
    ensures SameAddrs(fs.sb, old(fs.disk), old(fs.table), fs.disk, fs.table)
  {
    if ip.kind == T_DIR {
      SetLinks(fs, dp, Down(dp.nlink), v, v1);
    }
    SetLinks(fs, ip, Down(ip.nlink), v1, v');
  }

  /** Unlinking inode c from entry k of directory i since (d, t) has logged at least the block of the entry, the block
      of inode c and, for a directory, that of inode i; no inode has got or lost a block. */
  ghost predicate UnlinkLogs(fs: Fs, i: nat, c: nat, k: nat, d: Disk, t: Table)
    reads fs`disk, fs`table, fs`logged
  {
    && EntryAlone(fs, i, k, d, t, fs.logged) && fs.sb.IBlock(c) in fs.logged
    && (c < |t| && t[c].kind == T_DIR ==> fs.sb.IBlock(i) in fs.logged)
  }

  /** The second half of sys_unlink: the entry goes, and the link counts follow. */
  method RemoveName(fs: Fs, dp: Inode, ip: Inode, off: nat, ghost k: nat, ghost v: Tree)
    requires Shows(fs, v) && fs.Loaded(dp) && fs.Loaded(ip) && dp.kind == T_DIR && dp.inum != ip.inum
    requires k < |v[dp.inum].entries| && off == DESIZE * k && v[dp.inum].entries[k].inum == ip.inum
    requires Signed(ip.nlink) >= 1 && (ip.kind == T_DIR ==> Signed(dp.nlink) >= 1)
    modifies fs`disk, fs`logged, fs`table, dp`addrs, dp`size, dp`nlink, ip`nlink
    ensures Shows(fs, Removed(v, dp.inum, k)) && fs.Loaded(dp) && fs.Loaded(ip)
    ensures Adds(old(fs.logged), fs.logged, {fs.sb.IBlock(dp.inum), fs.sb.IBlock(ip.inum)}, 1)
    ensures UnlinkLogs(fs, dp.inum, ip.inum, k, old(fs.disk), old(fs.table))
  {
    NodeFields(fs, ip, v);
    NodeFields(fs, dp, v);
    ghost var v1 := v[dp.inum := v[dp.inum].(entries := v[dp.inum].entries[k := Dirent(0, [])])];
    ghost var n, m := Signed(Down(dp.nlink)), Signed(Down(ip.nlink));
    ghost var v2 := if ip.kind == T_DIR then v1[dp.inum := v1[dp.inum].(nlink := n)] else v1;
    CountDown(ip.nlink);
    if ip.kind == T_DIR { CountDown(dp.nlink); }
    RemoveSteps(v, dp.inum, k, n, m, v1, v2);
    ZeroEntry(fs, dp, off, k, v, v1);
    ghost var log, known := fs.logged, {fs.sb.IBlock(dp.inum), fs.sb.IBlock(ip.inum)};
    DropLinks(fs, dp, ip, v1, v2, Removed(v, dp.inum, k));
    AddsKnown(log, fs.logged, known);
    AddsMore(old(fs.logged), log, fs.logged, {fs.sb.IBlock(dp.inum)}, 1, known, 0);
    assert {fs.sb.IBlock(dp.inum)} + known == known;
  }

  /** What the steps of sys_unlink amount to. */
  lemma RemoveSteps(v: Tree, d: nat, k: nat, n: int, m: int, v1: Tree, v2: Tree)
    requires d < |v| && k < |v[d].entries| && v[d].entries[k].inum < |v| && v[d].entries[k].inum != d
    requires var c := v[d].entries[k].inum;
      && v1 == v[d := v[d].(entries := v[d].entries[k := Dirent(0, [])])]
      && (v[c].kind == Dir ==> n == v[d].nlink - 1) && m == v[c].nlink - 1
      && v2 == if v[c].kind == Dir then v1[d := v1[d].(nlink := n)] else v1
    ensures var c := v[d].entries[k].inum; Removed(v, d, k) == v2[c := v2[c].(nlink := m)]
  {
  }

  /** A name other than the dots is found in linked directories only. */
  lemma OnlyLinkedHaveNames(v: Tree, d: nat, name: Name)
    requires Inv(v) && d < |v| && v[d].kind == Dir && name != DOT && name != DOTDOT
    ensures Find(v[d].entries, name) < |v[d].entries| ==> v[d].Live()
  {
    if !v[d].Live() {
      var es := v[d].entries;
      assert Leftover(v, d);
      forall k | 0 <= k < |es| ensures !Matches(es, k, name) {
      }
    }
  }

  /** The inode that a name in directory d is for; 0 if there is none. */
  function Child(v: Tree, d: nat, name: Name): nat
    requires d < |v|
  {
    var es := v[d].entries;
    if Find(es, name) < |es| then es[Find(es, name)].inum else 0
  }

  /** sys_unlink, on the parent directory, linked or not, in a tree in order. It is refused for the dots, an absent
      name and a directory that is not empty, and then changes nothing; its panics do not happen. The inode is
      returned for the caller to release. */
  method SysUnlink(fs: Fs, dp: Inode, name: Name, ghost v: Tree) returns (r: CallResult, ip: Inode?)
    requires Shows(fs, v) && Inv(v) && fs.Loaded(dp) && v[dp.inum].kind == Dir
    modifies fs`disk, fs`logged, fs`table, dp
    ensures r == if Unlinkable(v, dp.inum, name) then Done else Refused
    ensures r == Refused ==> fs.disk == old(fs.disk) && fs.table == old(fs.table)
    ensures Shows(fs, Unlink(v, dp.inum, name))
    ensures r == Done ==> ip != null && fresh(ip) && fs.Loaded(ip) && ip.inum == Child(v, dp.inum, name)
    ensures r == Refused ==> fs.logged == old(fs.logged)
    ensures r != Done ||
      Adds(old(fs.logged), fs.logged, {fs.sb.IBlock(dp.inum), fs.sb.IBlock(Child(v, dp.inum, name))}, 1)
    ensures r != Done ||
      UnlinkLogs(fs, dp.inum, Child(v, dp.inum, name), Find(v[dp.inum].entries, name), old(fs.disk), old(fs.table))
  {
    assert v[dp.inum] == NodeAt(fs.sb, fs.disk, fs.table, dp.inum);
    if name == DOT || name == DOTDOT {
      return Refused, null;
    }
    var found, off, inum := DirLookup(fs, dp, name);
    if !found {
      return Refused, null;
    }
    OnlyLinkedHaveNames(v, dp.inum, name);
    FoundPastDots(v, dp.inum, name);
    ghost var k := Find(v[dp.inum].entries, name);
    assert ChildAt(v, dp.inum, k, inum) && inum != 0;
    NamedIsLinked(v, dp.inum, k, inum);
    ip := ILock(fs, inum, v);
    NodeFields(fs, ip, v);
    if Signed(ip.nlink) < 1 {
      return Panic, null;
    }
    if ip.kind == T_DIR {
      var empty := IsDirEmpty(fs, ip, v);
      if !empty {
        return Refused, null;
      }
      ParentStaysLinked(v, dp.inum, k, inum);
    }
    RemoveName(fs, dp, ip, off, k, v);
    return Done, ip;
  }

  // ---------------------------------------------------------------- create

  /** The outcome of create: a new inode, an existing file, a refusal, or one of the panics (no inode, no space). */
  datatype CreateResult = Made | Existing | Denied | Stuck

  /** ialloc: a free inode c becomes a node of the given kind with no link and no contents. */
  method TakeNode(fs: Fs, kind: Short, ghost v: Tree, ghost w: nat) returns (ok: bool, inum: nat)
    requires Shows(fs, v) && kind != 0 && w < |v|
    modifies fs`disk, fs`logged, fs`table
    ensures ok <==> exists i :: 1 <= i < |v| && v[i].kind == Free
    ensures ok ==> 1 <= inum < |v| == |fs.table| && v[inum].kind == Free
    ensures ok ==> Shows(fs, v[inum := Node(KindOf(kind), 0, [])])
    ensures ok ==> fs.table == old(fs.table)[inum := Dinode(kind, 0, 0, 0, 0, Zeros())]
    ensures ok ==> Blanked(fs.sb, old(fs.disk), old(fs.table), fs.disk, fs.table, inum)
    ensures ok ==> fs.logged == old(fs.logged) + {fs.sb.IBlock(inum)}
  {
    ghost var d, t := fs.disk, fs.table;
    forall i | 0 <= i < |v| ensures v[i].kind == Free <==> t[i].kind == 0 {
      assert v[i] == NodeAt(fs.sb, d, t, i);
    }
    ok, inum := fs.IAlloc(kind);
    if ok {
      assert Contents(fs.sb, fs.disk, fs.table, inum) == [];
      assert NodeAt(fs.sb, fs.disk, fs.table, inum) == Node(KindOf(kind), 0, []);
      ChangeNode(fs.sb, d, t, fs.disk, fs.table, inum, v, Node(KindOf(kind), 0, []));
    }
  }

  /** Inode i has no block. */
  ghost predicate Blank(fs: Fs, i: nat)
    reads fs`disk, fs`table
  {
    && Shaped(fs.sb, fs.disk, fs.table) && i < |fs.table|
    && forall k {:trigger Addr(fs.sb, fs.disk, fs.table, i, k)} :: 0 <= k < NSLOTS ==>
         Addr(fs.sb, fs.disk, fs.table, i, k) == 0
  }

  /** Since the volume (d, t), n blocks have been taken and the addresses of inode w are the same. */
  ghost predicate TookFrom(fs: Fs, d: Disk, t: Table, w: nat, n: nat)
    reads fs`disk, fs`table
  {
    && Shaped(fs.sb, d, t) && Shaped(fs.sb, fs.disk, fs.table) && w < |t|
    && Took(fs.sb, d, t, fs.disk, fs.table, w, n)
  }

  lemma NewNodeSpace(fs: Fs, d: Disk, t: Table, d1: Disk, t1: Table, i: nat, w: nat)
    requires Shaped(fs.sb, d, t) && Shaped(fs.sb, d1, t1) && i < |t| && w < |t| && i != w
    requires Blanked(fs.sb, d, t, d1, t1, i) && Calm(fs, d1, t1)
    ensures Blank(fs, i) && TookFrom(fs, d, t, w, 0)
  {
    BlankedTakesNothing(fs.sb, d, t, d1, t1, i, w);
    SameTakesNothing(fs.sb, d1, t1, fs.disk, fs.table, w);
  }

  /** ialloc and the first iupdate: a free inode becomes a node of the given kind with one link and no contents. */
  method MakeNode(fs: Fs, kind: Short, major: Short, minor: Short, ghost v: Tree, ghost w: nat)
    returns (ok: bool, ip: Inode?)
    requires Shows(fs, v) && kind != 0 && w < |v| && v[w].kind != Free
    modifies fs`disk, fs`logged, fs`table
    ensures ok <==> exists i :: 1 <= i < |v| && v[i].kind == Free
    ensures ok ==> ip != null && fresh(ip) && fs.Loaded(ip) && 1 <= ip.inum < |v| == |fs.table|
    ensures ok ==> ip.kind == kind && ip.major == major && ip.minor == minor
    ensures ok ==> v[ip.inum].kind == Free && Shows(fs, v[ip.inum := Node(KindOf(kind), 1, [])])
    ensures ok ==> fs.table == old(fs.table)[ip.inum := ip.Copy()]
    ensures ok ==> fs.logged == old(fs.logged) + {fs.sb.IBlock(ip.inum)}
    ensures !ok || (Blank(fs, ip.inum) && TookFrom(fs, old(fs.disk), old(fs.table), w, 0))
  {
    var inum;
    ok, inum := TakeNode(fs, kind, v, w);
    if !ok {
      return false, null;
    }
    ghost var d1, t1, v1 := fs.disk, fs.table, v[inum := Node(KindOf(kind), 0, [])];
    ip := ILock(fs, inum, v1);
    ip.major, ip.minor, ip.nlink := major, minor, 1;
    Store(fs, ip, v1, v[inum := Node(KindOf(kind), 1, [])]);
    NewNodeSpace(fs, old(fs.disk), old(fs.table), d1, t1, inum, w);
  }

  function Dots(c: Short, d: Short): seq<Dirent> {
    [Dirent(c, DOT), Dirent(d, DOTDOT)]
  }

  /** The first entry of a directory without blocks takes a block; the second is in the same. */
  lemma FirstEntry(sb: Superblock, d: Disk, t: Table, i: nat)
    requires Shaped(sb, d, t) && i < |t| && forall k :: 0 <= k < NSLOTS ==> Addr(sb, d, t, i, k) == 0
    ensures Missing(sb, d, t, i, EntryBlock(0), EntryTop(0)) == 1
    ensures EntryFits(sb, d, t, i, 0, 0) <==> NFree(sb, d) >= 1
  {
    assert DataMissing(sb, d, t, i, 0, 0) == 0;
  }

  lemma SecondEntry(sb: Superblock, d: Disk, t: Table, i: nat)
    requires Shaped(sb, d, t) && i < |t| && Addr(sb, d, t, i, 0) != 0
    ensures Missing(sb, d, t, i, EntryBlock(1), EntryTop(1)) == 0 && EntryFits(sb, d, t, i, 1, 0)
  {
    assert DataMissing(sb, d, t, i, 0, 0) == 0;
  }

  /** The first entry of a new directory takes a block. */
  method AddDot(fs: Fs, ip: Inode, ghost v: Tree, ghost v': Tree) returns (ok: bool)
    requires Shows(fs, v) && fs.Loaded(ip) && ip.kind == T_DIR && ip.inum != 0 && v[ip.inum].entries == []
    requires v' == v[ip.inum := v[ip.inum].(entries := [Dirent(ip.inum, DOT)])] && Blank(fs, ip.inum)
    modifies fs`disk, fs`logged, fs`table, ip`addrs, ip`size
    ensures ok ==> Shows(fs, v') && fs.Loaded(ip) && fs.table == old(fs.table)[ip.inum := ip.Copy()]
    ensures ok <==> NFree(fs.sb, old(fs.disk)) >= 1
    ensures !ok || EntryFilled(fs.sb, old(fs.disk), old(fs.table), fs.disk, fs.table, ip.inum, 0)
    ensures !ok || Adds(old(fs.logged), fs.logged, {fs.sb.IBlock(ip.inum)}, 2)
  {
    assert AddEntry([], Dirent(ip.inum, DOT)) == [Dirent(ip.inum, DOT)];
    FirstEntry(fs.sb, fs.disk, fs.table, ip.inum);
    ghost var d, t := fs.disk, fs.table;
    var r := AddName(fs, ip, DOT, ip.inum, v, v');
    ok := r == Linked;
    if ok {
      EntryNeeds(fs.sb, d, t, ip.inum, 0);
      ghost var known := {fs.sb.IBlock(ip.inum)};
      AddsAtMost(old(fs.logged), fs.logged, known, EntryNeed(fs.sb, d, t, ip.inum, 0), known, 2);
    }
  }

  /** The second is in the same block. */
  method AddDotDot(fs: Fs, ip: Inode, parent: Short, ghost v: Tree, ghost v': Tree)
    requires Shows(fs, v) && fs.Loaded(ip) && ip.kind == T_DIR && ip.inum != 0
    requires v[ip.inum].entries == [Dirent(ip.inum, DOT)] && Addr(fs.sb, fs.disk, fs.table, ip.inum, 0) != 0
    requires v' == v[ip.inum := v[ip.inum].(entries := Dots(ip.inum, parent))]
    modifies fs`disk, fs`logged, fs`table, ip`addrs, ip`size
    ensures Shows(fs, v') && fs.Loaded(ip) && fs.table == old(fs.table)[ip.inum := ip.Copy()]
    ensures EntryFilled(fs.sb, old(fs.disk), old(fs.table), fs.disk, fs.table, ip.inum, 1)
    ensures Adds(old(fs.logged), fs.logged, {fs.sb.IBlock(ip.inum)}, 1)
  {
    ghost var es := [Dirent(ip.inum, DOT)];
    assert FreeSlot(es, 0) == 1 && AddEntry(es, Dirent(parent, DOTDOT)) == Dots(ip.inum, parent);
    assert !Matches(es, 0, DOTDOT);
    SecondEntry(fs.sb, fs.disk, fs.table, ip.inum);
    EntryNeeds(fs.sb, fs.disk, fs.table, ip.inum, 1);
    var r := AddName(fs, ip, DOTDOT, parent, v, v');
  }

  /** The first two entries of a new directory, which take one block. */
  method MakeDots(fs: Fs, ip: Inode, parent: Short, ghost v: Tree, ghost v': Tree, ghost w: nat) returns (ok: bool)
    requires Shows(fs, v) && fs.Loaded(ip) && ip.kind == T_DIR && ip.inum != 0 && v[ip.inum].entries == []
    requires v' == v[ip.inum := v[ip.inum].(entries := Dots(ip.inum, parent))]
    requires Blank(fs, ip.inum) && w < |v| && w != ip.inum
    modifies fs`disk, fs`logged, fs`table, ip`addrs, ip`size
    ensures ok ==> Shows(fs, v') && fs.Loaded(ip) && fs.table == old(fs.table)[ip.inum := ip.Copy()]
    ensures ok <==> NFree(fs.sb, old(fs.disk)) >= 1
    ensures !ok || TookFrom(fs, old(fs.disk), old(fs.table), w, 1)
    ensures !ok || Adds(old(fs.logged), fs.logged, {fs.sb.IBlock(ip.inum)}, 3)
  {
    ghost var v1 := v[ip.inum := v[ip.inum].(entries := [Dirent(ip.inum, DOT)])];
    FirstEntry(fs.sb, fs.disk, fs.table, ip.inum);
    ok := AddDot(fs, ip, v, v1);
    if ok {
      ghost var d1, t1, log := fs.disk, fs.table, fs.logged;
      InFirstBlock(fs.sb, old(fs.disk), old(fs.table), d1, t1, ip.inum);
      AddDotDot(fs, ip, parent, v1, v');
      DotsSpace(fs, old(fs.disk), old(fs.table), d1, t1, ip.inum, w);
      ghost var known := {fs.sb.IBlock(ip.inum)};
      AddsMore(old(fs.logged), log, fs.logged, known, 2, known, 1);
    }
  }

  lemma InFirstBlock(sb: Superblock, d: Disk, t: Table, d1: Disk, t1: Table, i: nat)
    requires Shaped(sb, d, t) && Shaped(sb, d1, t1) && i < |t| == |t1| && EntryFilled(sb, d, t, d1, t1, i, 0)
    ensures Addr(sb, d1, t1, i, 0) != 0 && Missing(sb, d1, t1, i, EntryBlock(1), EntryTop(1)) == 0
  {
    assert Addr(sb, d1, t1, i, DataSlot(0)) != 0;
    SecondEntry(sb, d1, t1, i);
  }

  lemma DotsSpace(fs: Fs, d: Disk, t: Table, d1: Disk, t1: Table, i: nat, w: nat)
    requires Shaped(fs.sb, d, t) && Shaped(fs.sb, d1, t1) && Shaped(fs.sb, fs.disk, fs.table)
    requires i < |t| && w < |t| && i != w && Missing(fs.sb, d, t, i, EntryBlock(0), EntryTop(0)) == 1
    requires Missing(fs.sb, d1, t1, i, EntryBlock(1), EntryTop(1)) == 0
    requires EntryFilled(fs.sb, d, t, d1, t1, i, 0) && EntryFilled(fs.sb, d1, t1, fs.disk, fs.table, i, 1)
    ensures TookFrom(fs, d, t, w, 1)
  {
    FilledTakes(fs.sb, d, t, d1, t1, i, EntryBlock(0), EntryTop(0), w, 1);
    FilledTakes(fs.sb, d1, t1, fs.disk, fs.table, i, EntryBlock(1), EntryTop(1), w, 0);
    TookMore(fs.sb, d, t, d1, t1, fs.disk, fs.table, w, 1, 0, 1);
  }

  /** The dots of a new directory c under d, and the new count n of d, for which its ".." is a link. */
  function Dotted(v: Tree, d: nat, c: nat, n: int): Tree
    requires d < |v| && c < |v|
  {
    var v1 := v[d := v[d].(nlink := n)];
    v1[c := v1[c].(entries := Dots(c, d))]
  }

  method MakeDir(fs: Fs, dp: Inode, ip: Inode, ghost v: Tree) returns (ok: bool)
    requires Shows(fs, v) && fs.Loaded(dp) && fs.Loaded(ip) && ip.kind == T_DIR && ip.inum != 0 && ip.inum != dp.inum
    requires v[ip.inum].entries == [] && Blank(fs, ip.inum)
    modifies fs`disk, fs`logged, fs`table, dp`nlink, ip`addrs, ip`size
    ensures ok ==> Shows(fs, Dotted(v, dp.inum, ip.inum, Signed(Up(old(dp.nlink))))) && fs.Loaded(dp) && fs.Loaded(ip)
    ensures ok <==> NFree(fs.sb, old(fs.disk)) >= 1
    ensures !ok || TookFrom(fs, old(fs.disk), old(fs.table), dp.inum, 1)
    ensures !ok || Adds(old(fs.logged), fs.logged, {fs.sb.IBlock(dp.inum), fs.sb.IBlock(ip.inum)}, 3)
  {
    ghost var n, d, t := Signed(Up(dp.nlink)), fs.disk, fs.table;
    ghost var v1 := v[dp.inum := v[dp.inum].(nlink := n)];
    SetLinks(fs, dp, Up(dp.nlink), v, v1);
    ghost var d1, t1, log := fs.disk, fs.table, fs.logged;
    CalmSpace(fs, d, t, ip.inum, dp.inum);
    ok := MakeDots(fs, ip, dp.inum, v1, Dotted(v, dp.inum, ip.inum, n), dp.inum);
    if ok {
      TookMore(fs.sb, d, t, d1, t1, fs.disk, fs.table, dp.inum, 0, 1, 1);
      InodeThen(old(fs.logged), log, fs.logged, fs.sb.IBlock(dp.inum), {fs.sb.IBlock(ip.inum)}, 3);
    }
  }

  lemma CalmSpace(fs: Fs, d: Disk, t: Table, i: nat, w: nat)
    requires Calm(fs, d, t) && i < |t| && w < |t|
    requires forall k :: 0 <= k < NSLOTS ==> Addr(fs.sb, d, t, i, k) == 0
    ensures Blank(fs, i) && TookFrom(fs, d, t, w, 0)
  {
    SameTakesNothing(fs.sb, d, t, fs.disk, fs.table, w);
  }

  /** The tree in the middle of create: the node is there, with its dots, and not yet its name. */
  function Unnamed(v: Tree, d: nat, c: nat, kind: Kind, n: int): Tree
    requires d < |v| && c < |v|
  {
    var v1 := v[c := Node(kind, 1, [])];
    if kind == Dir then Dotted(v1, d, c, n) else v1
  }

  /** Naming the new node completes create. */
  function Named(u: Tree, d: nat, name: Name, c: nat): Tree
    requires d < |u| && c < |u|
  {
    u[d := u[d].(entries := AddEntry(u[d].entries, Dirent(c, name)))]
  }

  lemma CreateSteps(v: Tree, d: nat, name: Name, c: nat, kind: Kind, n: int)
    requires d < |v| && c < |v| && c != d && Find(v[d].entries, name) == |v[d].entries|
    ensures kind != Dir || n == v[d].nlink + 1 ==>
      Create(v, d, name, c, kind) == Named(Unnamed(v, d, c, kind, n), d, name, c)
  {
  }

  /** Blocks that a new inode takes. */
  function OwnBlocks(kind: Short): nat { if kind == T_DIR then 1 else 0 }

  /** The node of create, with the dots of a directory. */
  method MakeUnnamed(fs: Fs, dp: Inode, kind: Short, major: Short, minor: Short, ghost v: Tree, ghost n: int)
    returns (ok: bool, ip: Inode?)
    requires Shows(fs, v) && fs.Loaded(dp) && dp.kind == T_DIR && kind != 0 && n == Signed(Up(dp.nlink))
    modifies fs`disk, fs`logged, fs`table, dp`nlink
    ensures ok ==> ip != null && fresh(ip) && fs.Loaded(ip) && fs.Loaded(dp) && 1 <= ip.inum < |v| && ip.inum != dp.inum
    ensures ok ==> v[ip.inum].kind == Free && Shows(fs, Unnamed(v, dp.inum, ip.inum, KindOf(kind), n))
    ensures ok ==> ip.kind == kind && ip.major == major && ip.minor == minor
    ensures ok <==> (exists i :: 1 <= i < |v| && v[i].kind == Free) && NFree(fs.sb, old(fs.disk)) >= OwnBlocks(kind)
    ensures !ok || TookFrom(fs, old(fs.disk), old(fs.table), dp.inum, OwnBlocks(kind))
    ensures !ok || Adds(old(fs.logged), fs.logged, {fs.sb.IBlock(ip.inum), fs.sb.IBlock(dp.inum)}, 3)
  {
    NodeFields(fs, dp, v);
    ok, ip := MakeNode(fs, kind, major, minor, v, dp.inum);
    if !ok {
      return false, null;
    }
    ghost var known := {fs.sb.IBlock(ip.inum), fs.sb.IBlock(dp.inum)};
    if kind == T_DIR {
      ghost var d, t, log := fs.disk, fs.table, fs.logged;
      ok := MakeDir(fs, dp, ip, v[ip.inum := Node(Dir, 1, [])]);
      if ok {
        TookMore(fs.sb, old(fs.disk), old(fs.table), d, t, fs.disk, fs.table, dp.inum, 0, 1, 1);
        InodeThen(old(fs.logged), log, fs.logged, fs.sb.IBlock(ip.inum), known, 3);
        assert {fs.sb.IBlock(ip.inum)} + known == known;
      }
    } else {
      AddsKnown(old(fs.logged), fs.logged, known);
      AddsAtMost(old(fs.logged), fs.logged, known, 0, known, 3);
    }
  }

  /** There is a free inode, room for the entry, and a block for a new directory's dots. */
  ghost predicate CreateFits(sb: Superblock, d: Disk, t: Table, v: Tree, i: nat, kind: Short)
    requires Shaped(sb, d, t) && i < |t| == |v|
  {
    && (exists c :: 1 <= c < |v| && v[c].kind == Free)
    && EntryFits(sb, d, t, i, FreeSlot(v[i].entries, 0), OwnBlocks(kind))
  }

  /** dirlink in create. */
  method NameIt(fs: Fs, dp: Inode, name: Name, ip: Inode, ghost u: Tree, ghost k: nat, ghost was: set<nat>)
    returns (ok: bool)
    requires Shows(fs, u) && fs.Loaded(dp) && dp.kind == T_DIR && fs.Loaded(ip) && ip.inum != dp.inum
    requires Find(u[dp.inum].entries, name) == |u[dp.inum].entries| && k == FreeSlot(u[dp.inum].entries, 0)
    requires Adds(was, fs.logged, {fs.sb.IBlock(ip.inum), fs.sb.IBlock(dp.inum)}, 3)
    modifies fs`disk, fs`logged, fs`table, dp`addrs, dp`size
    ensures ok <==> EntryFits(fs.sb, old(fs.disk), old(fs.table), dp.inum, k, 0)
    ensures ok ==> Shows(fs, Named(u, dp.inum, name, ip.inum)) && fs.Loaded(ip)
    ensures !ok || Adds(was, fs.logged, {fs.sb.IBlock(ip.inum), fs.sb.IBlock(dp.inum)}, 7)
  {
    ghost var d, t, log := fs.disk, fs.table, fs.logged;
    var linked := AddName(fs, dp, name, ip.inum, u, Named(u, dp.inum, name, ip.inum));
    ok := linked == Linked;
    if ok {
      ghost var known := {fs.sb.IBlock(ip.inum), fs.sb.IBlock(dp.inum)};
      NameLogs(fs.sb, d, t, dp.inum, k, log, fs.logged);
      AddsMore(was, log, fs.logged, known, 3, {fs.sb.IBlock(dp.inum)}, 4);
      assert known + {fs.sb.IBlock(dp.inum)} == known;
    }
  }

  /** create of a name that is not there. */
  method CreateNew(fs: Fs, dp: Inode, name: Name, kind: Short, major: Short, minor: Short, ghost v: Tree)
    returns (ok: bool, ip: Inode?)
    requires Shows(fs, v) && fs.Loaded(dp) && dp.kind == T_DIR && kind != 0
    requires Find(v[dp.inum].entries, name) == |v[dp.inum].entries|
    modifies fs`disk, fs`logged, fs`table, dp
    ensures ok <==> CreateFits(fs.sb, old(fs.disk), old(fs.table), v, dp.inum, kind)
    ensures ok ==> ip != null && fs.Loaded(ip) && 1 <= ip.inum < |v| && v[ip.inum].kind == Free && ip.inum != dp.inum
    ensures ok ==> ip.kind == kind && ip.major == major && ip.minor == minor
    ensures ok ==>
      Shows(fs, Named(Unnamed(v, dp.inum, ip.inum, KindOf(kind), Signed(Up(old(dp.nlink)))), dp.inum, name, ip.inum))
    ensures !ok || Adds(old(fs.logged), fs.logged, {fs.sb.IBlock(ip.inum), fs.sb.IBlock(dp.inum)}, 7)
  {
    ghost var n, k := Signed(Up(dp.nlink)), FreeSlot(v[dp.inum].entries, 0);
    ok, ip := MakeUnnamed(fs, dp, kind, major, minor, v, n);
    if ok {
      ghost var u := Unnamed(v, dp.inum, ip.inum, KindOf(kind), n);
      assert u[dp.inum].entries == v[dp.inum].entries;
      FitsAfter(fs.sb, old(fs.disk), old(fs.table), fs.disk, fs.table, dp.inum, k, OwnBlocks(kind));
      ok := NameIt(fs, dp, name, ip, u, k, old(fs.logged));
    }
  }

  /** The link count of a directory is smaller than the number of entries of the largest file, so it never wraps. */
  lemma DirCountFits(fs: Fs, v: Tree, d: nat)
    requires Shows(fs, v) && Inv(v) && d < |v| && v[d].kind == Dir
    ensures v[d].nlink < MAXBYTES / DESIZE < MAXLINKS
  {
    assert v[d] == NodeAt(fs.sb, fs.disk, fs.table, d);
    if v[d].Live() { LinkBounds.DirLinksBound(v, d); }
  }

  /** The tree after create is the one it should be. */
  lemma CreateStep(v: Tree, d: nat, name: Name, c: nat, kind: Kind, n: Short)
    requires d < |v| && c < |v| && c != d && Find(v[d].entries, name) == |v[d].entries|
    requires v[d].nlink == Signed(n) < MAXLINKS
    ensures Named(Unnamed(v, d, c, kind, Signed(Up(n))), d, name, c) == Create(v, d, name, c, kind)
  {
    CountUp(n);
    CreateSteps(v, d, name, c, kind, Signed(Up(n)));
  }

  /** create, in a directory of a tree in order. An existing file is returned when a file is asked for, any other
      existing name is refused, and both leave the volume as it was; otherwise a free inode gets the name, exactly when
      there is one and there is room. */
  method CreateInode(fs: Fs, dp: Inode, name: Name, kind: Short, major: Short, minor: Short, ghost v: Tree)
    returns (r: CreateResult, ip: Inode?)
    requires Shows(fs, v) && Inv(v) && fs.Loaded(dp) && v[dp.inum].kind == Dir && kind != 0
    modifies fs`disk, fs`logged, fs`table, dp
    ensures r == Existing || r == Denied ==> fs.disk == old(fs.disk) && fs.table == old(fs.table)
    ensures var es := v[dp.inum].entries; var k := Find(es, name);
      if k == |es| then r == if CreateFits(fs.sb, old(fs.disk), old(fs.table), v, dp.inum, kind) then Made else Stuck
      else
        && es[k].inum < |v|
        && r == if kind == T_FILE && old(fs.table)[es[k].inum].kind == T_FILE then Existing else Denied
    ensures r == Existing ==>
      ip != null && fs.Loaded(ip) && ip.inum == v[dp.inum].entries[Find(v[dp.inum].entries, name)].inum
    ensures r == Made ==> ip != null && fs.Loaded(ip) && 1 <= ip.inum < |v| && v[ip.inum].kind == Free
    ensures r == Made ==> ip.kind == kind && ip.major == major && ip.minor == minor
    ensures r == Made ==> Shows(fs, Create(v, dp.inum, name, ip.inum, KindOf(kind)))
    ensures r == Existing || r == Denied ==> fs.logged == old(fs.logged)
    ensures r != Made || Adds(old(fs.logged), fs.logged, {fs.sb.IBlock(ip.inum), fs.sb.IBlock(dp.inum)}, 7)
  {
    NodeFields(fs, dp, v);
    assert v[dp.inum] == NodeAt(fs.sb, fs.disk, fs.table, dp.inum);
    var found, off, inum := DirLookup(fs, dp, name);
    if found {
      EntriesInRange(v, dp.inum, Find(v[dp.inum].entries, name));
      ip := ILock(fs, inum, v);
      if kind == T_FILE && ip.kind == T_FILE {
        return Existing, ip;
      }
      return Denied, null;
    }
    ghost var n := dp.nlink;
    DirCountFits(fs, v, dp.inum);
    var ok;
    ok, ip := CreateNew(fs, dp, name, kind, major, minor, v);
    if !ok {
      return Stuck, null;
    }
    CreateStep(v, dp.inum, name, ip.inum, KindOf(kind), n);
    return Made, ip;
  }

  lemma EntriesInRange(v: Tree, d: nat, k: nat)
    requires Inv(v) && d < |v| && v[d].kind == Dir && k < |v[d].entries|
    ensures v[d].entries[k].inum < |v|
  {
    if v[d].Live() {
      assert DotsFirst(v, d);
      if k >= 2 && v[d].entries[k].inum != 0 { assert ChildAt(v, d, k, v[d].entries[k].inum); }
    } else {
      assert Leftover(v, d);
    }
  }

  // ---------------------------------------------------------------- reclaim

  /** iput of the last reference to an inode without links. */
  method Release(fs: Fs, ip: Inode, ghost v: Tree)
    requires Shows(fs, v) && fs.Loaded(ip) && ip.nlink == 0
    modifies fs`disk, fs`logged, fs`table, ip`addrs, ip`size, ip`kind
    ensures Shows(fs, Reclaim(v, ip.inum)) && fs.Loaded(ip)
    ensures fs.FreeLogged(ip.inum, old(fs.disk), old(fs.table), old(fs.logged))
  {
    ghost var d, t := fs.disk, fs.table;
    NodeFields(fs, ip, v);
    fs.IPutLast(ip);
    forall j | 0 <= j < |t| && j != ip.inum
      ensures Contents(fs.sb, fs.disk, fs.table, j) == Contents(fs.sb, d, t, j)
    {
      forall p | 0 <= p < t[j].size ensures FileByte(fs.sb, fs.disk, fs.table, j, p) == FileByte(fs.sb, d, t, j, p) {
        assert 0 <= p / BSIZE < MAXFILE;
      }
    }
    ChangeNode(fs.sb, d, t, fs.disk, fs.table, ip.inum, v, Node(Free, 0, []));
  }
}
