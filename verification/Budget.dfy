/** param.h: MAXOPBLOCKS is "max # of blocks any FS op writes". link and create keep to it on every volume, unlink and
    the release that may follow it on volumes with few bitmap blocks. */
module Budget {
  import opened Bytes
  import opened Volume
  import opened Space
  import opened FileSystem
  import opened Directory
  import opened LinkCount
  import opened Sysfile
  import LogDisk

  /** The transaction of sys_link: at most the blocks of two inodes, and of the entry, its bitmap block, the indirect
      block and its bitmap block. */
  method LinkCall(fs: Fs, ip: Inode, dp: Inode?, name: Name, ghost v: Tree) returns (r: CallResult)
    requires Shows(fs, v) && fs.Loaded(ip)
    requires dp != null ==> fs.Loaded(dp) && dp.kind == T_DIR
    modifies fs`disk, fs`logged, fs`table, ip`nlink
    modifies if dp == null then {} else {dp}
    ensures r == Refused <==>
      ip.kind == T_DIR || dp == null || Find(v[dp.inum].entries, name) < |v[dp.inum].entries|
    ensures r == Refused ==> Shows(fs, v)
    ensures r == Done ==> (Shows(fs, Link(v, ip.inum, dp.inum, name)) <==> v[ip.inum].nlink < MAXLINKS)
    ensures r != Panic ==> |fs.logged| <= 6 < LogDisk.MAXOPBLOCKS
  {
    fs.logged := {};
    r := SysLink(fs, ip, dp, name, v);
    if r == Done {
      AddsAll(fs.logged, {fs.sb.IBlock(ip.inum), fs.sb.IBlock(dp.inum)}, 4);
    } else if r == Refused {
      Subset(fs.logged, {fs.sb.IBlock(ip.inum)});
    }
  }

  /** The transaction of create, in open, mkdir or mknod: besides those of link, the block of a new directory with its
      bitmap block; the new directory's block is written twice. */
  method CreateCall(fs: Fs, dp: Inode, name: Name, kind: Short, major: Short, minor: Short, ghost v: Tree)
    returns (r: CreateResult, ip: Inode?)
    requires Shows(fs, v) && Inv(v) && fs.Loaded(dp) && v[dp.inum].kind == Dir && kind != 0
    modifies fs`disk, fs`logged, fs`table, dp
    ensures r == Existing || r == Denied <==> Find(v[dp.inum].entries, name) < |v[dp.inum].entries|
    ensures r == Made ==> ip != null && ip.inum < |v| && Shows(fs, Create(v, dp.inum, name, ip.inum, KindOf(kind)))
    ensures r != Stuck ==> |fs.logged| <= 9 < LogDisk.MAXOPBLOCKS
  {
    fs.logged := {};
    r, ip := CreateInode(fs, dp, name, kind, major, minor, v);
    if r == Made {
      AddsAll(fs.logged, {fs.sb.IBlock(ip.inum), fs.sb.IBlock(dp.inum)}, 7);
    }
  }

  /** What the release of inode c adds to an unlink. */
  lemma ReleaseCost(sb: Superblock, log: set<nat>, now: set<nat>, i: nat, c: nat)
    requires sb.size >= 1 && Adds({}, log, {i, c}, 1) && log <= now <= log + ({c} + Bitmaps(sb))
    ensures |now| <= 3 + NBitmaps(sb)
  {
    AddsKnown(log, now, {c} + Bitmaps(sb));
    AddsMore({}, log, now, {i, c}, 1, {c} + Bitmaps(sb), 0);
    AddsAll(now, {i, c} + ({c} + Bitmaps(sb)), 1);
    Card({i, c} + ({c} + Bitmaps(sb)), {i, c}, Bitmaps(sb));
    BitmapsCount(sb);
  }

  /** The transaction of sys_unlink, with the iput at its end that frees the inode if this was its last link and
      `last`, the last reference to it. It logs at most three blocks and the bitmap blocks of the data area. */
  method UnlinkCall(fs: Fs, dp: Inode, name: Name, last: bool, ghost v: Tree) returns (r: CallResult, freed: bool)
    requires Shows(fs, v) && Inv(v) && fs.Loaded(dp) && v[dp.inum].kind == Dir
    modifies fs`disk, fs`logged, fs`table, dp
    ensures r == if Unlinkable(v, dp.inum, name) then Done else Refused
    ensures var w, c := Unlink(v, dp.inum, name), Child(v, dp.inum, name);
      && (freed <==> r == Done && last && c < |w| && w[c].nlink == 0)
      && Shows(fs, if freed then Reclaim(w, c) else w)
    ensures |fs.logged| <= 3 + NBitmaps(fs.sb)
    ensures freed ==> AllLogged(fs.sb, old(fs.disk), old(fs.table), dp.inum, Child(v, dp.inum, name),
                                Find(v[dp.inum].entries, name), fs.logged)
  {
    fs.logged := {};
    freed := false;
    var ip;
    ghost var d, t, k := fs.disk, fs.table, Find(v[dp.inum].entries, name);
    r, ip := SysUnlink(fs, dp, name, v);
    if r == Done {
      ghost var log, w := fs.logged, Unlink(v, dp.inum, name);
      ghost var i, c := fs.sb.IBlock(dp.inum), fs.sb.IBlock(ip.inum);
      NodeFields(fs, ip, w);
      if last && ip.nlink == 0 {
        freed := true;
        ghost var d1, t1 := fs.disk, fs.table;
        Release(fs, ip, w);
        assert Counted(fs.logged);
        FreedLogs(fs.sb, d, t, d1, t1, dp.inum, ip.inum, k, log, fs.logged);
      }
      ReleaseCost(fs.sb, log, fs.logged, i, c);
    }
  }

  /** The log has the blocks of two inodes, of entry k of directory i, and the bitmap block of each block of directory
      c. */
  ghost predicate AllLogged(sb: Superblock, d: Disk, t: Table, i: nat, c: nat, k: nat, log: set<nat>)
    requires Shaped(sb, d, t)
  {
    && i < |t| && c < |t| && EntryTop(k) <= MAXFILE && sb.IBlock(c) in log
    && (t[c].kind == T_DIR ==> sb.IBlock(i) in log)
    && Addr(sb, d, t, i, DataSlot(EntryBlock(k))) in log
    && forall l {:trigger Addr(sb, d, t, c, l)} :: 0 <= l < NSLOTS && Addr(sb, d, t, c, l) != 0 ==>
         sb.BBlock(Addr(sb, d, t, c, l)) in log
  }

  lemma FreedLogs(sb: Superblock, d: Disk, t: Table, d1: Disk, t1: Table, i: nat, c: nat, k: nat, log: set<nat>,
                  now: set<nat>)
    requires Shaped(sb, d, t) && Shaped(sb, d1, t1) && SameAddrs(sb, d, t, d1, t1) && i < |t| && c < |t| == |t1|
    requires EntryTop(k) <= MAXFILE && Addr(sb, d, t, i, DataSlot(EntryBlock(k))) in log && sb.IBlock(c) in log
    requires (t[c].kind == T_DIR ==> sb.IBlock(i) in log) && log <= now
    requires forall l {:trigger Addr(sb, d1, t1, c, l)} :: 0 <= l < NSLOTS && Addr(sb, d1, t1, c, l) != 0 ==>
      sb.BBlock(Addr(sb, d1, t1, c, l)) in now
    ensures AllLogged(sb, d, t, i, c, k, now)
  {
    forall l | 0 <= l < NSLOTS && Addr(sb, d, t, c, l) != 0 ensures sb.BBlock(Addr(sb, d, t, c, l)) in now {
      assert Addr(sb, d1, t1, c, l) == Addr(sb, d, t, c, l);
    }
  }
}
