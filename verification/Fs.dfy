/** fs.c: block allocation, inode storage, and reading and writing files through their block maps.
    A volume is what bread returns for every block; log_write replaces a block and records its number. */
module FileSystem {
  import opened Bytes
  import opened Volume
  import opened Space

  const T_DIR: Short := 1
  const T_FILE: Short := 2
  const T_DEV: Short := 3

  /** The in-memory copy of an inode. */
  class Inode {
    const inum: nat
    var kind: Short
    var major: Short
    var minor: Short
    var nlink: Short
    var size: Word
    var addrs: seq<Word>

    constructor (inum: nat, di: Dinode)
      ensures this.inum == inum && Copy() == di
    {
      this.inum := inum;
      kind, major, minor, nlink, size, addrs := di.kind, di.major, di.minor, di.nlink, di.size, di.addrs;
    }

    ghost function Copy(): Dinode
      reads this
    {
      Dinode(kind, major, minor, nlink, size, addrs)
    }
  }

  /** What a run of writei's loop has done: rounds, how many of them allocated a data block, the data blocks
      written and the bitmap blocks changed for them. */
  datatype Meter = Meter(rounds: nat, allocs: nat, data: set<nat>, bits: set<nat>)

  /** The outcome of readi or writei: a byte count, -1, a call to the device driver, or the panic of balloc. */
  datatype IoResult = Count(n: nat) | Failed | Device | NoSpace

  /** A bound on the blocks that writing n bytes at off can log. */
  function LogCost(off: nat, n: nat): nat {
    var blocks := Top(off, n) - off / BSIZE;
    2 * blocks + 3 - (if blocks > 0 && off % BSIZE != 0 then 1 else 0)
  }

  lemma NextBitmap(b: nat)
    requires b % BPB == 0
    ensures (b + BPB) % BPB == 0
  {
  }

  /** The same addresses and sizes have no holes either. */
  lemma StillNoHoles(sb: Superblock, d: Disk, t: Table, d': Disk, t': Table)
    requires Shaped(sb, d, t) && Shaped(sb, d', t') && NoHoles(sb, d, t) && SameAddrs(sb, d, t, d', t')
    requires forall i :: 0 <= i < |t'| ==> t'[i].size == t[i].size
    ensures NoHoles(sb, d', t')
  {
    forall i, bn | 0 <= i < |t'| && 0 <= bn < MAXFILE && bn * BSIZE < t'[i].size
      ensures Addr(sb, d', t', i, DataSlot(bn)) != 0
    {
      assert Addr(sb, d, t, i, DataSlot(bn)) != 0;
    }
  }

  class Fs {
    const sb: Superblock
    var disk: Disk
    ghost var table: Table           // every inode as the kernel currently knows it
    ghost var logged: set<nat>       // the blocks given to log_write in this transaction

    constructor (sb: Superblock, disk: Disk, ghost table: Table)
      ensures this.sb == sb && this.disk == disk && this.table == table && logged == {}
    {
      this.sb, this.disk, this.table, logged := sb, disk, table, {};
    }

    ghost predicate Valid()
      reads this`disk, this`table
    {
      Wf(sb, disk, table)
    }

    /** The in-memory inode is the current one. */
    ghost predicate Loaded(ip: Inode)
      reads this`table, ip
    {
      ip.inum < |table| && table[ip.inum] == ip.Copy()
    }

    method LogWrite(b: nat, data: Block)
      requires b < |disk|
      modifies this`disk, this`logged
      ensures disk == old(disk)[b := data] && logged == old(logged) + {b}
    {
      disk := disk[b := data];
      logged := logged + {b};
    }

    // -------------------------------------------------------------- balloc and bfree

    /** The scan of one bitmap block for its first clear bit. */
    method ScanBitmap(b: nat) returns (bi: nat)
      requires sb.Ok(disk) && b % BPB == 0 && b < sb.size
      ensures bi <= BPB && b + bi <= sb.size
      ensures forall c :: b <= c < b + bi ==> Used(sb, disk, c)
      ensures bi < BPB && b + bi < sb.size ==> !Used(sb, disk, b + bi)
    {
      bi := 0;
      while bi < BPB && b + bi < sb.size
        invariant bi <= BPB && b + bi <= sb.size
        invariant forall c :: b <= c < b + bi ==> Used(sb, disk, c)
      {
        assert sb.BBlock(b + bi) == sb.BBlock(b) && (b + bi) % BPB == bi;
        if !TestBit(disk[sb.BBlock(b)], bi) {
          return;
        }
        bi := bi + 1;
      }
    }

    /** balloc: the first free block, marked in use and zeroed; fails exactly when there is none. */
    method BAlloc() returns (ok: bool, r: nat)
      requires Valid()
      modifies this`disk, this`logged
      ensures ok <==> NFree(sb, old(disk)) > 0
      ensures !ok ==> disk == old(disk) && logged == old(logged)
      ensures ok ==> r < sb.size && !Used(sb, old(disk), r) && forall c :: 0 <= c < r ==> Used(sb, old(disk), c)
      ensures ok ==> disk == Allocated(sb, old(disk), r) && logged == old(logged) + {sb.BBlock(r), r}
    {
      NoneFree(sb, disk);
      var b := 0;
      while b < sb.size
        invariant b % BPB == 0 && disk == old(disk) && logged == old(logged)
        invariant forall c :: 0 <= c < b && c < sb.size ==> Used(sb, disk, c)
        decreases sb.size - b
      {
        var bi := ScanBitmap(b);
        if bi < BPB && b + bi < sb.size {
          r := b + bi;
          assert sb.BBlock(r) == sb.BBlock(b) && r % BPB == bi;
          LogWrite(sb.BBlock(b), SetBit(disk[sb.BBlock(b)], bi));
          LogWrite(r, ZeroBlock());
          return true, r;
        }
        NextBitmap(b);
        b := b + BPB;
      }
      return false, 0;
    }

    /** bfree; panics exactly when the block is already free. */
    method BFree(b: nat) returns (panicked: bool)
      requires sb.Ok(disk) && b < sb.size
      modifies this`disk, this`logged
      ensures panicked <==> !Used(sb, old(disk), b)
      ensures disk == if panicked then old(disk) else Released(sb, old(disk), b)
      ensures logged == if panicked then old(logged) else old(logged) + {sb.BBlock(b)}
    {
      var bi := b % BPB;
      if !TestBit(disk[sb.BBlock(b)], bi) {
        return true;
      }
      LogWrite(sb.BBlock(b), UnsetBit(disk[sb.BBlock(b)], bi));
      return false;
    }

    // -------------------------------------------------------------- bmap

    /** Addresses in use stay as they are, and only inode i gets new ones. */
    ghost predicate AddrsGrow(d: Disk, t: Table, i: nat)
      requires Shaped(sb, d, t) && Shaped(sb, disk, table)
      reads this`disk, this`table
    {
      Grows(sb, d, t, disk, table, i)
    }

    /** No inode on disk has changed. */
    ghost predicate SameOnDisk(d: Disk)
      requires sb.Ok(d) && sb.Ok(disk)
      reads this`disk
    {
      SameInodes(sb, d, disk)
    }

    /** A direct block, or the indirect block, allocated if it was not there. */
    method EnsureAddr(ip: Inode, k: nat) returns (ok: bool, addr: nat)
      requires Valid() && Loaded(ip) && k <= NDIRECT
      modifies this`disk, this`logged, this`table, ip`addrs
      ensures Valid() && Loaded(ip)
      ensures ok ==> addr == Addr(sb, disk, table, ip.inum, k) && addr != 0
      ensures SameFiles(sb, old(disk), old(table), disk, table)
      ensures SameAddrsBut(sb, old(disk), old(table), disk, table, ip.inum, k)
      ensures SameOnDisk(old(disk))
      ensures |ip.addrs| == |old(ip.addrs)| && ip.addrs == old(ip.addrs)[k := ip.addrs[k]]
      ensures table == old(table)[ip.inum := old(table)[ip.inum].(addrs := ip.addrs)]
      ensures old(ip.addrs)[k] != 0 ==> ok && disk == old(disk) && logged == old(logged) && ip.addrs == old(ip.addrs)
      ensures ok && old(ip.addrs)[k] == 0 ==> logged == old(logged) + {sb.BBlock(addr), addr}
      ensures ok <==> NFree(sb, old(disk)) >= Gap(sb, old(disk), old(table), ip.inum, k)
      ensures ok ==> Got(sb, old(disk), old(table), disk, table, ip.inum, k)
    {
      addr := ip.addrs[k];
      ok := true;
      if addr == 0 {
        ok, addr := BAlloc();
        if ok {
          GotAddr(sb, old(disk), table, ip.inum, k, addr);
          ip.addrs := ip.addrs[k := addr];
          table := WithAddr(table, ip.inum, k, addr);
        }
      }
    }

    /** Entry e of the indirect block, at address k, which is there; the entry is allocated if it was not. */
    method EnsureEntry(ip: Inode, e: nat, ghost k: nat) returns (ok: bool, addr: nat)
      requires Valid() && Loaded(ip) && e < NINDIRECT && k == NDIRECT + 1 + e && ip.addrs[NDIRECT] != 0
      modifies this`disk, this`logged
      ensures Valid() && Loaded(ip)
      ensures ok ==> addr == Addr(sb, disk, table, ip.inum, k) && addr != 0
      ensures SameFiles(sb, old(disk), table, disk, table)
      ensures SameAddrsBut(sb, old(disk), table, disk, table, ip.inum, k)
      ensures SameOnDisk(old(disk))
      ensures Addr(sb, old(disk), table, ip.inum, k) != 0 ==>
                ok && disk == old(disk) && logged == old(logged)
      ensures ok && Addr(sb, old(disk), table, ip.inum, k) == 0 ==>
                logged == old(logged) + {sb.BBlock(addr), addr, ip.addrs[NDIRECT]}
      ensures !ok ==> disk == old(disk)
      ensures ok <==> NFree(sb, old(disk)) >= Gap(sb, old(disk), table, ip.inum, k)
      ensures ok ==> Got(sb, old(disk), table, disk, table, ip.inum, k)
    {
      assert Addr(sb, disk, table, ip.inum, NDIRECT) == ip.addrs[NDIRECT];
      addr := GetWord(disk[ip.addrs[NDIRECT]], e);
      ok := true;
      if addr == 0 {
        ok, addr := BAlloc();
        if ok {
          GotEntry(sb, old(disk), table, ip.inum, e, addr);
          LogWrite(ip.addrs[NDIRECT], PutWord(disk[ip.addrs[NDIRECT]], e, addr));
        }
      }
    }

    /** The bitmap blocks and the indirect block that bmap logs besides the new data block. */
    ghost function BMapExtra(oldInd: Word, newInd: Word, bn: nat): set<nat> {
      (if bn < NDIRECT then {} else {newInd}) + (if bn < NDIRECT || oldInd != 0 then {} else {sb.BBlock(newInd)})
    }

    lemma ExtraLogged(l0: set<nat>, l1: set<nat>, oldInd: Word, newInd: Word, addr: nat, bn: nat)
      requires bn >= NDIRECT && l1 == if oldInd != 0 then l0 else l0 + {sb.BBlock(newInd), newInd}
      ensures l1 + {sb.BBlock(addr), addr, newInd} == l0 + {sb.BBlock(addr), addr} + BMapExtra(oldInd, newInd, bn)
    {
    }

    /** bmap for a block whose address, at k, is in the indirect block. */
    method BMapIndirect(ip: Inode, bn: nat, ghost k: nat) returns (ok: bool, addr: nat)
      requires Valid() && Loaded(ip) && NDIRECT <= bn < k == bn + 1 <= MAXFILE
      modifies this`disk, this`logged, this`table, ip`addrs
      ensures Valid() && Loaded(ip)
      ensures ok ==> addr == Addr(sb, disk, table, ip.inum, k) && addr != 0
      ensures SameFiles(sb, old(disk), old(table), disk, table)
      ensures AddrsGrow(old(disk), old(table), ip.inum)
      ensures old(ip.addrs)[NDIRECT] != 0 ==> ip.addrs[NDIRECT] == old(ip.addrs)[NDIRECT]
      ensures SameOnDisk(old(disk))
      ensures table == old(table)[ip.inum := old(table)[ip.inum].(addrs := ip.addrs)]
      ensures Addr(sb, old(disk), old(table), ip.inum, k) != 0 ==>
                ok && disk == old(disk) && logged == old(logged) && ip.addrs == old(ip.addrs)
      ensures ok && Addr(sb, old(disk), old(table), ip.inum, k) == 0 ==>
                logged == old(logged) + {sb.BBlock(addr), addr}
                          + BMapExtra(old(ip.addrs)[NDIRECT], ip.addrs[NDIRECT], bn)
      ensures ok <==> NFree(sb, old(disk)) >= Missing(sb, old(disk), old(table), ip.inum, bn, k)
      ensures ok ==> Filled(sb, old(disk), old(table), disk, table, ip.inum, bn, k)
    {
      NeedsIndirect(sb, disk, table, ip.inum, bn, k);
      ok, addr := EnsureAddr(ip, NDIRECT);
      if ok {
        ghost var d, t, l := disk, table, logged;
        ok, addr := EnsureEntry(ip, bn - NDIRECT, k);
        if ok {
          IndirectFilled(sb, old(disk), old(table), d, t, disk, table, ip.inum, bn, k);
          ExtraLogged(old(logged), l, old(ip.addrs)[NDIRECT], ip.addrs[NDIRECT], addr, bn);
        } else {
          assert disk == d && table == t;
        }
      }
    }

    /** bmap: the address of block bn of the file, allocated if it was not there. No file changes. It fails, where
        the kernel panics, exactly when there are too few free blocks. */
    method BMap(ip: Inode, bn: nat) returns (ok: bool, addr: nat)
      requires Valid() && Loaded(ip) && bn < MAXFILE
      modifies this`disk, this`logged, this`table, ip`addrs
      ensures Valid() && Loaded(ip)
      ensures ok ==> addr == Addr(sb, disk, table, ip.inum, DataSlot(bn)) && addr != 0
      ensures SameFiles(sb, old(disk), old(table), disk, table)
      ensures AddrsGrow(old(disk), old(table), ip.inum)
      ensures old(ip.addrs)[NDIRECT] != 0 ==> ip.addrs[NDIRECT] == old(ip.addrs)[NDIRECT]
      ensures SameOnDisk(old(disk))
      ensures table == old(table)[ip.inum := old(table)[ip.inum].(addrs := ip.addrs)]
      ensures Addr(sb, old(disk), old(table), ip.inum, DataSlot(bn)) != 0 ==>
                ok && disk == old(disk) && logged == old(logged) && ip.addrs == old(ip.addrs)
      ensures ok && Addr(sb, old(disk), old(table), ip.inum, DataSlot(bn)) == 0 ==>
                logged == old(logged) + {sb.BBlock(addr), addr}
                          + BMapExtra(old(ip.addrs)[NDIRECT], ip.addrs[NDIRECT], bn)
      ensures ok <==> NFree(sb, old(disk)) >= Missing(sb, old(disk), old(table), ip.inum, bn, bn + 1)
      ensures ok ==> Filled(sb, old(disk), old(table), disk, table, ip.inum, bn, bn + 1)
    {
      if bn < NDIRECT {
        assert DataMissing(sb, disk, table, ip.inum, bn, bn) == 0;
        ok, addr := EnsureAddr(ip, bn);
        if ok {
          DirectFilled(sb, old(disk), old(table), disk, table, ip.inum, bn);
        }
      } else {
        ok, addr := BMapIndirect(ip, bn, bn + 1);
      }
    }

    // -------------------------------------------------------------- writing a file

    /** Every inode on disk is the current one: the inode cache is write-through. */
    ghost predicate Synced()
      requires sb.Ok(disk) && |table| == sb.ninodes
      reads this`disk, this`table
    {
      forall i :: 0 <= i < |table| ==> OnDisk(sb, disk, i) == table[i]
    }

    /** The indirect block of an inode, as a set. */
    ghost function IndirectOf(addrs: seq<Word>): set<nat>
      requires |addrs| == NDIRECT + 1
    {
      if addrs[NDIRECT] == 0 then {} else {addrs[NDIRECT]}
    }

    /** The bitmap block for a newly allocated indirect block, as a set. */
    ghost function NewIndirectBits(was: seq<Word>, addrs: seq<Word>): (r: set<nat>)
      requires |was| == |addrs| == NDIRECT + 1
      ensures |r| <= 1
    {
      if was[NDIRECT] == 0 && addrs[NDIRECT] != 0 then {sb.BBlock(addrs[NDIRECT])} else {}
    }

    /** A round of writei's loop on block bn has taken the log from log0 to log1: it logs its data block, and if that is
        new its bitmap block, and then also the indirect block with its entry and a bitmap block for that one. */
    ghost predicate RoundLogs(log0: set<nat>, log1: set<nat>, was: seq<Word>, addrs: seq<Word>, addr: nat, isNew: bool,
                              bn: nat)
      requires |was| == |addrs| == NDIRECT + 1
    {
      log0 <= log1 <= log0 + {addr} + (if isNew then {sb.BBlock(addr)} else {}) + ViaIndirect(was, addrs, isNew, bn)
    }

    /** The indirect block, and a bitmap block if it is new, where an entry in it is new. */
    ghost function ViaIndirect(was: seq<Word>, addrs: seq<Word>, isNew: bool, bn: nat): set<nat>
      requires |was| == |addrs| == NDIRECT + 1
    {
      if isNew && bn >= NDIRECT then IndirectOf(addrs) + NewIndirectBits(was, addrs) else {}
    }

    /** What one round logs: log0 before bmap, log1 after it. */
    lemma RoundLogged(d: Disk, t: Table, d': Disk, t': Table, i: nat, bn: nat, log0: set<nat>, log1: set<nat>)
      requires Shaped(sb, d, t) && Shaped(sb, d', t') && i < |t| && bn < MAXFILE
      requires Addr(sb, d, t, i, DataSlot(bn)) != 0 ==>
        log1 == log0 && Addr(sb, d', t', i, NDIRECT) == Addr(sb, d, t, i, NDIRECT)
      requires bn < NDIRECT ==> Addr(sb, d', t', i, NDIRECT) == Addr(sb, d, t, i, NDIRECT)
      requires var a, ind := Addr(sb, d', t', i, DataSlot(bn)), Addr(sb, d', t', i, NDIRECT);
        && (Addr(sb, d, t, i, DataSlot(bn)) == 0 ==>
              log1 == log0 + {sb.BBlock(a), a} + BMapExtra(Addr(sb, d, t, i, NDIRECT), ind, bn))
        && (bn >= NDIRECT ==> ind != 0)
      ensures var a := Addr(sb, d', t', i, DataSlot(bn));
        && Touched(sb, d, t, d', t', i, bn, bn + 1, log1 + {a})
        && RoundLogs(log0, log1 + {a}, t[i].addrs, t'[i].addrs, a, Addr(sb, d, t, i, DataSlot(bn)) == 0, bn)
    {
      assert BlockTouched(sb, d, t, d', t', i, bn, log1 + {Addr(sb, d', t', i, DataSlot(bn))});
    }

    /** Replace some bytes of block bn of the file, from byte `at` of it on: one round of writei's loop. */
    method WriteWithinBlock(ip: Inode, bn: nat, at: nat, bytes: seq<Byte>, ghost hi: nat)
      returns (ok: bool, ghost addr: nat)
      requires Valid() && Loaded(ip) && bn < hi == bn + 1 <= MAXFILE && at + |bytes| <= BSIZE
      modifies this`disk, this`logged, this`table, ip`addrs
      ensures Valid() && Loaded(ip)
      ensures AddrsGrow(old(disk), old(table), ip.inum)
      ensures SameOnDisk(old(disk))
      ensures old(ip.addrs)[NDIRECT] != 0 ==> ip.addrs[NDIRECT] == old(ip.addrs)[NDIRECT]
      ensures table == old(table)[ip.inum := old(table)[ip.inum].(addrs := ip.addrs)]
      ensures Addr(sb, old(disk), old(table), ip.inum, DataSlot(bn)) != 0 ==> ok && ip.addrs == old(ip.addrs)
      ensures ok ==> Spliced(sb, old(disk), old(table), disk, table, ip.inum, bn, at, bytes)
      ensures !ok || RoundLogs(old(logged), logged, old(ip.addrs), ip.addrs, addr,
                               Addr(sb, old(disk), old(table), ip.inum, DataSlot(bn)) == 0, bn)
      ensures ok <==> NFree(sb, old(disk)) >= Missing(sb, old(disk), old(table), ip.inum, bn, hi)
      ensures ok ==> Filled(sb, old(disk), old(table), disk, table, ip.inum, bn, hi)
      ensures ok ==> Touched(sb, old(disk), old(table), disk, table, ip.inum, bn, hi, logged)
    {
      var a;
      ok, a := BMap(ip, bn);
      addr := a;
      if ok {
        ghost var d, log := disk, logged;
        LogWrite(a, Splice(disk[a], at, bytes));
        WriteThrough(sb, old(disk), old(table), d, table, disk, ip.inum, bn, hi, at, bytes);
        RoundLogged(old(disk), old(table), disk, table, ip.inum, bn, old(logged), log);
      }
    }

    /** The blocks logged since `was` by rounds up to block hi are the data blocks, their bitmap blocks, the indirect
        block and a bitmap block for it. */
    ghost predicate LogBound(was: set<nat>, now: set<nat>, addrs0: seq<Word>, addrs: seq<Word>, c: Meter, hi: nat) {
      && |addrs0| == |addrs| == NDIRECT + 1
      && (addrs0[NDIRECT] != 0 ==> addrs[NDIRECT] == addrs0[NDIRECT])
      && was <= now <= was + c.data + c.bits + ViaIndirect(addrs0, addrs, c.allocs > 0 && hi > NDIRECT, NDIRECT)
      && |c.data| <= c.rounds && |c.bits| <= c.allocs
    }

    /** After the rounds on blocks lo .. hi of a write at off0: a first round inside a block needs no new one. */
    static predicate Pace(off0: nat, lo: nat, hi: nat, c: Meter) {
      lo + c.rounds == hi && c.allocs + (if c.rounds > 0 && off0 > lo * BSIZE then 1 else 0) <= c.rounds
    }

    ghost function Tick(c: Meter, addr: nat, isNew: bool): Meter {
      Meter(c.rounds + 1, if isNew then c.allocs + 1 else c.allocs, c.data + {addr},
            if isNew then c.bits + {sb.BBlock(addr)} else c.bits)
    }

    lemma LogStep(was: set<nat>, now: set<nat>, next: set<nat>, c: Meter,
                  addrs0: seq<Word>, addrs1: seq<Word>, addrs2: seq<Word>, addr: nat, isNew: bool, bn: nat, hi: nat)
      requires LogBound(was, now, addrs0, addrs1, c, bn) && |addrs2| == NDIRECT + 1 && hi == bn + 1
      requires addrs1[NDIRECT] != 0 ==> addrs2[NDIRECT] == addrs1[NDIRECT]
      requires RoundLogs(now, next, addrs1, addrs2, addr, isNew, bn)
      ensures LogBound(was, next, addrs0, addrs2, Tick(c, addr, isNew), hi)
    {
    }

    lemma AllocStep(d: Disk, t: Table, i: nat, lo: nat, bn: nat, hi: nat, c: Meter, addr: nat, isNew: bool)
      requires Shaped(sb, d, t) && i < |t| && lo <= bn < hi == bn + 1 <= MAXFILE
      requires c.allocs <= DataMissing(sb, d, t, i, lo, bn) && (isNew ==> Addr(sb, d, t, i, DataSlot(bn)) == 0)
      ensures Tick(c, addr, isNew).allocs <= DataMissing(sb, d, t, i, lo, hi)
    {
    }

    lemma PaceStep(off0: nat, lo: nat, bn: nat, hi: nat, c: Meter, addr: nat, isNew: bool)
      requires Pace(off0, lo, bn, c) && (isNew ==> off0 <= bn * BSIZE) && hi == bn + 1
      ensures Pace(off0, lo, hi, Tick(c, addr, isNew))
    {
    }

    /** Where the loop of writei stands after tot bytes in blocks lo .. hi, having started from (d, t). */
    ghost predicate Underway(ip: Inode, src: seq<Byte>, off0: nat, tot: nat, lo: nat, hi: nat, d: Disk, t: Table)
      requires Shaped(sb, d, t) && tot <= |src| && hi <= MAXFILE
      reads this`disk, this`table, ip
    {
      && Valid() && Loaded(ip) && ip.inum < |t| && table == t[ip.inum := t[ip.inum].(addrs := ip.addrs)]
      && Progress(sb, d, t, disk, table, ip.inum, off0, src, tot, lo, hi)
      && (off0 + |src| <= ip.size ==> ip.addrs == t[ip.inum].addrs)
    }

    /** The step of one round, from where the loop stood in (d1, t1). */
    lemma UnderwayStep(ip: Inode, src: seq<Byte>, off0: nat, tot: nat, next: nat, bn: nat, at: nat, lo: nat, hi: nat,
                       d: Disk, t: Table, d1: Disk, t1: Table, addrs: seq<Word>)
      requires Shaped(sb, d, t) && Shaped(sb, d1, t1) && Valid() && Loaded(ip) && ip.inum < |t| && |t| == |t1|
      requires lo <= bn < hi == bn + 1 <= MAXFILE && RoundAt(off0, |src|, tot, next, bn, at) && |addrs| == NDIRECT + 1
      requires t1 == t[ip.inum := t[ip.inum].(addrs := addrs)]
      requires table == t1[ip.inum := t1[ip.inum].(addrs := ip.addrs)]
      requires Progress(sb, d, t, d1, t1, ip.inum, off0, src, tot, lo, bn)
      requires Filled(sb, d1, t1, disk, table, ip.inum, bn, hi) && SameInodes(sb, d1, disk)
      requires Spliced(sb, d1, t1, disk, table, ip.inum, bn, at, src[tot..next])
      requires off0 + |src| <= ip.size ==> ip.addrs == addrs == t[ip.inum].addrs
      ensures Underway(ip, src, off0, next, lo, hi, d, t)
    {
      ProgressStep(sb, d, t, d1, t1, disk, table, ip.inum, off0, src, tot, next, lo, bn, hi, at);
    }

    /** One round of the loop of writei. */
    method WriteRound(ip: Inode, src: seq<Byte>, off0: nat, tot: nat, next: nat, bn: nat, at: nat,
                      ghost lo: nat, ghost hi: nat, ghost d: Disk, ghost t: Table)
      returns (ok: bool, ghost addr: nat, ghost isNew: bool)
      requires Shaped(sb, d, t) && NoHoles(sb, d, t) && off0 + |src| <= MAXBYTES && lo <= bn < hi == bn + 1 <= MAXFILE
      requires RoundAt(off0, |src|, tot, next, bn, at) && Underway(ip, src, off0, tot, lo, bn, d, t) && off0 <= ip.size
      modifies this`disk, this`logged, this`table, ip`addrs
      ensures !ok || Underway(ip, src, off0, next, lo, hi, d, t)
      ensures off0 + |src| <= ip.size ==> ok
      ensures isNew ==> ip.size <= bn * BSIZE
      ensures ok && old(ip.addrs)[NDIRECT] != 0 ==> ip.addrs[NDIRECT] == old(ip.addrs)[NDIRECT]
      ensures !ok || RoundLogs(old(logged), logged, old(ip.addrs), ip.addrs, addr, isNew, bn)
      ensures isNew ==> Addr(sb, d, t, ip.inum, DataSlot(bn)) == 0
      ensures ok <==> NFree(sb, old(disk)) >= Missing(sb, old(disk), old(table), ip.inum, bn, hi)
      ensures !ok || Filled(sb, old(disk), old(table), disk, table, ip.inum, bn, hi)
      ensures !ok || Touched(sb, old(disk), old(table), disk, table, ip.inum, bn, hi, logged)
    {
      isNew := Addr(sb, disk, table, ip.inum, DataSlot(bn)) == 0;
      InsideIsThere(sb, d, t, disk, table, ip.inum, lo, bn);
      ok, addr := WriteWithinBlock(ip, bn, at, src[tot..next], hi);
      if ok {
        UnderwayStep(ip, src, off0, tot, next, bn, at, lo, hi, d, t, old(disk), old(table), old(ip.addrs));
      }
    }

    ghost predicate Accounted(ip: Inode, was: set<nat>, d: Disk, t: Table, off0: nat, lo: nat, hi: nat, c: Meter)
      requires Shaped(sb, d, t) && ip.inum < |t| && hi <= MAXFILE
      reads this`logged, ip`addrs
    {
      && LogBound(was, logged, t[ip.inum].addrs, ip.addrs, c, hi) && Pace(off0, lo, hi, c)
      && c.allocs <= DataMissing(sb, d, t, ip.inum, lo, hi)
    }

    /** The blocks lo .. hi, written since (d, t), are logged. */
    ghost predicate AllTouched(ip: Inode, lo: nat, hi: nat, d: Disk, t: Table)
      requires Shaped(sb, d, t) && Shaped(sb, disk, table) && hi <= MAXFILE && ip.inum < |t|
      reads this`disk, this`table, this`logged
    {
      Touched(sb, d, t, disk, table, ip.inum, lo, hi, logged)
    }

    /** Writing blocks lo .. hi of file i since (d, t) has logged no more than Need besides the inode's block. */
    ghost predicate Sparing(i: nat, lo: nat, hi: nat, d: Disk, t: Table, was: set<nat>)
      requires Shaped(sb, d, t) && i < |t| && lo <= hi <= MAXFILE
      reads this`logged
    {
      Adds(was, logged, {sb.IBlock(i)}, Need(sb, d, t, i, lo, hi))
    }

    /** Unless the disk is full: where the loop stands, what it has logged, and that it logged what it wrote. */
    ghost predicate Standing(ok: bool, ip: Inode, src: seq<Byte>, off0: nat, tot: nat, lo: nat, hi: nat,
                             d: Disk, t: Table, was: set<nat>, c: Meter)
      requires Shaped(sb, d, t) && ip.inum < |t| && tot <= |src| && hi <= MAXFILE
      reads this`disk, this`table, this`logged, ip
    {
      !ok || (
        && Underway(ip, src, off0, tot, lo, hi, d, t) && AllTouched(ip, lo, hi, d, t)
        && Accounted(ip, was, d, t, off0, lo, hi, c)
      )
    }

    /** One round, with its account. */
    method WriteRoundCounted(ip: Inode, src: seq<Byte>, off0: nat, tot: nat, next: nat, bn: nat, at: nat,
                             ghost lo: nat, ghost hi: nat, ghost d: Disk, ghost t: Table,
                             ghost was: set<nat>, ghost c: Meter)
      returns (ok: bool, ghost c': Meter)
      requires Shaped(sb, d, t) && NoHoles(sb, d, t) && off0 + |src| <= MAXBYTES && ip.inum < |t|
      requires lo <= bn < hi == bn + 1 <= MAXFILE && RoundAt(off0, |src|, tot, next, bn, at) && off0 <= ip.size
      requires Standing(true, ip, src, off0, tot, lo, bn, d, t, was, c)
      modifies this`disk, this`logged, this`table, ip`addrs
      ensures Standing(ok, ip, src, off0, next, lo, hi, d, t, was, c')
      ensures off0 + |src| <= ip.size ==> ok
      ensures !ok ==> NFree(sb, d) < Missing(sb, d, t, ip.inum, lo, hi)
    {
      ghost var now, addrs, d1, t1 := logged, ip.addrs, disk, table;
      ghost var addr, isNew;
      ok, addr, isNew := WriteRound(ip, src, off0, tot, next, bn, at, lo, hi, d, t);
      PaceStep(off0, lo, bn, hi, c, addr, isNew);
      AllocStep(d, t, ip.inum, lo, bn, hi, c, addr, isNew);
      c' := Tick(c, addr, isNew);
      if ok {
        LogStep(was, now, logged, c, t[ip.inum].addrs, addrs, ip.addrs, addr, isNew, bn, hi);
        TouchedMore(sb, d, t, d1, t1, disk, table, ip.inum, lo, bn, hi, now, logged);
      } else {
        MissingSplit(sb, d, t, d1, t1, ip.inum, lo, bn, bn, hi);
      }
    }

    /** The body of the loop of writei. */
    method WriteStep(ip: Inode, src: seq<Byte>, off0: nat, tot: nat, ghost lo: nat, ghost hi: nat, ghost top: nat,
                     ghost d: Disk, ghost t: Table, ghost was: set<nat>, ghost c: Meter)
      returns (ok: bool, next: nat, ghost hi': nat, ghost c': Meter)
      requires Shaped(sb, d, t) && NoHoles(sb, d, t) && off0 + |src| <= MAXBYTES && ip.inum < |t| && off0 <= ip.size
      requires tot < |src| && Cursor(off0, |src|, tot, lo, hi) && Spans(off0, |src|, lo, top) && hi <= top <= MAXFILE
      requires Standing(true, ip, src, off0, tot, lo, hi, d, t, was, c)
      modifies this`disk, this`logged, this`table, ip`addrs
      ensures tot < next <= |src| && Cursor(off0, |src|, next, lo, hi') && hi < hi' <= top
      ensures Standing(ok, ip, src, off0, next, lo, hi', d, t, was, c')
      ensures off0 + |src| <= ip.size ==> ok
      ensures !ok ==> NFree(sb, d) < Missing(sb, d, t, ip.inum, lo, hi')
    {
      NextRound(off0, |src|, tot, lo, hi, top);
      var bn, at := (off0 + tot) / BSIZE, (off0 + tot) % BSIZE;
      next := if |src| - tot < BSIZE - at then |src| else tot + (BSIZE - at);
      hi' := bn + 1;
      ok, c' := WriteRoundCounted(ip, src, off0, tot, next, bn, at, lo, hi', d, t, was, c);
    }

    lemma NothingYet(ip: Inode, src: seq<Byte>, off0: nat, lo: nat)
      requires Valid() && Loaded(ip) && lo <= MAXFILE
      ensures Standing(true, ip, src, off0, 0, lo, lo, disk, table, logged, Meter(0, 0, {}, {}))
    {
      NothingFilled(sb, disk, table, ip.inum, lo);
    }

    /** The loop of writei; it stops early, where the kernel panics, exactly when there are too few free blocks. */
    method WriteLoop(ip: Inode, src: seq<Byte>, off0: nat, ghost lo: nat, ghost top: nat)
      returns (ok: bool, ghost c: Meter)
      requires Valid() && Loaded(ip) && NoHoles(sb, disk, table)
      requires off0 <= ip.size && off0 + |src| <= MAXBYTES && Spans(off0, |src|, lo, top) && top <= MAXFILE
      modifies this`disk, this`logged, this`table, ip`addrs
      ensures Standing(ok, ip, src, off0, |src|, lo, top, old(disk), old(table), old(logged), c)
      ensures off0 + |src| <= ip.size ==> ok
      ensures !ok ==> NFree(sb, old(disk)) < Missing(sb, old(disk), old(table), ip.inum, lo, top)
    {
      var tot := 0;
      ghost var hi: nat := lo;
      ok, c := true, Meter(0, 0, {}, {});
      NothingYet(ip, src, off0, lo);
      while tot < |src|
        invariant ok && Cursor(off0, |src|, tot, lo, hi) && lo <= hi <= top && ip.inum < |old(table)|
        invariant Standing(ok, ip, src, off0, tot, lo, hi, old(disk), old(table), old(logged), c)
      {
        ok, tot, hi, c := WriteStep(ip, src, off0, tot, lo, hi, top, old(disk), old(table), old(logged), c);
        if !ok {
          MissingGrows(sb, old(disk), old(table), ip.inum, lo, hi, top);
          return;
        }
      }
      LastRound(off0, |src|, tot, lo, hi, top);
    }

    /** iupdate */
    method IUpdate(ip: Inode)
      requires Valid() && ip.inum < |table| && |ip.addrs| == NDIRECT + 1
      requires table[ip.inum].addrs == ip.addrs
      modifies this`disk, this`logged, this`table
      ensures Valid() && Loaded(ip) && table == old(table)[ip.inum := ip.Copy()]
      ensures SameAddrs(sb, old(disk), old(table), disk, table) && SameFiles(sb, old(disk), old(table), disk, table)
      ensures forall j :: 0 <= j < |table| ==>
                OnDisk(sb, disk, j) == if j == ip.inum then ip.Copy() else OnDisk(sb, old(disk), j)
      ensures logged == old(logged) + {sb.IBlock(ip.inum)} && BlocksKept(old(disk))
    {
      var data := PutWords(disk[sb.IBlock(ip.inum)], InodeBase(ip.inum),
                           WordsOf(Dinode(ip.kind, ip.major, ip.minor, ip.nlink, ip.size, ip.addrs)), DWORDS);
      LogWrite(sb.IBlock(ip.inum), data);
      InodeBlockKeeps(sb, old(disk), table, sb.IBlock(ip.inum), data, disk);
      ChangeFields(sb, disk, table, ip.inum, ip.Copy());
      table := table[ip.inum := ip.Copy()];
      forall j | 0 <= j < |table|
        ensures OnDisk(sb, disk, j) == if j == ip.inum then ip.Copy() else OnDisk(sb, old(disk), j)
      {
        StoreInode(sb, old(disk), ip.inum, ip.Copy(), j);
      }
    }

    /** No inode block has changed, so what the disk says of the other inodes has not either. */
    lemma SyncedOthers(d: Disk, t: Table, i: nat)
      requires Shaped(sb, d, t) && Shaped(sb, disk, table) && i < |t| && SameOnDisk(d)
      requires forall j :: 0 <= j < |t| ==> OnDisk(sb, d, j) == t[j]
      requires forall j :: 0 <= j < |t| && j != i ==> table[j] == t[j]
      ensures forall j :: 0 <= j < |t| && j != i ==> OnDisk(sb, disk, j) == table[j]
      ensures table[i] == t[i] ==> Synced()
    {
      forall j | 0 <= j < |t| ensures OnDisk(sb, disk, j) == OnDisk(sb, d, j) {
        assert sb.inodestart <= sb.IBlock(j) < sb.bmapstart;
      }
    }

    /** The number of blocks that a loop up to block hi has logged. */
    lemma CountBound(was: set<nat>, now: set<nat>, addrs0: seq<Word>, addrs: seq<Word>, c: Meter, hi: nat)
      requires LogBound(was, now, addrs0, addrs, c, hi)
      ensures |now - was| <= c.rounds + c.allocs + ViaIndirectCost(addrs0, c.allocs > 0 && hi > NDIRECT)
    {
      var inds := ViaIndirect(addrs0, addrs, c.allocs > 0 && hi > NDIRECT, NDIRECT);
      Card(now - was, c.data + c.bits, inds);
      Card(c.data + c.bits, c.data, c.bits);
      Card(inds, IndirectOf(addrs), NewIndirectBits(addrs0, addrs));
    }

    static function ViaIndirectCost(addrs0: seq<Word>, isNew: bool): nat
      requires |addrs0| == NDIRECT + 1
    {
      if isNew then 1 + (if addrs0[NDIRECT] == 0 then 1 else 0) else 0
    }

    /** And what an iupdate of inode block b after it makes of that. */
    static lemma EndBound(was: set<nat>, now: set<nat>, b: nat, end: set<nat>, m: nat)
      requires |now - was| <= m && was <= now <= end <= now + {b}
      ensures |end - was| <= m + 1 && Adds(was, end, {b}, m)
    {
      Card(end - was, now - was, {b});
      forall x | Counted(x) && x <= end && x !! was && x !! {b} ensures |x| <= m {
        Card(x, now - was, {});
      }
    }

    lemma CostBound(was: set<nat>, now: set<nat>, addrs0: seq<Word>, addrs: seq<Word>, c: Meter,
                    off: nat, n: nat, b: nat, end: set<nat>)
      requires LogBound(was, now, addrs0, addrs, c, Top(off, n)) && Pace(off, off / BSIZE, Top(off, n), c)
      requires now <= end <= now + {b}
      ensures Cheap(was, end, off, n, b)
    {
      CountBound(was, now, addrs0, addrs, c, Top(off, n));
      EndBound(was, now, b, end, LogCost(off, n) - 1);
    }

    /** The same, by what was missing in blocks lo .. hi of file i. */
    lemma NeedBound(was: set<nat>, now: set<nat>, addrs: seq<Word>, c: Meter, off: nat, lo: nat, hi: nat, b: nat,
                    end: set<nat>, d: Disk, t: Table, i: nat)
      requires Shaped(sb, d, t) && i < |t| && lo <= hi <= MAXFILE && c.allocs <= DataMissing(sb, d, t, i, lo, hi)
      requires LogBound(was, now, t[i].addrs, addrs, c, hi) && Pace(off, lo, hi, c)
      requires now <= end <= now + {b}
      ensures Adds(was, end, {b}, Need(sb, d, t, i, lo, hi))
    {
      CountBound(was, now, t[i].addrs, addrs, c, hi);
      EndBound(was, now, b, end, Need(sb, d, t, i, lo, hi));
    }

    /** The log has gone from was to now: at most LogCost blocks more, and fewer before its last block b. */
    static ghost predicate Cheap(was: set<nat>, now: set<nat>, off: nat, n: nat, b: nat) {
      |now - was| <= LogCost(off, n) && Adds(was, now, {b}, LogCost(off, n) - 1)
    }

    /** The part of writei after its checks. */
    method WriteChecked(ip: Inode, src: seq<Byte>, off: nat) returns (ok: bool)
      requires Valid() && Loaded(ip) && NoHoles(sb, disk, table) && Synced()
      requires off <= ip.size && off + |src| <= MAXBYTES
      modifies this`disk, this`logged, this`table, ip`addrs, ip`size
      ensures off + |src| <= old(ip.size) ==> ok
      ensures ok ==> Valid() && Loaded(ip) && NoHoles(sb, disk, table) && Synced()
      ensures ok ==> Replaced(sb, old(disk), old(table), disk, table, ip.inum, off, src, |src|)
      ensures ok ==> ip.size == if off + |src| > old(ip.size) then off + |src| else old(ip.size)
      ensures ok ==> table == old(table)[ip.inum := ip.Copy()]
      ensures ok ==> Cheap(old(logged), logged, off, |src|, sb.IBlock(ip.inum))
      ensures !ok || Sparing(ip.inum, off / BSIZE, Top(off, |src|), old(disk), old(table), old(logged))
      ensures !ok ==> NFree(sb, old(disk)) < Missing(sb, old(disk), old(table), ip.inum, off / BSIZE, Top(off, |src|))
      ensures ok ==> Filled(sb, old(disk), old(table), disk, table, ip.inum, off / BSIZE, Top(off, |src|))
      ensures ok ==> AllTouched(ip, off / BSIZE, Top(off, |src|), old(disk), old(table))
      ensures ok && |src| > 0 && off + |src| > old(ip.size) ==> sb.IBlock(ip.inum) in logged
    {
      ghost var c;
      TopSpans(off, |src|);
      ok, c := WriteLoop(ip, src, off, off / BSIZE, Top(off, |src|));
      if !ok {
        return;
      }
      ghost var now := logged;
      FinishWrite(ip, src, off, old(disk), old(table));
      CostBound(old(logged), now, old(ip.addrs), ip.addrs, c, off, |src|, sb.IBlock(ip.inum), logged);
      NeedBound(old(logged), now, ip.addrs, c, off, off / BSIZE, Top(off, |src|), sb.IBlock(ip.inum), logged,
                old(disk), old(table), ip.inum);
    }

    lemma NoHolesKept(d: Disk, t: Table, ip: Inode)
      requires Shaped(sb, d, t) && Shaped(sb, disk, table) && NoHoles(sb, d, t) && AddrsGrow(d, t, ip.inum)
      requires |t| == |table| && forall j :: 0 <= j < |t| ==> table[j].size == t[j].size
      ensures NoHoles(sb, disk, table)
    {
      forall i, bn | 0 <= i < |table| && 0 <= bn < MAXFILE && bn * BSIZE < table[i].size
        ensures Addr(sb, disk, table, i, DataSlot(bn)) != 0
      {
        assert Addr(sb, d, t, i, DataSlot(bn)) != 0;
      }
    }

    /** The end of writei: the inode is updated only if the file has grown. */
    method FinishWrite(ip: Inode, src: seq<Byte>, off: nat, ghost d: Disk, ghost t: Table)
      requires Shaped(sb, d, t) && NoHoles(sb, d, t) && forall j :: 0 <= j < |t| ==> OnDisk(sb, d, j) == t[j]
      requires off <= ip.size && off + |src| <= MAXBYTES
      requires Underway(ip, src, off, |src|, off / BSIZE, Top(off, |src|), d, t)
      requires AllTouched(ip, off / BSIZE, Top(off, |src|), d, t)
      modifies this`disk, this`logged, this`table, ip`size
      ensures Valid() && Loaded(ip) && NoHoles(sb, disk, table) && Synced()
      ensures Replaced(sb, d, t, disk, table, ip.inum, off, src, |src|)
      ensures ip.size == if off + |src| > old(ip.size) then off + |src| else old(ip.size)
      ensures table == t[ip.inum := ip.Copy()]
      ensures logged ==
        if |src| > 0 && off + |src| > old(ip.size) then old(logged) + {sb.IBlock(ip.inum)} else old(logged)
      ensures Filled(sb, d, t, disk, table, ip.inum, off / BSIZE, Top(off, |src|))
      ensures AllTouched(ip, off / BSIZE, Top(off, |src|), d, t)
    {
      SyncedOthers(d, t, ip.inum);
      if |src| > 0 && off + |src| > ip.size {
        Grow(ip, off + |src|, off, d, t);
        ghost var lo, hi := off / BSIZE, Top(off, |src|);
        ReplacedThenSame(sb, d, t, old(disk), old(table), disk, table, ip.inum, off, src, |src|);
        FilledThenSame(sb, d, t, old(disk), old(table), disk, table, ip.inum, lo, hi);
        TouchedThenSame(sb, d, t, old(disk), old(table), disk, table, ip.inum, lo, hi, old(logged), logged);
      } else {
        NoHolesKept(d, t, ip);
      }
    }

    /** The file now ends at `end`, which is what writei stores in the inode. */
    method Grow(ip: Inode, end: nat, off: nat, ghost d: Disk, ghost t: Table)
      requires Valid() && Loaded(ip) && Shaped(sb, d, t) && ip.inum < |t| && AddrsGrow(d, t, ip.inum)
      requires NoHoles(sb, d, t)
      requires table == t[ip.inum := t[ip.inum].(addrs := ip.addrs)]
      requires forall j :: 0 <= j < |t| && j != ip.inum ==> OnDisk(sb, disk, j) == table[j]
      requires off <= ip.size < end <= MAXBYTES
      requires forall bn :: off / BSIZE <= bn < Top(off, end - off) ==>
        Addr(sb, disk, table, ip.inum, DataSlot(bn)) != 0
      modifies this`disk, this`logged, this`table, ip`size
      ensures Valid() && Loaded(ip) && NoHoles(sb, disk, table) && Synced()
      ensures SameFiles(sb, old(disk), old(table), disk, table) && SameAddrs(sb, old(disk), old(table), disk, table)
      ensures SameBits(sb, old(disk), disk)
      ensures ip.size == end && table == t[ip.inum := ip.Copy()]
      ensures logged == old(logged) + {sb.IBlock(ip.inum)}
    {
      ip.size := end;
      IUpdate(ip);
      forall i, bn | 0 <= i < |table| && 0 <= bn < MAXFILE && bn * BSIZE < table[i].size
        ensures Addr(sb, disk, table, i, DataSlot(bn)) != 0
      {
        assert Addr(sb, disk, table, i, DataSlot(bn)) == Addr(sb, old(disk), old(table), i, DataSlot(bn));
        if i == ip.inum && bn * BSIZE >= t[i].size {
          assert off / BSIZE <= bn < Top(off, end - off);
        } else {
          assert Addr(sb, d, t, i, DataSlot(bn)) != 0;
        }
      }
    }

    /** writei. The error returns are exactly those of the code, with its 32-bit sums. On success the bytes replace
        the file's bytes at off, the file grows if they reach past its end, and no other file changes; the volume
        stays well-formed and without holes, and the inode on disk is the one in memory even when iupdate is skipped.
        At most LogCost blocks are logged, fewer before the inode's, which is logged last, and at least those that
        Touched names. It stops halfway, where the kernel panics, exactly when there are fewer free blocks than the
        write needs, and never inside the file. */
    method WriteI(ip: Inode, src: seq<Byte>, off: Word) returns (r: IoResult)
      requires Valid() && Loaded(ip) && NoHoles(sb, disk, table) && Synced() && |src| < 0x1_0000_0000
      modifies this`disk, this`logged, this`table, ip`addrs, ip`size
      ensures r == Device <==> ip.kind == T_DEV
      ensures r == Failed <==>
        ip.kind != T_DEV && (off > old(ip.size) || (off + |src|) % 0x1_0000_0000 < off || off + |src| > MAXBYTES)
      ensures r == Device || r == Failed ==>
        disk == old(disk) && table == old(table) && ip.Copy() == old(ip.Copy()) && logged == old(logged)
      ensures off + |src| <= old(ip.size) ==> r != NoSpace
      ensures r != Device && r != Failed ==>
        (r == NoSpace <==>
         NFree(sb, old(disk)) < Missing(sb, old(disk), old(table), ip.inum, off / BSIZE, Top(off, |src|)))
      ensures r.Count? ==> r.n == |src| && Valid() && Loaded(ip) && NoHoles(sb, disk, table) && Synced()
      ensures r.Count? ==> table == old(table)[ip.inum := ip.Copy()]
      ensures r.Count? ==> Cheap(old(logged), logged, off, |src|, sb.IBlock(ip.inum))
      ensures !r.Count? || Sparing(ip.inum, off / BSIZE, Top(off, |src|), old(disk), old(table), old(logged))
      ensures r.Count? ==> off <= old(ip.size) && off + |src| <= MAXBYTES
      ensures r.Count? ==> ip.size == if off + |src| > old(ip.size) then off + |src| else old(ip.size)
      ensures r.Count? ==> Filled(sb, old(disk), old(table), disk, table, ip.inum, off / BSIZE, Top(off, |src|))
      ensures r.Count? ==> AllTouched(ip, off / BSIZE, Top(off, |src|), old(disk), old(table))
      ensures r.Count? && |src| > 0 && off + |src| > old(ip.size) ==> sb.IBlock(ip.inum) in logged
      ensures r.Count? ==>
        Contents(sb, disk, table, ip.inum) == Overwrite(Contents(sb, old(disk), old(table), ip.inum), off, src)
      ensures r.Count? ==> forall j :: 0 <= j < |table| && j != ip.inum ==>
        Contents(sb, disk, table, j) == Contents(sb, old(disk), old(table), j)
    {
      if ip.kind == T_DEV {
        return Device;
      }
      if off > ip.size || (off + |src|) % 0x1_0000_0000 < off {
        return Failed;
      }
      if off + |src| > MAXBYTES {
        return Failed;
      }
      var ok := WriteChecked(ip, src, off);
      if !ok {
        return NoSpace;
      }
      ReplacedContents(sb, old(disk), old(table), disk, table, ip.inum, off, src);
      return Count(|src|);
    }

    // -------------------------------------------------------------- reading a file

    /** readi: the bytes from off on, at most n of them and none past the end of the file. With no holes, reading
        allocates nothing and logs nothing. */
    method ReadI(ip: Inode, off: Word, n: Word) returns (r: IoResult, dst: seq<Byte>)
      requires Valid() && Loaded(ip) && NoHoles(sb, disk, table)
      modifies this`disk, this`logged, this`table, ip`addrs
      ensures disk == old(disk) && logged == old(logged) && table == old(table) && ip.addrs == old(ip.addrs)
      ensures r == Device <==> ip.kind == T_DEV
      ensures r == Failed <==> ip.kind != T_DEV && (off > ip.size || (off + n) % 0x1_0000_0000 < off)
      ensures r != NoSpace
      ensures r.Count? ==> var end := if off + n > ip.size then ip.size else off + n;
        && off <= end && r.n == |dst| == end - off
        && dst == Contents(sb, disk, table, ip.inum)[off..end]
    {
      dst := [];
      if ip.kind == T_DEV {
        return Device, [];
      }
      if off > ip.size || (off + n) % 0x1_0000_0000 < off {
        return Failed, [];
      }
      var n' := if off + n > ip.size then ip.size - off else n;
      var tot := 0;
      while tot < n'
        invariant tot <= n' && |dst| == tot
        invariant disk == old(disk) && logged == old(logged) && table == old(table) && ip.addrs == old(ip.addrs)
        invariant forall k :: 0 <= k < tot ==> dst[k] == FileByte(sb, disk, table, ip.inum, off + k)
      {
        var m, bytes := ReadWithinBlock(ip, off + tot, n' - tot);
        dst := dst + bytes;
        tot := tot + m;
      }
      return Count(n'), dst;
    }

    /** One round of readi's loop. */
    method ReadWithinBlock(ip: Inode, off: nat, left: nat) returns (m: nat, bytes: seq<Byte>)
      requires Valid() && Loaded(ip) && NoHoles(sb, disk, table) && 0 < left && off + left <= ip.size
      modifies this`disk, this`logged, this`table, ip`addrs
      ensures disk == old(disk) && logged == old(logged) && table == old(table) && ip.addrs == old(ip.addrs)
      ensures 0 < m <= left && |bytes| == m
      ensures forall k :: 0 <= k < m ==> bytes[k] == FileByte(sb, disk, table, ip.inum, off + k)
    {
      assert Addr(sb, disk, table, ip.inum, DataSlot(off / BSIZE)) != 0;
      var ok, addr := BMap(ip, off / BSIZE);
      m := if left < BSIZE - off % BSIZE then left else BSIZE - off % BSIZE;
      bytes := disk[addr][off % BSIZE..off % BSIZE + m];
      forall k | 0 <= k < m ensures bytes[k] == FileByte(sb, disk, table, ip.inum, off + k) {
        assert (off + k) / BSIZE == off / BSIZE && (off + k) % BSIZE == off % BSIZE + k;
      }
    }

    // -------------------------------------------------------------- itrunc

    /** Nothing but bitmap blocks differs from d. */
    ghost predicate BitmapOnly(d: Disk)
      requires sb.Ok(d) && sb.Ok(disk)
      reads this`disk
    {
      forall c :: 0 <= c < sb.size && !(sb.bmapstart <= c < sb.DataStart()) ==> disk[c] == d[c]
    }

    /** Since the log was `was`, only bitmap blocks have been logged, among them those of the blocks `gone`. */
    ghost predicate BitsLogged(was: set<nat>, gone: set<nat>)
      requires sb.size >= 1
      reads this`logged
    {
      BitsIn(was, logged, gone)
    }

    ghost predicate BitsIn(was: set<nat>, now: set<nat>, gone: set<nat>)
      requires sb.size >= 1
    {
      forall s {:trigger Counted(s)} :: Counted(s) && s == now ==>
        was <= s <= was + Bitmaps(sb) && forall b {:trigger sb.BBlock(b)} :: b in gone ==> sb.BBlock(b) in s
    }

    lemma BitsMore(was: set<nat>, now: set<nat>, gone: set<nat>, b: nat, now': set<nat>, gone': set<nat>)
      requires sb.size >= 1 && BitsIn(was, now, gone) && sb.BBlock(b) in Bitmaps(sb)
      requires now' == now + {sb.BBlock(b)} && gone' == gone + {b}
      ensures BitsIn(was, now', gone')
    {
      assert Counted(now);
    }

    /** bfree of a block nobody has any more; it is still marked in use, so bfree does not panic. */
    method Release(b: nat, ghost d: Disk, ghost gone: set<nat>, ghost was: set<nat>)
      requires Valid() && sb.DataStart() <= b < sb.size && Unowned(sb, disk, table, b) && BitsLogged(was, gone)
      requires sb.Ok(d) && UsedExcept(sb, d, disk, gone) && Used(sb, d, b) && b !in gone
      modifies this`disk, this`logged
      ensures Valid() && SameAddrs(sb, old(disk), table, disk, table) && SameFiles(sb, old(disk), table, disk, table)
      ensures UsedExcept(sb, d, disk, gone + {b})
      ensures BitmapOnly(old(disk)) && BitsLogged(was, gone + {b})
    {
      InBitmaps(sb, b);
      ReleaseKeeps(sb, disk, table, b);
      ReleaseAnother(sb, d, disk, gone, b);
      ghost var now := logged;
      var panicked := BFree(b);
      BitsMore(was, now, gone, b, logged, gone + {b});
    }

    /** Where itrunc stands: the addresses of inode i from lo on are those of (d, t), those before are gone, and
        so are the bits of the blocks at those. */
    ghost predicate TruncatedTo(ip: Inode, lo: nat, d: Disk, t: Table, gone: set<nat>)
      requires Shaped(sb, d, t) && ip.inum < |t| && lo <= NSLOTS
      reads this`disk, this`table, ip
    {
      && Valid() && Loaded(ip) && |table| == |t| && UsedExcept(sb, d, disk, gone) && BitmapOnly(d)
      && (forall j, k :: 0 <= j < |t| && 0 <= k < NSLOTS ==>
            Addr(sb, disk, table, j, k) == if j == ip.inum && k < lo then 0 else Addr(sb, d, t, j, k))
      && (forall b :: b in gone ==> At(sb, d, t, ip.inum, 0, lo, b))
      && (forall k :: 0 <= k < lo && Addr(sb, d, t, ip.inum, k) != 0 ==> Addr(sb, d, t, ip.inum, k) in gone)
    }

    /** The first loop of itrunc. */
    method FreeDirect(ip: Inode) returns (ghost gone: set<nat>)
      requires Valid() && Loaded(ip)
      modifies this`disk, this`logged, this`table, ip`addrs
      ensures TruncatedTo(ip, NDIRECT, old(disk), old(table), gone) && BitsLogged(old(logged), gone)
      ensures table == old(table)[ip.inum := old(table)[ip.inum].(addrs := ip.addrs)]
    {
      gone := {};
      for i := 0 to NDIRECT
        invariant TruncatedTo(ip, i, old(disk), old(table), gone) && BitsLogged(old(logged), gone)
        invariant table == old(table)[ip.inum := old(table)[ip.inum].(addrs := ip.addrs)]
      {
        gone := FreeOneDirect(ip, i, old(disk), old(table), gone, old(logged));
      }
    }

    method FreeOneDirect(ip: Inode, i: nat, ghost d: Disk, ghost t: Table, ghost gone: set<nat>, ghost was: set<nat>)
      returns (ghost gone': set<nat>)
      requires Wf(sb, d, t) && ip.inum < |t| && i < NDIRECT && TruncatedTo(ip, i, d, t, gone) && BitsLogged(was, gone)
      modifies this`disk, this`logged, this`table, ip`addrs
      ensures TruncatedTo(ip, i + 1, d, t, gone') && BitsLogged(was, gone')
      ensures table == old(table)[ip.inum := old(table)[ip.inum].(addrs := ip.addrs)]
    {
      gone' := gone;
      var b := ip.addrs[i];
      assert Addr(sb, disk, table, ip.inum, i) == b == Addr(sb, d, t, ip.inum, i);
      if b != 0 {
        ClearAddr(sb, disk, table, ip.inum, i);
        assert b !in gone;
        table := WithAddr(table, ip.inum, i, 0);
        Release(b, d, gone, was);
        ip.addrs := ip.addrs[i := 0];
        gone' := gone + {b};
      }
    }

    /** Inode i has no address left; the others have those of (d, t); the blocks freed are at addresses of inode i,
        among them all those before 12 and the first n entries of the indirect block. */
    ghost predicate EntriesFreed(i: nat, n: nat, d: Disk, t: Table, gone: set<nat>)
      requires Shaped(sb, d, t) && i < |t| && n <= NINDIRECT
      reads this`disk, this`table
    {
      && Valid() && |table| == |t| && UsedExcept(sb, d, disk, gone) && BitmapOnly(d)
      && (forall j, k :: 0 <= j < |t| && 0 <= k < NSLOTS ==>
            Addr(sb, disk, table, j, k) == if j == i then 0 else Addr(sb, d, t, j, k))
      && (forall b :: b in gone ==> At(sb, d, t, i, 0, NDIRECT, b) || At(sb, d, t, i, NDIRECT + 1, NDIRECT + 1 + n, b))
      && (forall k :: 0 <= k < NDIRECT + 1 + n && k != NDIRECT && Addr(sb, d, t, i, k) != 0 ==>
            Addr(sb, d, t, i, k) in gone)
    }

    /** bfree of entry n of an indirect block. */
    method FreeEntry(i: nat, ind: nat, n: nat, ghost d: Disk, ghost t: Table, ghost gone: set<nat>,
                     ghost was: set<nat>)
      returns (ghost gone': set<nat>)
      requires Wf(sb, d, t) && i < |t| && n < NINDIRECT && EntriesFreed(i, n, d, t, gone) && BitsLogged(was, gone)
      requires ind == t[i].addrs[NDIRECT] != 0
      modifies this`disk, this`logged
      ensures EntriesFreed(i, n + 1, d, t, gone') && BitsLogged(was, gone')
    {
      gone' := gone;
      assert Addr(sb, d, t, i, NDIRECT) == ind;
      var a := GetWord(disk[ind], n);
      assert a == Addr(sb, d, t, i, NDIRECT + 1 + n);
      if a != 0 {
        OnlyOwner(sb, d, t, i, NDIRECT + 1 + n);
        assert a !in gone;
        Release(a, d, gone, was);
        gone' := gone + {a};
      }
    }

    /** The second half of itrunc: the entries of the indirect block, then the block itself. */
    method FreeIndirect(ip: Inode, ghost d: Disk, ghost t: Table, ghost gone0: set<nat>, ghost was: set<nat>)
      returns (ghost gone: set<nat>)
      requires Wf(sb, d, t) && ip.inum < |t| && TruncatedTo(ip, NDIRECT, d, t, gone0) && BitsLogged(was, gone0)
      modifies this`disk, this`logged, this`table, ip`addrs
      ensures TruncatedTo(ip, NSLOTS, d, t, gone) && BitsLogged(was, gone)
      ensures table == old(table)[ip.inum := old(table)[ip.inum].(addrs := ip.addrs)]
    {
      var ind := ip.addrs[NDIRECT];
      assert Addr(sb, disk, table, ip.inum, NDIRECT) == ind == Addr(sb, d, t, ip.inum, NDIRECT);
      if ind != 0 {
        gone := FreeIndirectBlock(ip, d, t, gone0, was);
      } else {
        gone := gone0;
        assert forall k :: NDIRECT <= k < NSLOTS ==> Addr(sb, d, t, ip.inum, k) == 0;
      }
    }

    method FreeIndirectBlock(ip: Inode, ghost d: Disk, ghost t: Table, ghost gone0: set<nat>, ghost was: set<nat>)
      returns (ghost gone: set<nat>)
      requires Wf(sb, d, t) && ip.inum < |t| && TruncatedTo(ip, NDIRECT, d, t, gone0) && BitsLogged(was, gone0)
      requires ip.addrs[NDIRECT] == Addr(sb, d, t, ip.inum, NDIRECT) != 0
      modifies this`disk, this`logged, this`table, ip`addrs
      ensures TruncatedTo(ip, NSLOTS, d, t, gone) && BitsLogged(was, gone)
      ensures table == old(table)[ip.inum := old(table)[ip.inum].(addrs := ip.addrs)]
    {
      var ind := ip.addrs[NDIRECT];
      ClearIndirect(sb, disk, table, ip.inum);
      table := WithAddr(table, ip.inum, NDIRECT, 0);
      gone := FreeEntries(ip.inum, ind, d, t, gone0, was);
      IndirectLast(ip.inum, d, t, gone);
      Release(ind, d, gone, was);
      ip.addrs := ip.addrs[NDIRECT := 0];
      gone := gone + {ind};
    }

    /** When its entries are freed, the indirect block itself is still in use and nobody's. */
    lemma IndirectLast(i: nat, d: Disk, t: Table, gone: set<nat>)
      requires Wf(sb, d, t) && i < |t| && EntriesFreed(i, NINDIRECT, d, t, gone)
      requires Addr(sb, d, t, i, NDIRECT) != 0
      ensures var ind := Addr(sb, d, t, i, NDIRECT);
              ind !in gone && Unowned(sb, disk, table, ind) && sb.DataStart() <= ind < sb.size && Used(sb, d, ind)
    {
      OnlyOwner(sb, d, t, i, NDIRECT);
    }

    /** The second loop of itrunc. */
    method FreeEntries(i: nat, ind: nat, ghost d: Disk, ghost t: Table, ghost gone0: set<nat>, ghost was: set<nat>)
      returns (ghost gone: set<nat>)
      requires Wf(sb, d, t) && i < |t| && EntriesFreed(i, 0, d, t, gone0) && BitsLogged(was, gone0)
      requires ind == t[i].addrs[NDIRECT] != 0
      modifies this`disk, this`logged
      ensures EntriesFreed(i, NINDIRECT, d, t, gone) && BitsLogged(was, gone)
    {
      gone := gone0;
      for n := 0 to NINDIRECT
        invariant EntriesFreed(i, n, d, t, gone) && BitsLogged(was, gone)
      {
        gone := FreeEntry(i, ind, n, d, t, gone, was);
      }
    }

    /** Freeing the blocks that inode i has in (d, t) has logged the bitmap block of each and the inode's block, and
        nothing else but bitmap blocks. */
    ghost predicate FreeLogged(i: nat, d: Disk, t: Table, was: set<nat>)
      requires Shaped(sb, d, t) && i < |t|
      reads this`logged
    {
      BitsAndInode(i, d, t, was, logged)
    }

    ghost predicate BitsAndInode(i: nat, d: Disk, t: Table, was: set<nat>, now: set<nat>)
      requires Shaped(sb, d, t) && i < |t|
    {
      forall s {:trigger Counted(s)} :: Counted(s) && s == now ==>
        && was <= s <= was + ({sb.IBlock(i)} + Bitmaps(sb)) && sb.IBlock(i) in s
        && forall k {:trigger Addr(sb, d, t, i, k)} :: 0 <= k < NSLOTS && Addr(sb, d, t, i, k) != 0 ==>
             sb.BBlock(Addr(sb, d, t, i, k)) in s
    }

    lemma FreedBits(i: nat, d: Disk, t: Table, gone: set<nat>, was: set<nat>, mid: set<nat>, now: set<nat>)
      requires Shaped(sb, d, t) && i < |t| && BitsIn(was, mid, gone) && now == mid + {sb.IBlock(i)}
      requires forall k :: 0 <= k < NSLOTS && Addr(sb, d, t, i, k) != 0 ==> Addr(sb, d, t, i, k) in gone
      ensures BitsAndInode(i, d, t, was, now)
    {
      assert Counted(mid);
    }

    lemma InodeAgain(i: nat, d: Disk, t: Table, was: set<nat>, mid: set<nat>, now: set<nat>)
      requires Shaped(sb, d, t) && i < |t| && BitsAndInode(i, d, t, was, mid) && now == mid + {sb.IBlock(i)}
      ensures BitsAndInode(i, d, t, was, now)
    {
      assert Counted(mid);
      assert now == mid;
    }

    /** itrunc: the file is empty, its blocks and no others have become free, and no other file has changed. The
        panic of bfree cannot happen. */
    method ITrunc(ip: Inode)
      requires Valid() && Loaded(ip) && NoHoles(sb, disk, table) && Synced()
      modifies this`disk, this`logged, this`table, ip`addrs, ip`size
      ensures Valid() && Loaded(ip) && NoHoles(sb, disk, table) && Synced()
      ensures table == old(table)[ip.inum := ip.Copy()]
      ensures ip.size == 0 && forall k :: 0 <= k < NSLOTS ==> Addr(sb, disk, table, ip.inum, k) == 0
      ensures forall b :: 0 <= b < sb.size ==>
        (Used(sb, disk, b) <==> Used(sb, old(disk), b) && !At(sb, old(disk), old(table), ip.inum, 0, NSLOTS, b))
      ensures forall j, m :: 0 <= j < |table| && j != ip.inum && 0 <= m < MAXFILE ==>
        FileBlock(sb, disk, table, j, m) == FileBlock(sb, old(disk), old(table), j, m)
      ensures FreeLogged(ip.inum, old(disk), old(table), old(logged))
    {
      ghost var gone := FreeDirect(ip);
      gone := FreeIndirect(ip, old(disk), old(table), gone, old(logged));
      Emptied(ip, old(disk), old(table), gone);
      ghost var mid := logged;
      StoreEmpty(ip, old(disk), old(table));
      FreedBits(ip.inum, old(disk), old(table), gone, old(logged), mid, logged);
    }

    /** The end of itrunc. */
    method StoreEmpty(ip: Inode, ghost d: Disk, ghost t: Table)
      requires Valid() && Loaded(ip) && Shaped(sb, d, t) && NoHoles(sb, d, t) && SameOnDisk(d)
      requires |t| == |table| && forall j :: 0 <= j < |t| && j != ip.inum ==> OnDisk(sb, d, j) == t[j] == table[j]
      requires forall j, k :: 0 <= j < |t| && 0 <= k < NSLOTS ==>
        Addr(sb, disk, table, j, k) == if j == ip.inum then 0 else Addr(sb, d, t, j, k)
      modifies this`disk, this`logged, this`table, ip`size
      ensures Valid() && Loaded(ip) && NoHoles(sb, disk, table) && Synced()
      ensures ip.size == 0 && table == old(table)[ip.inum := ip.Copy()]
      ensures SameAddrs(sb, old(disk), old(table), disk, table) && SameFiles(sb, old(disk), old(table), disk, table)
      ensures BlocksKept(old(disk)) && logged == old(logged) + {sb.IBlock(ip.inum)}
    {
      forall j | 0 <= j < |t| ensures OnDisk(sb, disk, j) == OnDisk(sb, d, j) {
        assert sb.inodestart <= sb.IBlock(j) < sb.bmapstart;
      }
      ip.size := 0;
      IUpdate(ip);
      forall i, bn | 0 <= i < |table| && 0 <= bn < MAXFILE && bn * BSIZE < table[i].size
        ensures Addr(sb, disk, table, i, DataSlot(bn)) != 0
      {
        assert Addr(sb, d, t, i, DataSlot(bn)) != 0;
      }
    }

    /** Nothing but inode blocks differs from d. */
    ghost predicate BlocksKept(d: Disk)
      requires sb.Ok(d) && sb.Ok(disk)
      reads this`disk
    {
      forall b :: 0 <= b < sb.size && !(sb.inodestart <= b < sb.bmapstart) ==> disk[b] == d[b]
    }

    /** What TruncatedTo says once all addresses are gone. */
    lemma Emptied(ip: Inode, d: Disk, t: Table, gone: set<nat>)
      requires Wf(sb, d, t) && ip.inum < |t| && TruncatedTo(ip, NSLOTS, d, t, gone)
      ensures forall b :: 0 <= b < sb.size ==>
        (Used(sb, disk, b) <==> Used(sb, d, b) && !At(sb, d, t, ip.inum, 0, NSLOTS, b))
      ensures forall j, m :: 0 <= j < |table| && j != ip.inum && 0 <= m < MAXFILE ==>
        FileBlock(sb, disk, table, j, m) == FileBlock(sb, d, t, j, m)
      ensures SameOnDisk(d)
    {
      forall b | 0 <= b < sb.size
        ensures Used(sb, disk, b) <==> Used(sb, d, b) && !At(sb, d, t, ip.inum, 0, NSLOTS, b)
      {
        if At(sb, d, t, ip.inum, 0, NSLOTS, b) {
          var k :| 0 <= k < NSLOTS && Addr(sb, d, t, ip.inum, k) == b;
        }
      }
      forall j, m | 0 <= j < |table| && j != ip.inum && 0 <= m < MAXFILE
        ensures FileBlock(sb, disk, table, j, m) == FileBlock(sb, d, t, j, m)
      {
        assert Addr(sb, disk, table, j, DataSlot(m)) == Addr(sb, d, t, j, DataSlot(m));
      }
    }

    // -------------------------------------------------------------- ialloc and iput

    /** ialloc: the first inode past 0 that is free on disk, now empty and of the given type; fails exactly when
        there is none. */
    method IAlloc(kind: Short) returns (ok: bool, inum: nat)
      requires Valid() && NoHoles(sb, disk, table) && Synced() && kind != 0
      modifies this`disk, this`logged, this`table
      ensures ok <==> exists i :: 1 <= i < sb.ninodes && old(table)[i].kind == 0
      ensures !ok ==> disk == old(disk) && table == old(table) && logged == old(logged)
      ensures ok ==> 1 <= inum < sb.ninodes && old(table)[inum].kind == 0
      ensures ok ==> forall i :: 1 <= i < inum ==> old(table)[i].kind != 0
      ensures ok ==> table == old(table)[inum := Dinode(kind, 0, 0, 0, 0, Zeros())]
      ensures ok ==> logged == old(logged) + {sb.IBlock(inum)}
      ensures ok ==> Valid() && NoHoles(sb, disk, table) && Synced()
      ensures ok ==> forall j :: 0 <= j < |table| && j != inum ==>
        Contents(sb, disk, table, j) == Contents(sb, old(disk), old(table), j)
      ensures !ok || Blanked(sb, old(disk), old(table), disk, table, inum)
    {
      inum := 1;
      while inum < sb.ninodes
        invariant 1 <= inum && disk == old(disk) && table == old(table) && logged == old(logged)
        invariant forall i :: 1 <= i < inum && i < sb.ninodes ==> table[i].kind != 0
      {
        assert OnDisk(sb, disk, inum) == table[inum];
        if FromWords(GetWords(disk[sb.IBlock(inum)], InodeBase(inum))).kind == 0 {
          TakeInode(inum, kind);
          return true, inum;
        }
        inum := inum + 1;
      }
      return false, 0;
    }

    method TakeInode(inum: nat, kind: Short)
      requires Valid() && NoHoles(sb, disk, table) && Synced() && inum < |table|
      modifies this`disk, this`logged, this`table
      ensures table == old(table)[inum := Dinode(kind, 0, 0, 0, 0, Zeros())]
      ensures logged == old(logged) + {sb.IBlock(inum)}
      ensures Valid() && NoHoles(sb, disk, table) && Synced()
      ensures forall j :: 0 <= j < |table| && j != inum ==>
        Contents(sb, disk, table, j) == Contents(sb, old(disk), old(table), j)
      ensures Blanked(sb, old(disk), old(table), disk, table, inum)
    {
      var di := Dinode(kind, 0, 0, 0, 0, Zeros());
      EmptyInodeKeeps(sb, disk, table, inum, di);
      table := table[inum := di];
      ghost var d := disk;
      var data := PutWords(disk[sb.IBlock(inum)], InodeBase(inum), WordsOf(di), DWORDS);
      LogWrite(sb.IBlock(inum), data);
      InodeBlockKeeps(sb, d, table, sb.IBlock(inum), data, disk);
      forall j | 0 <= j < |table| ensures OnDisk(sb, disk, j) == table[j] {
        StoreInode(sb, d, inum, di, j);
      }
      OthersSame(old(disk), old(table), inum);
    }

    lemma OthersSame(d: Disk, t: Table, i: nat)
      requires Shaped(sb, d, t) && Shaped(sb, disk, table) && NoHoles(sb, d, t) && InArea(sb, d, t)
      requires |t| == |table| && (forall j :: 0 <= j < |t| && j != i ==> table[j] == t[j]) && BlocksKept(d)
      requires i < |t| && table[i].size == 0
      requires forall j, k :: 0 <= j < |t| && 0 <= k < NSLOTS && j != i ==>
        Addr(sb, disk, table, j, k) == Addr(sb, d, t, j, k)
      ensures NoHoles(sb, disk, table)
      ensures forall j :: 0 <= j < |table| && j != i ==> Contents(sb, disk, table, j) == Contents(sb, d, t, j)
    {
      forall j, p | 0 <= j < |t| && j != i && 0 <= p < MAXBYTES
        ensures FileByte(sb, disk, table, j, p) == FileByte(sb, d, t, j, p)
      {
        assert Addr(sb, disk, table, j, DataSlot(p / BSIZE)) == Addr(sb, d, t, j, DataSlot(p / BSIZE));
      }
      forall j, bn | 0 <= j < |table| && 0 <= bn < MAXFILE && bn * BSIZE < table[j].size
        ensures Addr(sb, disk, table, j, DataSlot(bn)) != 0
      {
        assert Addr(sb, d, t, j, DataSlot(bn)) != 0;
      }
    }

    /** iput of the last reference to an inode without links: the file's blocks and the inode become free. */
    method IPutLast(ip: Inode)
      requires Valid() && Loaded(ip) && NoHoles(sb, disk, table) && Synced() && ip.nlink == 0
      modifies this`disk, this`logged, this`table, ip`addrs, ip`size, ip`kind
      ensures Valid() && Loaded(ip) && NoHoles(sb, disk, table) && Synced()
      ensures ip.kind == 0 && ip.size == 0 && table == old(table)[ip.inum := ip.Copy()]
      ensures forall b :: 0 <= b < sb.size ==>
        (Used(sb, disk, b) <==> Used(sb, old(disk), b) && !At(sb, old(disk), old(table), ip.inum, 0, NSLOTS, b))
      ensures forall j, m :: 0 <= j < |table| && j != ip.inum && 0 <= m < MAXFILE ==>
        FileBlock(sb, disk, table, j, m) == FileBlock(sb, old(disk), old(table), j, m)
      ensures FreeLogged(ip.inum, old(disk), old(table), old(logged))
    {
      ITrunc(ip);
      ghost var d, t, mid := disk, table, logged;
      ip.kind := 0;
      IUpdate(ip);
      InodeAgain(ip.inum, old(disk), old(table), old(logged), mid, logged);
      forall b | 0 <= b < sb.size ensures Used(sb, disk, b) == Used(sb, d, b) { }
      StillNoHoles(sb, d, t, disk, table);
    }
  }
}
