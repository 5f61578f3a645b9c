/** file.c: writing through an open file, cut into chunks that each fit one log transaction. */
module FileLayer {
  import opened Bytes
  import opened Volume
  import opened Space
  import opened FileSystem
  import LogDisk

  const CHUNK: nat := (LogDisk.MAXOPBLOCKS - 1 - 1 - 2) / 2 * BSIZE

  /** Every chunk of filewrite logs at most MAXOPBLOCKS blocks, wherever it starts. */
  lemma ChunkFits(off: nat, n: nat)
    requires n <= CHUNK
    ensures LogCost(off, n) <= LogDisk.MAXOPBLOCKS
  {
  }

  lemma ChunkCheap(off: nat, n: nat, log: set<nat>, b: nat)
    requires n <= CHUNK && Fs.Cheap({}, log, off, n, b)
    ensures |log| <= LogDisk.MAXOPBLOCKS && Adds({}, log, {b}, LogDisk.MAXOPBLOCKS - 1)
  {
    ChunkFits(off, n);
    assert log - {} == log;
    AddsAtMost({}, log, {b}, LogCost(off, n) - 1, {b}, LogDisk.MAXOPBLOCKS - 1);
  }

  /** How many of n bytes filewrite gets to at off, chunk by chunk, before a chunk reaches past the largest file. */
  function Reach(off: nat, n: nat): (r: nat)
    requires off <= MAXBYTES
    ensures r <= n && off + r <= MAXBYTES
    decreases n
  {
    var m := if n > CHUNK then CHUNK else n;
    if off + m > MAXBYTES then 0 else if m == n then n else m + Reach(off + m, n - m)
  }

  /** All of them if they fit in the largest file, of 71680 bytes, and else the chunks of 1536 bytes that fit. */
  lemma {:induction false} ReachIs(off: nat, n: nat)
    requires off <= MAXBYTES
    ensures off + n <= MAXBYTES ==> Reach(off, n) == n
    ensures off + n > MAXBYTES ==> Reach(off, n) == (71680 - off) / 1536 * 1536
    decreases n
  {
    if n > CHUNK && off + CHUNK <= MAXBYTES {
      ReachIs(off + CHUNK, n - CHUNK);
      ChunkLess(71680 - off);
    }
  }

  lemma ChunkLess(room: nat)
    requires room >= 1536
    ensures room / 1536 == (room - 1536) / 1536 + 1
  {
  }

  /** The chunk after the first i of n bytes ends after `next`. */
  predicate ChunkEnds(n: nat, i: nat, next: nat) {
    i < n && next == if n - i > CHUNK then i + CHUNK else n
  }

  /** After i of n bytes from off on, `rest` more will be reached, `reach` in all. */
  ghost predicate Ahead(off: nat, n: nat, i: nat, rest: nat, reach: nat) {
    i <= n && off + i <= MAXBYTES && i + rest == reach && rest == Reach(off + i, n - i)
  }

  lemma ReachStep(off: nat, n: nat, i: nat, next: nat, rest: nat, reach: nat) returns (rest': nat)
    requires ChunkEnds(n, i, next) && Ahead(off, n, i, rest, reach)
    ensures off + next > MAXBYTES ==> i == reach
    ensures off + next <= MAXBYTES ==> Ahead(off, n, next, rest', reach) && next <= reach
  {
    rest' := if off + next <= MAXBYTES then Reach(off + next, n - next) else 0;
  }

  /** The blocks of the chunk of n bytes after the first i. */
  lemma ChunkSpan(off: nat, i: nat, next: nat, lo: nat, hi: nat, at: nat, n: nat)
    requires Spans(off, i, lo, hi) && i < next && at == off + i && n == next - i
    ensures var lo', hi' := at / BSIZE, Top(at, n);
      lo <= lo' <= hi <= hi' && Spans(off, next, lo, hi')
  {
  }

  lemma SpansMonotone(off: nat, n: nat, n': nat, lo: nat, hi: nat, hi': nat)
    requires Spans(off, n, lo, hi) && Spans(off, n', lo, hi') && n <= n'
    ensures lo <= hi <= hi' && (n == n' ==> hi == hi')
    ensures off + n <= MAXBYTES ==> hi <= MAXFILE
  {
  }

  lemma NoWrap(off: nat, n: nat)
    requires off <= MAXBYTES && n <= CHUNK
    ensures (off + n) % 0x1_0000_0000 >= off
  {
  }

  /** All files of a volume. */
  ghost function Files(sb: Superblock, d: Disk, t: Table): (r: seq<seq<Byte>>)
    requires Shaped(sb, d, t) && NoHoles(sb, d, t)
    ensures |r| == |t| && forall j :: 0 <= j < |r| ==> r[j] == Contents(sb, d, t, j)
  {
    seq(|t|, j requires 0 <= j < |t| => Contents(sb, d, t, j))
  }

  /** The files once the first i bytes of src have replaced those of file f at off. */
  ghost function FilesAfter(files: seq<seq<Byte>>, f: nat, off: nat, src: seq<Byte>, i: nat): seq<seq<Byte>>
    requires f < |files| && off <= |files[f]| && i <= |src|
  {
    files[f := Overwrite(files[f], off, src[..i])]
  }

  /** One more chunk. */
  lemma FilesAfterMore(files: seq<seq<Byte>>, f: nat, off: nat, src: seq<Byte>, i: nat, next: nat, at: nat,
                       bytes: seq<Byte>)
    requires f < |files| && off <= |files[f]| && i <= next <= |src| && at == off + i && bytes == src[i..next]
    ensures FilesAfter(FilesAfter(files, f, off, src, i), f, at, bytes, |bytes|) == FilesAfter(files, f, off, src, next)
  {
    OverwriteTwice(files[f], off, src[..i], bytes);
    assert src[..i] + bytes == src[..next];
    assert bytes[..|bytes|] == bytes;
  }

  /** What writei does to one file, seen on all of them. */
  lemma OneReplaced(sb: Superblock, d: Disk, t: Table, d': Disk, t': Table, f: nat, off: nat, bytes: seq<Byte>)
    requires Shaped(sb, d, t) && NoHoles(sb, d, t) && Shaped(sb, d', t') && NoHoles(sb, d', t') && f < |t| == |t'|
    requires off <= t[f].size && Contents(sb, d', t', f) == Overwrite(Contents(sb, d, t, f), off, bytes)
    requires forall j :: 0 <= j < |t'| && j != f ==> Contents(sb, d', t', j) == Contents(sb, d, t, j)
    ensures Files(sb, d', t') == FilesAfter(Files(sb, d, t), f, off, bytes, |bytes|)
  {
    assert bytes[..|bytes|] == bytes;
  }

  /** The first i of n bytes are in k chunks. */
  predicate Chunks(n: nat, i: nat, k: nat) { k == (i + 1535) / 1536 && (i % 1536 == 0 || i == n) }

  lemma ChunksMore(n: nat, i: nat, next: nat, k: nat)
    requires ChunkEnds(n, i, next) && Chunks(n, i, k)
    ensures Chunks(n, next, k + 1)
  {
  }

  class File {
    const ip: Inode
    const writable: bool
    var off: Word
    ghost var txs: seq<set<nat>>       // the blocks that each transaction for this file has logged

    constructor (ip: Inode, writable: bool)
      ensures this.ip == ip && this.writable == writable && off == 0 && txs == []
    {
      this.ip, this.writable, off, txs := ip, writable, 0, [];
    }

    /** After the first n transactions there have been k more, each of at most MAXOPBLOCKS blocks. */
    ghost predicate WithinBudget(n: nat, k: nat)
      reads this`txs
    {
      |txs| == n + k && forall j :: n <= j < |txs| ==> |txs[j]| <= LogDisk.MAXOPBLOCKS
    }

    /** The volume is in order and this file's inode is the current one. */
    ghost predicate Ready(fs: Fs)
      reads this`off, ip, fs`disk, fs`table
    {
      && fs.Valid() && fs.Loaded(ip) && NoHoles(fs.sb, fs.disk, fs.table) && fs.Synced()
      && ip.kind != T_DEV && off <= ip.size
    }

    /** The first i bytes of src have been written at off0 to this file, when the files were `was` and the inodes t;
        no other file and no other inode has changed. */
    ghost predicate Wrote(fs: Fs, was: seq<seq<Byte>>, t: Table, off0: nat, src: seq<Byte>, i: nat)
      reads this`off, ip, fs`disk, fs`table
    {
      && Ready(fs) && off == off0 + i && i <= |src| && ip.inum < |was| == |t| && off0 <= |was[ip.inum]|
      && fs.table == t[ip.inum := ip.Copy()]
      && Files(fs.sb, fs.disk, fs.table) == FilesAfter(was, ip.inum, off0, src, i)
    }

    lemma NothingWritten(fs: Fs, src: seq<Byte>)
      requires Ready(fs)
      ensures Wrote(fs, Files(fs.sb, fs.disk, fs.table), fs.table, off, src, 0)
    {
      var bytes := Contents(fs.sb, fs.disk, fs.table, ip.inum);
      assert Overwrite(bytes, off, src[..0]) == bytes;
    }

    /** A transaction of at most MAXOPBLOCKS logged blocks has put `bytes` at off0 of this file, when the volume was
        (d, t): no other file and no other inode has changed, and the blocks lo .. hi it needed are there. */
    ghost predicate Stored(fs: Fs, d: Disk, t: Table, off0: nat, bytes: seq<Byte>, lo: nat, hi: nat)
      requires Shaped(fs.sb, d, t) && NoHoles(fs.sb, d, t) && ip.inum < |t| && off0 <= t[ip.inum].size && hi <= MAXFILE
      reads ip, fs
    {
      && fs.Valid() && fs.Loaded(ip) && NoHoles(fs.sb, fs.disk, fs.table) && fs.Synced() && off0 + |bytes| <= ip.size
      && |fs.logged| <= LogDisk.MAXOPBLOCKS && Adds({}, fs.logged, {fs.sb.IBlock(ip.inum)}, LogDisk.MAXOPBLOCKS - 1)
      && fs.table == t[ip.inum := ip.Copy()]
      && Files(fs.sb, fs.disk, fs.table) == FilesAfter(Files(fs.sb, d, t), ip.inum, off0, bytes, |bytes|)
      && Filled(fs.sb, d, t, fs.disk, fs.table, ip.inum, lo, hi)
    }

    /** begin_op, writei, end_op: one transaction of at most MAXOPBLOCKS logged blocks. */
    method Transact(fs: Fs, bytes: seq<Byte>, ghost lo: nat, ghost hi: nat) returns (r: IoResult)
      requires Ready(fs) && |bytes| <= CHUNK && lo == off / BSIZE && hi == Top(off, |bytes|)
      modifies fs`disk, fs`logged, fs`table, ip`addrs, ip`size
      ensures r == Failed || r == NoSpace || r == Count(|bytes|)
      ensures r == Failed <==> off + |bytes| > MAXBYTES
      ensures r != Failed || (Ready(fs) && fs.disk == old(fs.disk) && fs.table == old(fs.table))
      ensures r != Failed ==> hi <= MAXFILE
      ensures r != Failed ==>
        (r == NoSpace <==> NFree(fs.sb, old(fs.disk)) < Missing(fs.sb, old(fs.disk), old(fs.table), ip.inum, lo, hi))
      ensures !r.Count? || Stored(fs, old(fs.disk), old(fs.table), off, bytes, lo, hi)
    {
      fs.logged := {};
      TopSpans(off, |bytes|);
      NoWrap(off, |bytes|);
      r := fs.WriteI(ip, bytes, off);
      if r.Count? {
        ChunkCheap(off, |bytes|, fs.logged, fs.sb.IBlock(ip.inum));
        OneReplaced(fs.sb, old(fs.disk), old(fs.table), fs.disk, fs.table, ip.inum, off, bytes);
      }
    }

    /** Since the volume (d, t), blocks lo .. hi of this file have been allocated where they were missing. */
    ghost predicate Spent(fs: Fs, d: Disk, t: Table, lo: nat, hi: nat)
      reads fs`disk, fs`table
    {
      && Shaped(fs.sb, d, t) && Shaped(fs.sb, fs.disk, fs.table) && ip.inum < |t| == |fs.table| && hi <= MAXFILE
      && Filled(fs.sb, d, t, fs.disk, fs.table, ip.inum, lo, hi)
    }

    /** Storing the next bytes at the offset and moving it past them adds them to what is written. */
    lemma WroteMore(fs: Fs, was: seq<seq<Byte>>, t: Table, off0: nat, src: seq<Byte>, i: nat, next: nat,
                    d1: Disk, t1: Table, node: Dinode, at: nat, bytes: seq<Byte>, lo: nat, hi: nat)
      requires i <= next <= |src| && at == off0 + i && off == off0 + next && bytes == src[i..next] && hi <= MAXFILE
      requires ip.inum < |was| == |t| && off0 <= |was[ip.inum]| && t1 == t[ip.inum := node] && at <= node.size
      requires Shaped(fs.sb, d1, t1) && NoHoles(fs.sb, d1, t1) && ip.kind != T_DEV
      requires Files(fs.sb, d1, t1) == FilesAfter(was, ip.inum, off0, src, i)
      requires Stored(fs, d1, t1, at, bytes, lo, hi)
      ensures Wrote(fs, was, t, off0, src, next)
    {
      FilesAfterMore(was, ip.inum, off0, src, i, next, at, bytes);
    }

    /** The transaction of a chunk, after which the offset moves on: bytes i .. next of src have been written too. */
    method Advance(fs: Fs, src: seq<Byte>, i: nat, next: nat, ghost was: seq<seq<Byte>>, ghost t: Table,
                   ghost off0: nat, ghost lo: nat, ghost hi: nat, ghost n: nat, ghost k: nat)
      returns (r: IoResult, ghost k': nat)
      requires WithinBudget(n, k) && ChunkEnds(|src|, i, next) && Wrote(fs, was, t, off0, src, i)
      requires lo == off / BSIZE && hi == Top(off, next - i)
      modifies this`off, this`txs, fs`disk, fs`logged, fs`table, ip`addrs, ip`size
      ensures r == Failed || r == NoSpace || r.Count?
      ensures r == Failed <==> off0 + next > MAXBYTES
      ensures r == Failed ==> fs.disk == old(fs.disk) && fs.table == old(fs.table)
      ensures r != Failed || Wrote(fs, was, t, off0, src, i)
      ensures !r.Count? || Wrote(fs, was, t, off0, src, next)
      ensures r != Failed ==> hi <= MAXFILE
      ensures r != Failed ==>
        (r == NoSpace <==> NFree(fs.sb, old(fs.disk)) < Missing(fs.sb, old(fs.disk), old(fs.table), ip.inum, lo, hi))
      ensures !r.Count? || Filled(fs.sb, old(fs.disk), old(fs.table), fs.disk, fs.table, ip.inum, lo, hi)
      ensures WithinBudget(n, k') && k' == if r.Count? then k + 1 else k
    {
      var bytes := src[i..next];
      ghost var d1, t1, node, at := fs.disk, fs.table, ip.Copy(), off;
      k' := k;
      r := Transact(fs, bytes, lo, hi);
      if r.Count? {
        off, txs, k' := off + r.n, txs + [fs.logged], k + 1;
        WroteMore(fs, was, t, off0, src, i, next, d1, t1, node, at, bytes, lo, hi);
      }
    }

    /** One chunk of filewrite. */
    method WriteChunk(fs: Fs, src: seq<Byte>, i: nat, ghost was: seq<seq<Byte>>, ghost d: Disk, ghost t: Table,
                      ghost off0: nat, ghost lo: nat, ghost hi: nat, ghost n: nat, ghost k: nat)
      returns (r: IoResult, next: nat, ghost hi': nat, ghost k': nat)
      requires WithinBudget(n, k) && i < |src| < 0x8000_0000 && Wrote(fs, was, t, off0, src, i)
      requires Spent(fs, d, t, lo, hi) && Spans(off0, i, lo, hi)
      modifies this`off, this`txs, fs`disk, fs`logged, fs`table, ip`addrs, ip`size
      ensures ChunkEnds(|src|, i, next)
      ensures r == Failed || r == NoSpace || r.Count?
      ensures r == Failed <==> off0 + next > MAXBYTES
      ensures r != Failed || (Wrote(fs, was, t, off0, src, i) && Spent(fs, d, t, lo, hi))
      ensures !r.Count? || (Wrote(fs, was, t, off0, src, next) && Spent(fs, d, t, lo, hi'))
      ensures r != Failed ==> Spans(off0, next, lo, hi') && hi' <= MAXFILE
      ensures Shaped(fs.sb, d, t) && ip.inum < |t|
      ensures r == NoSpace ==> NFree(fs.sb, d) < Missing(fs.sb, d, t, ip.inum, lo, hi')
      ensures WithinBudget(n, k') && k' == if r.Count? then k + 1 else k
    {
      next := |src|;
      if |src| - i > CHUNK {
        next := i + CHUNK;
      }
      ghost var d1, t1, lo', m := fs.disk, fs.table, off / BSIZE, next - i;
      hi' := Top(off, m);
      ChunkSpan(off0, i, next, lo, hi, off, m);
      r, k' := Advance(fs, src, i, next, was, t, off0, lo', hi', n, k);
      if r == NoSpace {
        MissingSplit(fs.sb, d, t, d1, t1, ip.inum, lo, hi, lo', hi');
      } else if r.Count? {
        FilledMore(fs.sb, d, t, d1, t1, fs.disk, fs.table, ip.inum, lo, hi, lo', hi');
      }
    }

    /** The loop of filewrite, from files `was`, the volume (d, t) and offset off0. */
    method WriteChunks(fs: Fs, src: seq<Byte>, ghost was: seq<seq<Byte>>, ghost d: Disk, ghost t: Table,
                       ghost off0: nat,
                       ghost lo: nat, ghost top: nat, ghost reach: nat)
      returns (i: nat, full: bool, ghost k: nat)
      requires |src| < 0x8000_0000 && Wrote(fs, was, t, off0, src, 0) && off0 <= MAXBYTES && reach == Reach(off0, |src|)
      requires Spent(fs, d, t, lo, lo) && Spans(off0, reach, lo, top) && top <= MAXFILE
      modifies this`off, this`txs, fs`disk, fs`logged, fs`table, ip`addrs, ip`size
      ensures WithinBudget(|old(txs)|, k) && (full || Chunks(|src|, i, k))
      ensures full || (i == reach && Wrote(fs, was, t, off0, src, i))
      ensures Shaped(fs.sb, d, t) && ip.inum < |t|
      ensures full <==> NFree(fs.sb, d) < Missing(fs.sb, d, t, ip.inum, lo, top)
    {
      k, full, i := 0, false, 0;
      ghost var hi, rest := lo, reach;
      while i < |src|
        invariant !full && Ahead(off0, |src|, i, rest, reach) && Spans(off0, i, lo, hi)
        invariant full || (Wrote(fs, was, t, off0, src, i) && Spent(fs, d, t, lo, hi))
        invariant WithinBudget(|old(txs)|, k) && Chunks(|src|, i, k)
      {
        var w, next;
        ghost var hi', rest', k';
        w, next, hi', k' := WriteChunk(fs, src, i, was, d, t, off0, lo, hi, |old(txs)|, k);
        rest' := ReachStep(off0, |src|, i, next, rest, reach);
        if w == Failed {
          SpansMonotone(off0, i, reach, lo, hi, top);
          return;
        }
        if w == NoSpace {
          full := true;
          SpansMonotone(off0, next, reach, lo, hi', top);
          MissingGrows(fs.sb, d, t, ip.inum, lo, hi', top);
          return;
        }
        ChunksMore(|src|, i, next, k);
        i, hi, rest, k := next, hi', rest', k';
      }
      SpansMonotone(off0, i, reach, lo, hi, top);
    }

    /** filewrite on an inode. The bytes go out in chunks, each its own transaction that logs at most MAXOPBLOCKS
        blocks, one for every 1536 bytes begun. The first Reach bytes are written at the old offset and the offset moves
        past them; the length of src is returned if that is all of it and -1 if not. The disk fills up on the way, where
        the kernel panics, exactly when there are fewer free blocks than those bytes need. */
    method Write(fs: Fs, src: seq<Byte>) returns (r: int, full: bool)
      requires Ready(fs) && |src| < 0x8000_0000
      modifies this`off, this`txs, fs`disk, fs`logged, fs`table, ip`addrs, ip`size
      ensures exists k :: WithinBudget(|old(txs)|, k)
      ensures old(off) <= MAXBYTES
      ensures var reach := if writable then Reach(old(off), |src|) else 0;
        && (full || Wrote(fs, Files(fs.sb, old(fs.disk), old(fs.table)), old(fs.table), old(off), src, reach))
        && (full || WithinBudget(|old(txs)|, (reach + 1535) / 1536))
        && (!full ==> r == if writable && reach == |src| then |src| else -1)
        && (full <==> NFree(fs.sb, old(fs.disk)) < Missing(fs.sb, old(fs.disk), old(fs.table), ip.inum,
                                                           old(off) / BSIZE, Top(old(off), reach)))
    {
      NothingWritten(fs, src);
      if !writable {
        NothingFilled(fs.sb, fs.disk, fs.table, ip.inum, off / BSIZE);
        assert WithinBudget(|txs|, 0);
        return -1, false;
      }
      ghost var reach := Reach(off, |src|);
      ghost var lo, top := off / BSIZE, Top(off, reach);
      TopSpans(off, reach);
      NothingFilled(fs.sb, fs.disk, fs.table, ip.inum, lo);
      var i; ghost var k;
      i, full, k := WriteChunks(fs, src, Files(fs.sb, fs.disk, fs.table), fs.disk, fs.table, off, lo, top, reach);
      r := if i == |src| then |src| else -1;
    }
  }
}
